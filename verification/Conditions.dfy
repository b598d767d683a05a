/** What parseltongue86's logical operations leave in the flags, and what its conditional code does with them. */
module Conditions {
  import opened Addresses
  import opened AluChain
  import opened AluFlags
  import opened Arith
  import opened Bits
  import opened CartridgeEmitter
  import opened CartridgeIR
  import opened Effects
  import opened Operands
  import opened Options

  // ----- and, or, xor and test

  predicate IsLogical(op: BinOp) {
    op.BitAnd? || op.BitOr? || op.BitXor?
  }

  function Bitwise(op: BinOp, x: nat, y: nat): nat
    requires IsLogical(op)
  {
    if op.BitAnd? then And(x, y) else if op.BitOr? then Or(x, y) else Xor(x, y)
  }

  lemma BitwiseRange(op: BinOp, x: nat, y: nat, size: nat)
    requires IsLogical(op) && Size(size) && x < Pow(256, size) && y < Pow(256, size)
    ensures Bitwise(op, x, y) < Pow(256, size) <= WORD
  {
    hide And, Or, Xor, Pow;
    Widths(size);
    PowStep(size * 8 - 1);
    AndBelow(x, y);
    OrBound(x, y, size * 8);
    XorBound(x, y, size * 8);
  }

  lemma BitwiseEval(op: BinOp, a: nat, b: nat, m: Machine)
    requires IsLogical(op) && 0 <= TmpOf(m.tmps, a) < WORD && 0 <= TmpOf(m.tmps, b) < WORD
    ensures Eval(Bin(op, Tmp(a), Tmp(b)), m) == Bitwise(op, TmpOf(m.tmps, a), TmpOf(m.tmps, b))
  {
    hide And, Or, Xor, TmpOf;
    ModSmall(TmpOf(m.tmps, a), WORD);
    ModSmall(TmpOf(m.tmps, b), WORD);
  }

  /** The flags that a logical operation leaves. */
  ghost predicate LogicalFlags(efl: int, r: int, W: int) {
    && 0 <= efl < WORD && BitOf(efl, FLAG_CF) == 0 && BitOf(efl, FLAG_OF) == 0
    && (BitOf(efl, FLAG_ZF) == 1 <==> r == 0) && (BitOf(efl, FLAG_SF) == 1 <==> 2 * r >= W)
  }

  /** The operands and the result. */
  lemma LogicalHead(c: Code, op: BinOp, src: Operand, dest: Operand, size: nat, m: Machine) returns (c3: Code)
    requires Sound(c) && IsLogical(op) && Size(size) && RegsOk(m)
    ensures c3 == BitwiseCode(c, op, src, dest, size) && Sound(c3) && c3.next == c.next + 3 && c.next + 2 in Scope(c3)
    ensures var z, z3 := Exec(c.ss, m), Exec(c3.ss, m);
            var x, y := OperandValue(dest, size, z), OperandValue(src, size, z);
            && RegsOk(z) && SameWorld(z, z3) && 0 <= x < Pow(256, size) <= WORD && 0 <= y < Pow(256, size)
            && TmpOf(z3.tmps, c.next + 2) == Bitwise(op, x, y) < Pow(256, size)
  {
    hide Exec, Sound, Scope, Extends, OperandValue, FetchInto, Declare, Eval, Convert, Bitwise, Pow;
    ExecRegsOk(c.ss, m);
    var z := Exec(c.ss, m);
    var c1 := FetchInto(c, src, size, false);
    RunFetch(c, src, size, m);
    var c2 := FetchInto(c1, dest, size, false);
    RunFetch(c1, dest, size, m);
    ValueAgrees(dest, size, z, Exec(c1.ss, m));
    ValueRange(src, size, z);
    ValueRange(dest, size, z);
    var x, y := OperandValue(dest, size, z), OperandValue(src, size, z);
    BinReads(op, Tmp(c.next + 1), Tmp(c.next), Scope(c2));
    c3 := Declare(c2, size, false, Bin(op, Tmp(c.next + 1), Tmp(c.next)));
    RunDeclare(c2, size, false, Bin(op, Tmp(c.next + 1), Tmp(c.next)), m);
    TmpsOfTwo(z, c.next, y, x);
    BitwiseRange(op, x, y, size);
    BitwiseEval(op, c.next + 1, c.next, Exec(c2.ss, m));
    Converted(Bitwise(op, x, y), size);
    ModSmall(Bitwise(op, x, y), Pow(256, size));
  }

  /** The flags of a logical operation. */
  lemma LogicalTail(c4: Code, res: nat, size: nat, m: Machine)
    requires Sound(c4) && res in Scope(c4) && res != c4.next && Size(size) && RegsOk(m)
    requires 0 <= TmpOf(Exec(c4.ss, m).tmps, res) < Pow(256, size)
    ensures var efl := c4.next; var c5 := Declare(c4, 2, false, Lit(0));
            var z, z' := Exec(c4.ss, m), Exec(SetFlag(Zps(c5, efl, res, size), COZPS, Tmp(efl), true).ss, m);
            && |z.regs| == |z'.regs| == REG_COUNT && z'.regs == z.regs[EFL := z'.regs[EFL]] && z'.mem == z.mem
            && LogicalFlags(z'.regs[EFL], TmpOf(z.tmps, res), Pow(256, size))
  {
    hide Exec, Exec1, Sound, Scope, Extends, Declare, Zps, Pow, BitOf, FlagWord, TmpOf, ParityBit, ZeroBit, SignBit, Eval, Convert;
    ExecRegsOk(c4.ss, m);
    var efl := c4.next;
    var c5 := Declare(c4, 2, false, Lit(0));
    RunDeclare(c4, 2, false, Lit(0), m);
    var z, z5 := Exec(c4.ss, m), Exec(c5.ss, m);
    ZeroConverted(z);
    BindTmp(z, efl, res, 0);
    var v, p, z6 := LastFlags(z5, z5, efl, res, size, 0, 0, 0);
    RunZps(c5, efl, res, size, m);
    var c6 := Zps(c5, efl, res, size);
    RunAdd1(c6, FlagStmt(COZPS, Tmp(efl), true), c6.next, m);
    var r := TmpOf(z.tmps, res);
    FlagWordBits(0, 0, p, Flag(r == 0), Flag(2 * r >= Pow(256, size)));
    ClobberExec(z6, efl, v);
  }

  lemma ClobberExec(m: Machine, efl: nat, v: nat)
    requires |m.regs| == REG_COUNT && TmpOf(m.tmps, efl) == v < 0x1_0000
    ensures Exec1(FlagStmt(COZPS, Tmp(efl), true), m) == m.(regs := m.regs[EFL := v])
  {
    hide TmpOf;
    ModSmall(v, WORD);
  }

  /** The code of and, or and xor stores the bitwise result, clears CF and OF, and sets ZF and SF; test only sets the flags. */
  lemma LogicalIsExact(c: Code, op: BinOp, src: Operand, dest: Operand, write: bool, size: nat, m: Machine)
    requires Sound(c) && IsLogical(op) && !dest.Imm? && SizeFits(dest, size) && RegsOk(m)
    ensures RegsOk(Exec(c.ss, m)) && 0 <= OperandValue(dest, size, Exec(c.ss, m)) && 0 <= OperandValue(src, size, Exec(c.ss, m))
    ensures var z, z' := Exec(c.ss, m), Exec(LogicalCode(c, op, src, dest, write, size).ss, m);
            var r := Bitwise(op, OperandValue(dest, size, z), OperandValue(src, size, z));
            var s := if write then Put(dest, r, size, z) else z;
            && |z'.regs| == REG_COUNT && z'.regs == s.regs[EFL := z'.regs[EFL]] && z'.mem == s.mem
            && LogicalFlags(z'.regs[EFL], r, Pow(256, size))
  {
    hide Exec, Sound, Scope, Extends, OperandValue, BitwiseCode, StoreTo, Declare, Put, Bitwise, LogicalFlags, Zps, SetFlag, Pow;
    var c3 := LogicalHead(c, op, src, dest, size, m);
    var z, z3 := Exec(c.ss, m), Exec(c3.ss, m);
    var r := Bitwise(op, OperandValue(dest, size, z), OperandValue(src, size, z));
    ExecRegsOk(c3.ss, m);
    var c4 := if write then StoreTo(c3, dest, Tmp(c.next + 2), size) else c3;
    if write {
      RunStore(c3, dest, Tmp(c.next + 2), size, m);
      PutWorld(dest, r, size, z, z3);
    }
    LogicalTail(c4, c.next + 2, size, m);
  }

  // ----- conditions

  /** A condition on the flags: SF != OF or one flag, perhaps or ZF, perhaps negated. */
  predicate Holds(cond: Cond, efl: nat) {
    var basic := if cond.less then BitOf(efl, FLAG_SF) != BitOf(efl, FLAG_OF) else BitOf(efl, cond.bit) == 1;
    (basic || (cond.orZero && BitOf(efl, FLAG_ZF) == 1)) != cond.negated
  }

  lemma {:induction false} BitOfMod(x: nat, j: nat, k: nat)
    requires k < j
    ensures 0 < Pow(2, j) && BitOf(x % Pow(2, j), k) == BitOf(x, k)
    decreases k
  {
    PowPos(2, j);
    var p := Pow(2, j - 1);
    PowPos(2, j - 1);
    HalvedMod(x, p);
    if k != 0 { BitOfMod(x / 2, j - 1, k - 1); }
  }

  lemma HalvedMod(x: nat, p: int)
    requires 0 < p
    ensures x % (2 * p) % 2 == x % 2 && x % (2 * p) / 2 == x / 2 % p
  {
    var q, r := x / 2 / p, x / 2 % p;
    assert q * (2 * p) == 2 * (q * p);
    DivModUnique(x, 2 * p, q, 2 * r + x % 2);
  }

  /** emit_get_flag with all sixteen flags. */
  lemma FlagsRead(m: Machine)
    requires RegsOk(m)
    ensures Convert(Eval(Bin(BitAnd, Cast(2, false, RegVal(EFL)), Lit(0xFFFF)), m), 2, false) == m.regs[EFL] % 0x1_0000
  {
    hide And, Pow, Shl;
    FlagPowers();
    PowTwoValues();
    var low := m.regs[EFL] % 0x1_0000;
    assert Eval(Cast(2, false, RegVal(EFL)), m) == low;
    ModSmall(low, WORD);
    ShlPow(0, 16);
    AndLowMask(0, 16, low);
    ModSmall(low, 0x1_0000);
  }

  lemma BitTested(v: nat, k: nat)
    requires v < 0x1_0000 && k < 16
    ensures 0 < Pow(2, k) < WORD && (And(v, Pow(2, k)) == 0 <==> BitOf(v, k) == 0)
  {
    hide And, Shl, BitOf, Pow;
    PowPos(2, k);
    PowMono(2, k, 16);
    PowTwoValues();
    var q, r := v / Pow(2, k), v % Pow(2, k);
    ShlPow(q, k);
    ShlPow(1, k);
    ShlPow(q % 2, k);
    AndBit(q, k, r);
    BitDiv(v, k);
    if q % 2 == 1 { assert q % 2 * Pow(2, k) == Pow(2, k); }
  }

  lemma OneBit(m: Machine, id: nat, k: nat, v: nat)
    requires TmpOf(m.tmps, id) == v < 0x1_0000 && k < 16
    ensures Eval(Bin(BitAnd, Tmp(id), Bin(ShiftL, Lit(1), Lit(k))), m) == 0 <==> BitOf(v, k) == 0
  {
    hide And, BitOf, TmpOf, Pow;
    BitTested(v, k);
    ModSmall(v, WORD);
    ModSmall(Pow(2, k), WORD);
    assert Eval(Bin(ShiftL, Lit(1), Lit(k)), m) == Pow(2, k);
  }

  lemma ZeroTested(m: Machine, id: nat, v: nat)
    requires TmpOf(m.tmps, id) == v < 0x1_0000
    ensures Eval(Bin(BitAnd, Tmp(id), Lit(0x40)), m) == 0 <==> BitOf(v, FLAG_ZF) == 0
  {
    hide And, BitOf, TmpOf, Pow;
    FlagPowers();
    BitTested(v, 6);
    ModSmall(v, WORD);
  }

  lemma LessTested(m: Machine, id: nat, v: nat)
    requires TmpOf(m.tmps, id) == v < 0x1_0000
    ensures var x, y := Bin(ShiftR, Tmp(id), Lit(FLAG_SF)), Bin(ShiftR, Tmp(id), Lit(FLAG_OF));
            Eval(Bin(BitAnd, Bin(BitXor, x, y), Lit(1)), m) == 0 <==> BitOf(v, FLAG_SF) == BitOf(v, FLAG_OF)
  {
    hide And, Xor, BitOf, TmpOf, Pow;
    FlagPowers();
    FlagBits(v);
    var x, y := v / 128, v / 2048;
    assert Eval(Bin(ShiftR, Tmp(id), Lit(FLAG_SF)), m) == x && Eval(Bin(ShiftR, Tmp(id), Lit(FLAG_OF)), m) == y;
    ModSmall(x, WORD);
    ModSmall(y, WORD);
    PowTwoValues();
    XorBound(x, y, 16);
    ModSmall(Xor(x, y), WORD);
    assert Eval(Bin(BitXor, Bin(ShiftR, Tmp(id), Lit(FLAG_SF)), Bin(ShiftR, Tmp(id), Lit(FLAG_OF))), m) == Xor(x, y);
    AndOne(Xor(x, y));
    XorHalves(x, y);
  }

  /** The test of the emitted code is true exactly if the condition does not hold. */
  lemma SkipTestExact(cond: Cond, id: nat, m: Machine, efl: nat)
    requires TmpOf(m.tmps, id) == efl % 0x1_0000 && cond.bit < 16
    ensures Eval(SkipTest(cond, id), m) == 0 <==> Holds(cond, efl)
  {
    hide BitOf, TmpOf, Pow, Apply;
    var v := efl % 0x1_0000;
    PowTwoValues();
    BitOfMod(efl, 16, FLAG_SF);
    BitOfMod(efl, 16, FLAG_OF);
    BitOfMod(efl, 16, FLAG_ZF);
    BitOfMod(efl, 16, cond.bit);
    BitIsZeroOne(v, cond.bit);
    BitIsZeroOne(v, FLAG_ZF);
    BitIsZeroOne(v, FLAG_SF);
    BitIsZeroOne(v, FLAG_OF);
    OneBit(m, id, cond.bit, v);
    ZeroTested(m, id, v);
    LessTested(m, id, v);
    SkipEval(cond, id, m);
  }

  lemma SkipEval(cond: Cond, id: nat, m: Machine)
    ensures var less := Bin(BitAnd, Bin(BitXor, Bin(ShiftR, Tmp(id), Lit(FLAG_SF)), Bin(ShiftR, Tmp(id), Lit(FLAG_OF))), Lit(1));
            var basic := if cond.less then less else Bin(BitAnd, Tmp(id), Bin(ShiftL, Lit(1), Lit(cond.bit)));
            var or := cond.orZero && Eval(Bin(BitAnd, Tmp(id), Lit(0x40)), m) != 0;
            Eval(SkipTest(cond, id), m) == 0 <==> ((Eval(basic, m) != 0 || or) != cond.negated)
  {
    hide And, Xor, Pow, TmpOf;
    var less := Bin(BitAnd, Bin(BitXor, Bin(ShiftR, Tmp(id), Lit(FLAG_SF)), Bin(ShiftR, Tmp(id), Lit(FLAG_OF))), Lit(1));
    var basic := if cond.less then less else Bin(BitAnd, Tmp(id), Bin(ShiftL, Lit(1), Lit(cond.bit)));
    var test := if cond.orZero then Choose(Bin(BitAnd, Tmp(id), Lit(0x40)), Lit(1), basic) else basic;
    TestEval(cond.orZero, Bin(BitAnd, Tmp(id), Lit(0x40)), basic, m);
    EqZero(test, m);
  }

  lemma TestEval(or: bool, zero: Expr, basic: Expr, m: Machine)
    ensures var test := if or then Choose(zero, Lit(1), basic) else basic;
            Eval(test, m) == 0 <==> !(Eval(basic, m) != 0 || (or && Eval(zero, m) != 0))
  {}

  lemma EqZero(e: Expr, m: Machine)
    ensures Eval(Bin(Eq, e, Lit(0)), m) == if Eval(e, m) == 0 then 1 else 0
  {}

  // ----- conditional moves, jumps and sets

  predicate CondOk(cond: Option<Cond>) {
    cond.Some? ==> cond.value.bit < 16
  }

  /** No condition always holds. */
  ghost predicate Taken(cond: Option<Cond>, m: Machine)
    requires RegsOk(m)
  {
    cond.None? || Holds(cond.value, m.regs[EFL])
  }

  /** The flags have been read into the temporary of the test. */
  lemma FlagsFetched(c: Code, m: Machine)
    requires Sound(c) && RegsOk(m)
    ensures RegsOk(Exec(c.ss, m))
    ensures var z := Exec(c.ss, m); Exec(GetFlag(c, 0xFFFF).ss, m) == Bind(z, c.next, z.regs[EFL] % 0x1_0000)
  {
    hide Exec, Sound, Scope, Extends, Declare, Eval, Convert;
    ExecRegsOk(c.ss, m);
    BinReads(BitAnd, Cast(2, false, RegVal(EFL)), Lit(0xFFFF), Scope(c));
    RunDeclare(c, 2, false, Bin(BitAnd, Cast(2, false, RegVal(EFL)), Lit(0xFFFF)), m);
    FlagsRead(Exec(c.ss, m));
  }

  /** A guarded move moves exactly under its condition. */
  lemma GuardedExec(c: Code, cond: Option<Cond>, src: Operand, dest: Operand, size: nat, m: Machine)
    requires Sound(c) && !dest.Imm? && SizeFits(dest, size) && RegsOk(m) && CondOk(cond)
    ensures RegsOk(Exec(c.ss, m))
    ensures var z := Exec(c.ss, m);
            SameWorld(Exec(GuardedMov(c, cond, src, dest, size).ss, m),
                      if Taken(cond, z) then Put(dest, OperandValue(src, size, z), size, z) else z)
  {
    hide Exec, Sound, Scope, OperandValue, Put, MovCode, Block, GetFlag, SkipTest, Holds, TmpOf;
    ExecRegsOk(c.ss, m);
    var z := Exec(c.ss, m);
    if cond.None? {
      MovExec(c, src, dest, size, m);
    } else {
      var c1 := GetFlag(c, 0xFFFF);
      FlagsFetched(c, m);
      var z1 := Exec(c1.ss, m);
      BoundTmp(z, c.next, z.regs[EFL] % 0x1_0000);
      SkipTestReads(cond.value, c.next, Scope(c1));
      var start := Start(Scope(c1), c1.next);
      var body := MovCode(start, src, dest, size, size, false);
      RunBlock(c1, SkipTest(cond.value, c.next), body, m);
      SkipTestExact(cond.value, c.next, z1, z.regs[EFL]);
      EmptyBody(z1);
      MovExec(start, src, dest, size, z1);
      ValueAgrees(src, size, z, z1);
      PutWorld(dest, OperandValue(src, size, z), size, z, z1);
    }
  }

  /** A jump goes to its target exactly if its condition holds, and changes nothing else. */
  lemma JumpIsExact(c: Code, cond: Option<Cond>, src: Operand, m: Machine)
    requires Sound(c) && RegsOk(m) && CondOk(cond)
    ensures RegsOk(Exec(c.ss, m))
    ensures var z := Exec(c.ss, m);
            SameWorld(Exec(GuardedMov(c, cond, src, Whole(RIP), 8).ss, m),
                      if Taken(cond, z) then z.(regs := z.regs[RIP := OperandValue(src, 8, z)]) else z)
  {
    hide Exec, Sound, Scope, OperandValue, GuardedMov, Taken, Pow;
    GuardedExec(c, cond, src, Whole(RIP), 8, m);
    MaskPowers();
    ValueRange(src, 8, Exec(c.ss, m));
    ModSmall(OperandValue(src, 8, Exec(c.ss, m)), WORD);
  }

  lemma RunStoreLit(c: Code, dest: Operand, n: int, m: Machine)
    requires Sound(c) && !dest.Imm? && SizeFits(dest, 1) && RegsOk(m)
    ensures RegsOk(Exec(c.ss, m)) && Exec(StoreTo(c, dest, Lit(n), 1).ss, m) == Put(dest, n, 1, Exec(c.ss, m))
  {
    hide Exec, Sound, Scope, StoreTo, Put;
    assert RegFree(Lit(n)) && ReadsOnly(Lit(n), Scope(c));
    RunStore(c, dest, Lit(n), 1, m);
  }

  /** A set stores one exactly if its condition holds, and zero otherwise, and changes nothing else. */
  lemma SetIsExact(c: Code, cond: Option<Cond>, dest: Operand, m: Machine)
    requires Sound(c) && RegsOk(m) && CondOk(cond) && !dest.Imm? && SizeFits(dest, 1) && Clear(dest, EFL)
    ensures RegsOk(Exec(c.ss, m))
    ensures var z := Exec(c.ss, m); SameWorld(Exec(SetCode(c, cond, dest).ss, m), Put(dest, Flag(Taken(cond, z)), 1, z))
  {
    hide Exec, Sound, Scope, Put, StoreTo, Block, GetFlag, SkipTest, Holds, TmpOf, Pow;
    RunStoreLit(c, dest, 0, m);
    var z := Exec(c.ss, m);
    var c1 := StoreTo(c, dest, Lit(0), 1);
    var z1 := Exec(c1.ss, m);
    MaskPowers();
    PutTwice(dest, 0, 1, 1, z);
    PutKeepsFlags(dest, 0, 1, z);
    if cond.None? {
      RunStoreLit(c1, dest, 1, m);
    } else {
      var c2 := GetFlag(c1, 0xFFFF);
      FlagsFetched(c1, m);
      var z2 := Exec(c2.ss, m);
      BoundTmp(z1, c1.next, z1.regs[EFL] % 0x1_0000);
      SkipTestReads(cond.value, c1.next, Scope(c2));
      var start := Start(Scope(c2), c2.next);
      RunBlock(c2, SkipTest(cond.value, c1.next), StoreTo(start, dest, Lit(1), 1), m);
      SkipTestExact(cond.value, c1.next, z2, z.regs[EFL]);
      EmptyBody(z2);
      RunStoreLit(start, dest, 1, z2);
      PutWorld(dest, 1, 1, z1, z2);
    }
  }

  // ----- compare, then branch

  /** The relation that a condition stands for after a comparison. */
  predicate Relates(cond: Cond, a: int, b: int, W: int) {
    var basic := if cond.less then Signed(a, W) < Signed(b, W) else if cond.bit == FLAG_CF then a < b else a == b;
    (basic || (cond.orZero && a == b)) != cond.negated
  }

  /** b, be, a, ae, e, ne, l, le, g, ge and their synonyms. */
  predicate Comparison(cond: Cond) {
    cond.less || cond.bit == FLAG_CF || cond.bit == FLAG_ZF
  }

  /** The flags of a difference tell how the operands compare, as numbers without and with a sign. */
  lemma FlagsCompare(efl: int, a: int, b: int, half: int)
    requires 0 <= a < 2 * half && 0 <= b < 2 * half && FlagsRight(efl, true, true, a, b, 0, 2 * half)
    ensures BitOf(efl, FLAG_CF) == 1 <==> a < b
    ensures BitOf(efl, FLAG_ZF) == 1 <==> a == b
    ensures BitOf(efl, FLAG_SF) != BitOf(efl, FLAG_OF) <==> Signed(a, 2 * half) < Signed(b, 2 * half)
  {
    hide BitOf;
    Reduced(true, a, b, 0, 2 * half);
    BitIsZeroOne(efl, FLAG_SF);
    BitIsZeroOne(efl, FLAG_OF);
  }

  /** After the code of cmp, a condition holds exactly if the relation does that it stands for. */
  lemma CompareDecides(efl: int, cond: Cond, a: int, b: int, size: nat)
    requires Size(size) && 0 <= a < Pow(256, size) && 0 <= b < Pow(256, size) && Comparison(cond)
    requires FlagsRight(efl, true, true, a, b, 0, Pow(256, size))
    ensures Holds(cond, efl) <==> Relates(cond, a, b, Pow(256, size))
  {
    hide BitOf, Pow, Signed, FlagsRight;
    Widths(size);
    RightFlags(efl, a, b, Pow(256, size));
    FlagsCompare(efl, a, b, Pow(2, size * 8 - 1));
  }

  lemma RightFlags(efl: int, a: int, b: int, W: int)
    requires 0 < W && FlagsRight(efl, true, true, a, b, 0, W)
    ensures 0 <= efl < WORD
  {}

  /** The code of cmp and of the conditional jump behind it: the jump is taken exactly if the operands are in its relation. */
  lemma CompareThenJump(c: Code, left: Operand, right: Operand, size: nat, cond: Cond, target: Operand, m: Machine)
    requires Sound(c) && RegsOk(m) && Size(size) && Comparison(cond) && cond.bit < 16 && Clear(target, EFL)
    ensures RegsOk(Exec(c.ss, m)) && 0 < Pow(256, size)
    ensures var cmp := Add(true, false, left, right, Nowhere, true, true, size);
            var z, z' := Exec(c.ss, m), Exec(GuardedMov(AddCode(c, cmp), Some(cond), target, Whole(RIP), 8).ss, m);
            && |z'.regs| == REG_COUNT && z'.mem == z.mem
            && z'.regs[RIP] == (if Relates(cond, OperandValue(left, size, z), OperandValue(right, size, z), Pow(256, size))
                               then OperandValue(target, 8, z) else z.regs[RIP])
            && forall r :: 0 <= r < REG_COUNT && r != RIP && r != EFL ==> z'.regs[r] == z.regs[r]
  {
    hide Exec, Sound, Scope, Extends, OperandValue, AddCode, GuardedMov, FlagsRight, Holds, Relates, Pow;
    var cmp := Add(true, false, left, right, Nowhere, true, true, size);
    CompareIsExact(c, cmp, m);
    var z := Exec(c.ss, m);
    var c1 := AddCode(c, cmp);
    var z1 := Exec(c1.ss, m);
    ValueRange(left, size, z);
    ValueRange(right, size, z);
    JumpIsExact(c1, Some(cond), target, m);
    CompareDecides(z1.regs[EFL], cond, OperandValue(left, size, z), OperandValue(right, size, z), size);
    ValueClear(target, 8, z, z1, EFL);
  }
}
