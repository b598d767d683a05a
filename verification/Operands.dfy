/** The operands of x86 instructions: what parseltongue86's fetches read, and what its stores leave behind. */
module Operands {
  import opened AluFlags
  import opened Arith
  import opened Bits
  import opened CartridgeEmitter
  import opened CartridgeIR

  // ----- registers stay words

  ghost predicate RegsOk(m: Machine) {
    |m.regs| == REG_COUNT && forall r :: 0 <= r < |m.regs| ==> 0 <= m.regs[r] < WORD
  }

  lemma {:induction false} ExecRegsOk(ss: seq<Stmt>, m: Machine)
    requires RegsOk(m)
    ensures RegsOk(Exec(ss, m))
    decreases ss
  {
    hide Eval;
    if ss != [] {
      Exec1RegsOk(ss[0], m);
      ExecRegsOk(ss[1..], Exec1(ss[0], m));
    }
  }

  lemma {:induction false} Exec1RegsOk(s: Stmt, m: Machine)
    requires RegsOk(m)
    ensures RegsOk(Exec1(s, m))
    decreases s
  {
    hide Eval, Convert, StoreBytes, Apply;
    if s.Unless? { ExecRegsOk(s.body, m); }
  }

  // ----- fetches

  /** The value that a fetch of the operand declares. */
  ghost function OperandValue(op: Operand, size: nat, m: Machine): int {
    Convert(Eval(Fetch(op, size), m), size, false)
  }

  /** The operand does not involve register r. */
  predicate Clear(op: Operand, r: nat) {
    match op
    case RegOp(q, _) => q != r
    case Imm(_) => true
    case MemOp(_, _, base, index) => (base.Some? ==> base.value != r) && (index.Some? ==> index.value.r != r)
  }

  /** An expression over registers other than r. */
  predicate Avoids(e: Expr, r: nat) {
    match e
    case Lit(_) => true
    case RegVal(q) => q != r
    case Cast(_, _, x) => Avoids(x, r)
    case Bin(_, x, y) => Avoids(x, r) && Avoids(y, r)
    case _ => false
  }

  /** Two machines whose registers differ in r at most; in none if r is no register. */
  ghost predicate SameBut(m: Machine, m': Machine, r: nat) {
    |m.regs| == |m'.regs| == REG_COUNT && forall q :: 0 <= q < REG_COUNT && q != r ==> m'.regs[q] == m.regs[q]
  }

  lemma {:induction false} EvalAvoids(e: Expr, m: Machine, m': Machine, r: nat)
    requires Avoids(e, r) && SameBut(m, m', r)
    ensures Eval(e, m) == Eval(e, m')
    decreases e
  {
    match e
    case Lit(_) =>
    case RegVal(_) =>
    case Cast(_, _, x) => EvalAvoids(x, m, m', r);
    case Bin(_, x, y) => EvalAvoids(x, m, m', r); EvalAvoids(y, m, m', r);
  }

  lemma {:induction false} TotalAvoids(terms: seq<Expr>, r: nat)
    requires forall i :: 0 <= i < |terms| ==> Avoids(terms[i], r)
    ensures Avoids(Total(terms), r)
  {
    if |terms| > 1 { TotalAvoids(terms[..|terms| - 1], r); }
  }

  /** An address does not depend on memory, on temporaries, or on registers that the operand does not name. */
  lemma AddrClear(op: Operand, m: Machine, m': Machine, r: nat)
    requires op.MemOp? && Clear(op, r) && SameBut(m, m', r)
    ensures Eval(Addr(op), m') == Eval(Addr(op), m)
  {
    hide Total, Eval;
    var width := if op.wide then 8 else 4;
    var o := if op.offset == 0 then [] else [Cast(width, false, Lit(op.offset))];
    var b := if op.base.None? then [] else [Cast(width, false, RegVal(op.base.value))];
    var i := if op.index.None? then []
             else [Bin(Times, Cast(width, false, RegVal(op.index.value.r)), Lit(op.index.value.scale))];
    if op.index.Some? {
      assert Avoids(Cast(width, false, RegVal(op.index.value.r)), r);
      assert Avoids(i[0], r);
    }
    TotalAvoids(o + b + i, r);
    EvalAvoids(Addr(op), m, m', r);
  }

  /** The value of an operand does not depend on a register that it does not involve. */
  lemma ValueClear(op: Operand, size: nat, m: Machine, m': Machine, r: nat)
    requires Clear(op, r) && SameBut(m, m', r) && m'.mem == m.mem
    ensures OperandValue(op, size, m') == OperandValue(op, size, m)
  {
    hide Addr, Convert, LoadBytes;
    if op.MemOp? { AddrClear(op, m, m', r); }
    if op.RegOp? && op.high { assert Eval(Bin(ShiftR, RegVal(op.r), Lit(8)), m) == Eval(Bin(ShiftR, RegVal(op.r), Lit(8)), m'); }
  }

  /** High-byte registers are bytes. */
  predicate SizeFits(op: Operand, size: nat) {
    Size(size) && (op.RegOp? && op.high ==> size == 1)
  }

  lemma ValueRange(op: Operand, size: nat, m: Machine)
    ensures 0 < Pow(256, size) && 0 <= OperandValue(op, size, m) < Pow(256, size)
  {
    hide Pow, Eval, Fetch;
    PowPos(256, size);
  }

  lemma ValueAgrees(op: Operand, size: nat, m: Machine, m': Machine)
    requires m'.regs == m.regs && m'.mem == m.mem
    ensures OperandValue(op, size, m') == OperandValue(op, size, m)
  {
    hide Eval, Fetch, Convert;
    FetchReads(op, size, {});
    EvalAgrees(Fetch(op, size), m, m', {});
  }

  lemma RegisterFetched(r: Reg, high: bool, size: nat, m: Machine, x: int)
    requires |m.regs| == REG_COUNT && m.regs[r] == x && 0 <= x < WORD && SizeFits(RegOp(r, high), size)
    ensures 0 < Pow(256, size)
    ensures OperandValue(RegOp(r, high), size, m) == if high then x / 0x100 % 0x100 else x % Pow(256, size)
  {
    hide Pow;
    MaskPowers();
    PowPos(256, size);
    if high {
      assert Pow(2, 8) == 0x100;
      assert Eval(Bin(ShiftR, RegVal(r), Lit(8)), m) == x / 0x100;
      assert Eval(Fetch(RegOp(r, high), size), m) == x / 0x100 % 0x100;
      ModSmall(x / 0x100 % 0x100, 0x100);
    } else {
      assert Eval(Fetch(RegOp(r, high), size), m) == x % Pow(256, size);
      ModSmall(x % Pow(256, size), Pow(256, size));
    }
  }

  // ----- fetches with a sign

  /** A word read as a number without or with a sign. */
  function View(x: int, W: int, signed: bool): int {
    if signed then Signed(x, W) else x
  }

  lemma ConvertViews(x: int, size: nat, signed: bool)
    ensures 0 < Pow(256, size) && Convert(x, size, signed) == View(x % Pow(256, size), Pow(256, size), signed)
  {
    PowPos(256, size);
  }

  lemma PlainView(x: int, W: int)
    ensures View(x, W, false) == x
  {}

  /** A fetch with or without a sign declares the operand read as such a number. */
  lemma FetchViews(op: Operand, size: nat, signed: bool, m: Machine)
    ensures Convert(Eval(Fetch(op, size), m), size, signed) == View(OperandValue(op, size, m), Pow(256, size), signed)
  {
    hide Eval, Fetch, Convert, View, Pow;
    var x := Eval(Fetch(op, size), m);
    ConvertViews(x, size, signed);
    ConvertViews(x, size, false);
    PlainView(x % Pow(256, size), Pow(256, size));
  }

  // ----- masks

  /** Masks act on the fields of a word separately. */
  lemma {:induction false} AndFields(q: nat, s: nat, y: nat, z: nat, k: nat)
    requires s < Pow(2, k) && z < Pow(2, k)
    ensures And(Shl(q, k) + s, Shl(y, k) + z) == Shl(And(q, y), k) + And(s, z)
  {
    hide And;
    if k == 0 {
      AndZero(0);
    } else {
      AndFields(q, s / 2, y, z / 2, k - 1);
      AndHalves(s, z);
      AndHalves(Shl(q, k) + s, Shl(y, k) + z);
      assert (Shl(q, k) + s) / 2 == Shl(q, k - 1) + s / 2 && (Shl(y, k) + z) / 2 == Shl(y, k - 1) + z / 2;
      assert (Shl(q, k) + s) % 2 == s % 2 && (Shl(y, k) + z) % 2 == z % 2;
    }
  }

  lemma AndZero(x: nat)
    ensures And(x, 0) == 0 && And(0, x) == 0
  {}

  lemma MaskPowers()
    ensures Pow(2, 8) == 0x100 && Pow(2, 16) == 0x1_0000 && Pow(2, 48) == 0x1_0000_0000_0000 && Pow(2, 56) == 0x100_0000_0000_0000
    ensures Pow(256, 1) == 0x100 && Pow(256, 2) == 0x1_0000 && Pow(256, 4) == 0x1_0000_0000 && Pow(256, 8) == WORD
  {
    PowTwoValues();
    PowAdd(2, 32, 16);
    PowAdd(2, 48, 8);
    assert Pow(256, 1) == 256 && Pow(256, 2) == 65536;
    PowAdd(256, 2, 2);
    PowAdd(256, 4, 4);
  }

  /** The masks of emit_store clear the field that is stored to. */
  lemma MaskByte(x: nat)
    requires x < WORD
    ensures And(x, 0xFFFF_FFFF_FFFF_FF00) == x / 0x100 * 0x100
  {
    hide And, Shl, Pow;
    MaskPowers();
    var q, s := x / 0x100, x % 0x100;
    AndFields(q, s, 0xFF_FFFF_FFFF_FFFF, 0, 8);
    AndLowMask(0, 56, q);
    ShlPow(0, 56);
    ShlPow(q, 8);
    ShlPow(0xFF_FFFF_FFFF_FFFF, 8);
    AndZero(s);
  }

  lemma MaskHalf(x: nat)
    requires x < WORD
    ensures And(x, 0xFFFF_FFFF_FFFF_0000) == x / 0x1_0000 * 0x1_0000
  {
    hide And, Shl, Pow;
    MaskPowers();
    var q, s := x / 0x1_0000, x % 0x1_0000;
    AndFields(q, s, 0xFFFF_FFFF_FFFF, 0, 16);
    AndLowMask(0, 48, q);
    ShlPow(0, 48);
    ShlPow(q, 16);
    ShlPow(0xFFFF_FFFF_FFFF, 16);
    AndZero(s);
  }

  lemma MaskHigh(x: nat)
    requires x < WORD
    ensures And(x, 0xFFFF_FFFF_FFFF_00FF) == x / 0x1_0000 * 0x1_0000 + x % 0x100
  {
    hide And, Shl, Pow;
    MaskPowers();
    var q, h, l := x / 0x1_0000, x / 0x100 % 0x100, x % 0x100;
    assert x == q * 0x1_0000 + (h * 0x100 + l);
    HighFields(q, h, l);
  }

  lemma HighFields(q: nat, h: nat, l: nat)
    requires q < 0x1_0000_0000_0000 && h < 0x100 && l < 0x100
    ensures And(q * 0x1_0000 + (h * 0x100 + l), 0xFFFF_FFFF_FFFF_00FF) == q * 0x1_0000 + l
  {
    hide And, Shl, Pow;
    MaskPowers();
    AndFields(q, h * 0x100 + l, 0xFFFF_FFFF_FFFF, 0xFF, 16);
    AndLowMask(0, 48, q);
    ShlPow(0, 48);
    ShlPow(q, 16);
    ShlPow(0xFFFF_FFFF_FFFF, 16);
    AndLowMask(h, 8, l);
    ShlPow(h, 8);
  }

  // ----- stores

  /** A register after v has been stored to the part of it that an operand names. */
  function PutReg(x: int, v: int, size: nat, high: bool): int {
    if size == 1 && high then x - x / 0x100 % 0x100 * 0x100 + v % 0x100 * 0x100
    else if size == 1 then (x - x % 0x100 + v) % WORD
    else if size == 2 then (x - x % 0x1_0000 + v) % WORD
    else if size == 4 then v % 0x1_0000_0000
    else v % WORD
  }

  /** The machine after v has been stored to an operand. */
  function Put(op: Operand, v: int, size: nat, m: Machine): Machine
    requires !op.Imm? && |m.regs| == REG_COUNT
  {
    match op
    case RegOp(r, high) => m.(regs := m.regs[r := PutReg(m.regs[r], v, size, high)])
    case MemOp(_, _, _, _) => m.(mem := StoreBytes(m.mem, Eval(Addr(op), m), size, v))
  }

  /** The expression reads no register and no memory. */
  predicate RegFree(e: Expr) {
    match e
    case Lit(_) => true
    case Tmp(_) => true
    case Cast(_, _, x) => RegFree(x)
    case Bin(_, x, y) => RegFree(x) && RegFree(y)
    case _ => false
  }

  lemma {:induction false} EvalRegFree(e: Expr, m: Machine, m': Machine)
    requires RegFree(e) && m'.tmps == m.tmps
    ensures Eval(e, m') == Eval(e, m)
    decreases e
  {
    match e
    case Lit(_) =>
    case Tmp(_) =>
    case Cast(_, _, x) => EvalRegFree(x, m, m');
    case Bin(_, x, y) => EvalRegFree(x, m, m'); EvalRegFree(y, m, m');
  }

  lemma SetRegStmt(r: Reg, e: Expr, m: Machine)
    requires |m.regs| == REG_COUNT
    ensures Exec1(SetReg(r, e), m) == m.(regs := m.regs[r := Eval(e, m) % WORD])
  {
    hide Eval;
  }

  lemma MaskStmt(r: Reg, mask: nat, m: Machine)
    requires RegsOk(m) && mask < WORD
    ensures Exec1(SetReg(r, Bin(BitAnd, RegVal(r), Lit(mask))), m) == m.(regs := m.regs[r := And(m.regs[r], mask)])
  {
    hide And, Exec1;
    ModSmall(m.regs[r], WORD);
    ModSmall(mask, WORD);
    AndBelow(m.regs[r], mask);
    ModSmall(And(m.regs[r], mask), WORD);
    assert Eval(Bin(BitAnd, RegVal(r), Lit(mask)), m) == And(m.regs[r], mask);
    SetRegStmt(r, Bin(BitAnd, RegVal(r), Lit(mask)), m);
  }

  lemma PlusStmt(r: Reg, e: Expr, m: Machine)
    requires |m.regs| == REG_COUNT
    ensures Exec1(SetReg(r, Bin(Plus, RegVal(r), e)), m) == m.(regs := m.regs[r := (m.regs[r] + Eval(e, m)) % WORD])
  {
    hide Exec1;
    assert Eval(Bin(Plus, RegVal(r), e), m) == m.regs[r] + Eval(e, m);
    SetRegStmt(r, Bin(Plus, RegVal(r), e), m);
  }

  /** The two statements that store to part of a register. */
  lemma PartStores(r: Reg, mask: nat, e: Expr, m: Machine)
    requires RegsOk(m) && mask < WORD && RegFree(e)
    ensures var ss := [SetReg(r, Bin(BitAnd, RegVal(r), Lit(mask))), SetReg(r, Bin(Plus, RegVal(r), e))];
            Exec(ss, m) == m.(regs := m.regs[r := (And(m.regs[r], mask) + Eval(e, m)) % WORD])
  {
    hide And, RegFree, Exec, Exec1, Eval, RegsOk;
    var s, t := SetReg(r, Bin(BitAnd, RegVal(r), Lit(mask))), SetReg(r, Bin(Plus, RegVal(r), e));
    RegIsWord(m, r);
    MaskStmt(r, mask, m);
    var x := And(m.regs[r], mask);
    var m1 := m.(regs := m.regs[r := x]);
    EvalRegFree(e, m, m1);
    PlusStmt(r, e, m1);
    UpdatedTwice(m, r, x, (x + Eval(e, m)) % WORD);
    ExecCons(s, [t], m);
    ExecOne(t, m1);
    assert [s] + [t] == [s, t];
  }

  lemma RegIsWord(m: Machine, r: Reg)
    requires RegsOk(m)
    ensures |m.regs| == REG_COUNT && 0 <= m.regs[r] < WORD
  {}

  lemma UpdatedTwice(m: Machine, r: Reg, x: int, y: int)
    requires |m.regs| == REG_COUNT
    ensures var m1 := m.(regs := m.regs[r := x]); m1.regs[r] == x && m1.(regs := m1.regs[r := y]) == m.(regs := m.regs[r := y])
  {
    assert m.regs[r := x][r := y] == m.regs[r := y];
  }

  /** The fields of a register that the high-byte operands see. */
  lemma HighField(x: nat, q: nat, h: nat, s: nat)
    requires x < WORD && q == x / 0x1_0000 && h == x / 0x100 % 0x100 && s == x % 0x100
    ensures x == q * 0x1_0000 + h * 0x100 + s && q < 0x1_0000_0000_0000 && h < 0x100 && s < 0x100
  {
    DivModUnique(x, 0x1_0000, x / 0x100 / 0x100, h * 0x100 + s);
  }

  lemma HighByte(x: nat, v: int)
    requires x < WORD
    ensures (And(x, 0xFFFF_FFFF_FFFF_00FF) + v * 0x100 % 0x1_0000) % WORD == PutReg(x, v, 1, true)
  {
    hide And;
    MaskHigh(x);
    var q, h, s, w := x / 0x1_0000, x / 0x100 % 0x100, x % 0x100, v % 0x100;
    HighField(x, q, h, s);
    DivModUnique(v * 0x100, 0x1_0000, v / 0x100, w * 0x100);
    ModSmall(q * 0x1_0000 + s + w * 0x100, WORD);
  }

  lemma HighStores(r: Reg, e: Expr, m: Machine)
    requires RegsOk(m) && RegFree(e)
    ensures Exec(Store(RegOp(r, true), e, 1), m) == Put(RegOp(r, true), Eval(e, m), 1, m)
  {
    hide And, RegFree, Exec, Pow;
    MaskPowers();
    var up := Cast(2, false, Bin(ShiftL, e, Lit(8)));
    assert RegFree(up) by { HighRegFree(e); }
    PartStores(r, 0xFFFF_FFFF_FFFF_00FF, up, m);
    assert Eval(Bin(ShiftL, e, Lit(8)), m) == Eval(e, m) * 0x100;
    assert Eval(up, m) == Eval(e, m) * 0x100 % 0x1_0000;
    HighByte(m.regs[r], Eval(e, m));
  }

  lemma HighRegFree(e: Expr)
    requires RegFree(e)
    ensures RegFree(Cast(2, false, Bin(ShiftL, e, Lit(8))))
  {
    assert RegFree(Bin(ShiftL, e, Lit(8)));
  }

  lemma LowStores(r: Reg, e: Expr, size: nat, m: Machine)
    requires RegsOk(m) && RegFree(e) && (size == 1 || size == 2)
    ensures Exec(Store(RegOp(r, false), e, size), m) == Put(RegOp(r, false), Eval(e, m), size, m)
  {
    hide And, RegFree, Exec;
    var x := m.regs[r];
    if size == 1 {
      MaskByte(x);
      PartStores(r, 0xFFFF_FFFF_FFFF_FF00, e, m);
    } else {
      MaskHalf(x);
      PartStores(r, 0xFFFF_FFFF_FFFF_0000, e, m);
    }
  }

  lemma WholeStores(r: Reg, e: Expr, size: nat, m: Machine)
    requires RegsOk(m) && (size == 4 || size == 8)
    ensures Exec(Store(RegOp(r, false), e, size), m) == Put(RegOp(r, false), Eval(e, m), size, m)
  {
    hide Exec, Pow;
    MaskPowers();
    var ss := Store(RegOp(r, false), e, size);
    assert ss == [ss[0]];
    ExecOne(ss[0], m);
    if size == 4 {
      var low := Eval(e, m) % 0x1_0000_0000;
      assert Eval(Cast(4, false, e), m) == low;
      ModSmall(low, WORD);
      assert Eval(Cast(8, false, Cast(4, false, e)), m) == low;
    }
  }

  /** emit_store stores the value of its expression to the operand. */
  lemma StorePuts(op: Operand, e: Expr, size: nat, m: Machine)
    requires !op.Imm? && SizeFits(op, size) && RegsOk(m) && (RegFree(e) || op.MemOp? || size == 4 || size == 8)
    ensures Exec(Store(op, e, size), m) == Put(op, Eval(e, m), size, m)
  {
    hide Exec, Store, Put, RegFree;
    if op.MemOp? {
      MemStores(op, e, size, m);
    } else if op.high {
      HighStores(op.r, e, m);
    } else if size == 1 || size == 2 {
      LowStores(op.r, e, size, m);
    } else {
      WholeStores(op.r, e, size, m);
    }
  }

  lemma MemStores(op: Operand, e: Expr, size: nat, m: Machine)
    requires op.MemOp? && |m.regs| == REG_COUNT
    ensures Exec(Store(op, e, size), m) == Put(op, Eval(e, m), size, m)
  {
    hide Exec;
    ExecOne(Poke(Addr(op), size, e), m);
  }

  // ----- memory

  /** None of the n addresses from a on is x. */
  predicate Misses(a: int, n: nat, x: int)
    decreases n
  {
    n == 0 || (a % WORD != x && Misses(a + 1, n - 1, x))
  }

  lemma {:induction false} StoreElsewhere(mem: map<int, int>, a: int, n: nat, v: int, x: int)
    requires Misses(a, n, x)
    ensures Peek(StoreBytes(mem, a, n, v), x) == Peek(mem, x)
    decreases n
  {
    if n != 0 { StoreElsewhere(mem[a % WORD := v % 256], a + 1, n - 1, v / 256, x); }
  }

  lemma {:induction false} MissesAhead(a: int, i: nat, n: nat)
    requires 1 <= i && i + n <= 9
    ensures Misses(a + i, n, a % WORD)
    decreases n
  {
    if n != 0 {
      Differ(a, i);
      MissesAhead(a, i + 1, n - 1);
    }
  }

  lemma Differ(a: int, i: int)
    requires 1 <= i <= 8
    ensures (a + i) % WORD != a % WORD
  {}

  lemma ByteSplit(v: int, p: int)
    requires 0 < p
    ensures v % 256 + 256 * (v / 256 % p) == v % (256 * p)
  {
    var q, r := v / 256 / p, v / 256 % p;
    assert q * (256 * p) == 256 * (q * p);
    assert v == q * (256 * p) + (256 * r + v % 256);
    DivModUnique(v, 256 * p, q, 256 * r + v % 256);
  }

  lemma PowStep256(n: nat)
    ensures 0 < Pow(256, n) && Pow(256, 0) == 1 && (n != 0 ==> Pow(256, n) == 256 * Pow(256, n - 1))
  {
    PowPos(256, n);
  }

  /** A load reads what was stored at its address. */
  lemma {:induction false} LoadStored(mem: map<int, int>, a: int, n: nat, v: int)
    requires 0 <= n <= 8
    ensures 0 < Pow(256, n) && LoadBytes(StoreBytes(mem, a, n, v), a, n) == v % Pow(256, n)
    decreases n
  {
    hide Pow, Misses, Peek, LoadBytes;
    PowStep256(n);
    var after := StoreBytes(mem, a, n, v);
    LoadStep(after, a, n);
    if n != 0 {
      var mem1 := mem[a % WORD := v % 256];
      LoadStored(mem1, a + 1, n - 1, v / 256);
      MissesAhead(a, 1, n - 1);
      StoreElsewhere(mem1, a + 1, n - 1, v / 256, a % WORD);
      Peeked(mem, a, v);
      ByteSplit(v, Pow(256, n - 1));
    }
  }

  lemma LoadStep(mem: map<int, int>, a: int, n: nat)
    ensures LoadBytes(mem, a, n) == if n == 0 then 0 else Peek(mem, a % WORD) + 256 * LoadBytes(mem, a + 1, n - 1)
  {}

  lemma Peeked(mem: map<int, int>, a: int, v: int)
    ensures Peek(mem[a % WORD := v % 256], a % WORD) == v % 256
  {}

  // ----- store, then fetch

  lemma PutRegRange(x: int, v: int, size: nat, high: bool)
    requires 0 <= x < WORD
    ensures 0 <= PutReg(x, v, size, high) < WORD
  {}

  lemma PutRegsOk(op: Operand, v: int, size: nat, m: Machine)
    requires !op.Imm? && RegsOk(m)
    ensures RegsOk(Put(op, v, size, m)) && Put(op, v, size, m).tmps == m.tmps
  {
    hide PutReg;
    if op.RegOp? { PutRegRange(m.regs[op.r], v, size, op.high); }
  }

  lemma HighPart(x: int, v: int)
    requires 0 <= x < WORD
    ensures PutReg(x, v, 1, true) / 0x100 % 0x100 == v % 0x100
  {
    var q, h, s, w := x / 0x1_0000, x / 0x100 % 0x100, x % 0x100, v % 0x100;
    HighField(x, q, h, s);
    DivModUnique(PutReg(x, v, 1, true), 0x100, q * 0x100 + w, s);
    DivModUnique(q * 0x100 + w, 0x100, q, w);
  }

  /** The part of a register that was stored to. */
  lemma PutRegPart(x: int, v: int, size: nat, high: bool)
    requires 0 <= x < WORD && Size(size) && (high ==> size == 1)
    ensures var y := PutReg(x, v, size, high);
            0 < Pow(256, size) && v % Pow(256, size) == if high then y / 0x100 % 0x100 else y % Pow(256, size)
  {
    hide Pow;
    MaskPowers();
    if high {
      HighPart(x, v);
    } else if size == 1 {
      LowPart(x / 0x100, v, 0x100, 0x100_0000_0000_0000);
    } else if size == 2 {
      LowPart(x / 0x1_0000, v, 0x1_0000, 0x1_0000_0000_0000);
    } else if size == 4 {
      ModSmall(v % 0x1_0000_0000, 0x1_0000_0000);
    } else {
      ModSmall(v % WORD, WORD);
    }
  }

  lemma LowPart(q: int, v: int, p: int, k: int)
    requires 0 < p && 0 < k
    ensures (q * p + v) % (k * p) % p == v % p && 0 < k * p
  {
    MulPos(k, p);
    var y := q * p + v;
    var z := y / (k * p);
    assert y % (k * p) == v + (q - z * k) * p by { assert z * (k * p) == z * k * p; }
    ModShift(v, q - z * k, p);
  }

  /** A fetch after a store to the same operand gives what was stored. */
  lemma StoredValue(op: Operand, v: int, size: nat, m: Machine)
    requires !op.Imm? && SizeFits(op, size) && RegsOk(m)
    ensures 0 < Pow(256, size) && OperandValue(op, size, Put(op, v, size, m)) == v % Pow(256, size)
  {
    hide Pow, PutReg, OperandValue;
    PowPos(256, size);
    if op.RegOp? {
      var y := PutReg(m.regs[op.r], v, size, op.high);
      PutRegRange(m.regs[op.r], v, size, op.high);
      PutRegPart(m.regs[op.r], v, size, op.high);
      RegisterFetched(op.r, op.high, size, Put(op, v, size, m), y);
    } else {
      MemoryStored(op, v, size, m);
    }
  }

  lemma MemoryStored(op: Operand, v: int, size: nat, m: Machine)
    requires op.MemOp? && Size(size) && RegsOk(m)
    ensures 0 < Pow(256, size) && OperandValue(op, size, Put(op, v, size, m)) == v % Pow(256, size)
  {
    hide Pow, StoreBytes, LoadBytes, Addr;
    var m' := Put(op, v, size, m);
    AddrClear(op, m, m', REG_COUNT);
    LoadStored(m.mem, Eval(Addr(op), m), size, v);
    ModSmall(v % Pow(256, size), Pow(256, size));
  }

  lemma PutWorld(op: Operand, v: int, size: nat, m: Machine, m': Machine)
    requires !op.Imm? && RegsOk(m) && m'.regs == m.regs && m'.mem == m.mem
    ensures var z, z' := Put(op, v, size, m), Put(op, v, size, m');
            z'.regs == z.regs && z'.mem == z.mem && z'.tmps == m'.tmps
  {
    hide Eval, Addr, StoreBytes;
    if op.MemOp? { AddrClear(op, m, m', REG_COUNT); }
  }

  /** Storing elsewhere leaves the flags alone. */
  lemma PutKeepsFlags(op: Operand, v: int, size: nat, m: Machine)
    requires !op.Imm? && Clear(op, EFL) && RegsOk(m)
    ensures Put(op, v, size, m).regs[EFL] == m.regs[EFL]
  {}

  // ----- running a text

  /** The machine m with another value in a temporary. */
  function Bind(m: Machine, id: nat, v: int): Machine {
    m.(tmps := m.tmps[id := v])
  }

  lemma BindTmp(z: Machine, id: nat, other: nat, v: int)
    requires id != other
    ensures TmpOf(Bind(z, id, v).tmps, id) == v && TmpOf(Bind(z, id, v).tmps, other) == TmpOf(z.tmps, other)
  {}

  lemma RunDeclare(c: Code, width: nat, signed: bool, e: Expr, m: Machine)
    requires Sound(c) && ReadsOnly(e, Scope(c))
    ensures var z := Exec(c.ss, m);
            Exec(Declare(c, width, signed, e).ss, m) == Bind(z, c.next, Convert(Eval(e, z), width, signed))
  {
    hide Exec, Eval, Convert, Sound, Scope, ReadsOnly;
    RunAdd1(c, Decl(c.next, width, signed, e), c.next + 1, m);
  }

  lemma RunFetch(c: Code, op: Operand, size: nat, m: Machine)
    requires Sound(c)
    ensures var z := Exec(c.ss, m); Exec(FetchInto(c, op, size, false).ss, m) == Bind(z, c.next, OperandValue(op, size, z))
  {
    hide Exec, Eval, Convert, Sound, Scope, ReadsOnly, Fetch, Declare;
    FetchReads(op, size, Scope(c));
    RunDeclare(c, size, false, Fetch(op, size), m);
  }

  lemma RunStore(c: Code, op: Operand, e: Expr, size: nat, m: Machine)
    requires Sound(c) && !op.Imm? && ReadsOnly(e, Scope(c)) && SizeFits(op, size) && RegsOk(m)
    requires RegFree(e) || op.MemOp? || size == 4 || size == 8
    ensures var z := Exec(c.ss, m); RegsOk(z) && Exec(StoreTo(c, op, e, size).ss, m) == Put(op, Eval(e, z), size, z)
  {
    hide Exec, Eval, Store, Sound, Scope, ReadsOnly, Put, RegFree;
    ExecRegsOk(c.ss, m);
    ExecAppend(c.ss, Store(op, e, size), m);
    StorePuts(op, e, size, Exec(c.ss, m));
  }

  lemma RunBlock(c: Code, skip: Expr, body: Code, m: Machine)
    requires Sound(c) && Sound(body) && ReadsOnly(skip, Scope(c)) && body.outer == Scope(c) && body.first == c.next
    ensures var z := Exec(c.ss, m); Exec(Block(c, skip, body).ss, m) == if Eval(skip, z) != 0 then z else Exec(body.ss, z)
  {
    hide Exec, Eval, Sound, Scope, ReadsOnly;
    RunAdd1(c, Unless(skip, body.ss), body.next, m);
  }
}
