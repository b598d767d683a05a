/** What parseltongue86's multiplications and divisions compute. */
module Products {
  import opened AluChain
  import opened AluFlags
  import opened Arith
  import opened Bits
  import opened CartridgeEmitter
  import opened CartridgeIR
  import opened Effects
  import opened Operands

  // ----- double words

  lemma DoubleWidth(size: nat)
    requires Size(size)
    ensures var W := Pow(256, size); Pow(256, size * 2) == W * W <= WIDE && 256 <= W <= WORD && Pow(2, size * 8) == W && W % 2 == 0
  {
    hide Pow;
    MaskPowers();
    PowTwoValues();
    PowAdd(256, size, size);
    PowMul(2, 8, size);
  }

  /** A word is the same number in twice its width. */
  lemma Widened(x: int, size: nat, signed: bool)
    requires Size(size) && 0 <= x < Pow(256, size)
    ensures Convert(x, size * 2, signed) == x
  {
    hide Pow;
    DoubleWidth(size);
    var W := Pow(256, size);
    MulLe(256, W, W);
    ModSmall(x, W * W);
  }

  lemma ViewMod(x: int, W: int, signed: bool)
    requires 0 < W && 0 <= x < W
    ensures View(x, W, signed) % W == x
  {
    ModSmall(x, W);
    if signed && 2 * x >= W { ModShift(x, -1, W); }
  }

  // ----- the product

  lemma ProductRange(x: int, y: int, W: int)
    requires 0 <= x < W && 0 <= y < W
    ensures 0 <= x * y < W * W && 0 <= x * y / W < W
  {
    MulBound(x, y, W - 1, W - 1);
    assert (W - 1) * (W - 1) == W * W - 2 * W + 1;
    var q, r := x * y / W, x * y % W;
    assert x * y == q * W + r;
    if q < 0 { MulLe(q, -1, W); }
    if q >= W { MulLe(W, q, W); }
  }

  /** The product of the factors, which were fetched without a sign. */
  lemma ProductExec(c: Code, signed: bool, f: Factors, size: nat, m: Machine)
    requires Sound(c) && Size(size) && RegsOk(m)
    ensures var z, z' := Exec(c.ss, m), Exec(ProductCode(c, signed, f, size).ss, m);
            var x, y, W := OperandValue(f.multiplicand, size, z), OperandValue(f.multiplier, size, z), Pow(256, size);
            && SameWorld(z, z') && 0 <= x < W && 0 <= y < W && 0 <= x * y < W * W
            && TmpOf(z'.tmps, c.next + 2) == View(x * y, W * W, signed)
  {
    hide Exec, Sound, Scope, Extends, OperandValue, FetchInto, Declare, Eval, Convert, Pow, View;
    var z := Exec(c.ss, m);
    var c1 := FetchInto(c, f.multiplicand, size, false);
    RunFetch(c, f.multiplicand, size, m);
    var c2 := FetchInto(c1, f.multiplier, size, false);
    RunFetch(c1, f.multiplier, size, m);
    ValueAgrees(f.multiplier, size, z, Exec(c1.ss, m));
    ValueRange(f.multiplicand, size, z);
    ValueRange(f.multiplier, size, z);
    var x, y, W := OperandValue(f.multiplicand, size, z), OperandValue(f.multiplier, size, z), Pow(256, size);
    var l, r := Cast(size * 2, signed, Tmp(c.next)), Cast(size * 2, signed, Tmp(c1.next));
    assert ReadsOnly(Tmp(c.next), Scope(c2)) && ReadsOnly(Tmp(c1.next), Scope(c2));
    assert ReadsOnly(l, Scope(c2)) && ReadsOnly(r, Scope(c2));
    BinReads(Times, l, r, Scope(c2));
    RunDeclare(c2, size * 2, signed, Bin(Times, l, r), m);
    TmpsOfTwo(z, c.next, x, y);
    TimesEval(c.next, c.next + 1, size, signed, Exec(c2.ss, m), x, y);
    ProductRange(x, y, W);
    DoubleWidth(size);
    ConvertViews(x * y, size * 2, signed);
    ModSmall(x * y, W * W);
  }

  lemma TimesEval(a: nat, b: nat, size: nat, signed: bool, m: Machine, x: int, y: int)
    requires Size(size) && TmpOf(m.tmps, a) == x && TmpOf(m.tmps, b) == y && 0 <= x < Pow(256, size) && 0 <= y < Pow(256, size)
    ensures Eval(Bin(Times, Cast(size * 2, signed, Tmp(a)), Cast(size * 2, signed, Tmp(b))), m) == x * y
  {
    hide Convert, TmpOf, Pow;
    Widened(x, size, signed);
    Widened(y, size, signed);
    assert Eval(Cast(size * 2, signed, Tmp(a)), m) == x && Eval(Cast(size * 2, signed, Tmp(b)), m) == y;
  }

  /** The low and the high half of a double word. */
  lemma Halves(p: int, W: int, signed: bool)
    requires 256 <= W && W % 2 == 0 && 0 <= p < W * W && 0 <= p / W < W
    ensures View(p, W * W, signed) % W == p % W && View(p, W * W, signed) / W % W == p / W
  {
    ModSmall(p / W, W);
    if View(p, W * W, signed) != p {
      assert p - W * W == p + -W * W;
      ModShift(p, -W, W);
      ModShift(p / W, -1, W);
    }
  }

  lemma HalvesEval(id: nat, p: int, size: nat, signed: bool, m: Machine)
    requires Size(size) && 0 <= p < Pow(256, size) * Pow(256, size) && 0 < Pow(256, size) && 0 <= p / Pow(256, size) < Pow(256, size)
    requires TmpOf(m.tmps, id) == View(p, Pow(256, size) * Pow(256, size), signed)
    ensures Convert(Eval(Cast(size, false, Tmp(id)), m), size, false) == p % Pow(256, size)
    ensures Convert(Eval(Cast(size, false, Bin(ShiftR, Tmp(id), Lit(size * 8))), m), size, false) == p / Pow(256, size)
  {
    hide Pow, TmpOf, View, Convert;
    DoubleWidth(size);
    var W := Pow(256, size);
    var v := TmpOf(m.tmps, id);
    Halves(p, W, signed);
    Converted(v, size);
    Converted(v % W, size);
    ModSmall(v % W, W);
    assert Eval(Cast(size, false, Tmp(id)), m) == v % W;
    assert Eval(Bin(ShiftR, Tmp(id), Lit(size * 8)), m) == v / W;
    Converted(v / W, size);
    Converted(v / W % W, size);
    ModSmall(v / W % W, W);
    assert Eval(Cast(size, false, Bin(ShiftR, Tmp(id), Lit(size * 8))), m) == v / W % W;
  }

  /** What the code of mul and imul leaves, but for the flags: the halves of the product of the factors without their signs. */
  ghost function Multiplied(f: Factors, size: nat, m: Machine): Machine
    requires !f.lo.Imm? && (f.hi.Some? ==> !f.hi.value.Imm?) && |m.regs| == REG_COUNT
  {
    PowPos(256, size);
    var p := OperandValue(f.multiplicand, size, m) * OperandValue(f.multiplier, size, m);
    var low := Put(f.lo, p % Pow(256, size), size, m);
    PutCount(f.lo, p % Pow(256, size), size, m);
    if f.hi.Some? then Put(f.hi.value, p / Pow(256, size), size, low) else low
  }

  lemma PutCount(op: Operand, v: int, size: nat, m: Machine)
    requires !op.Imm? && |m.regs| == REG_COUNT
    ensures |Put(op, v, size, m).regs| == REG_COUNT
  {}

  /** The machine after the halves have been stored, before the flags are set. */
  lemma HalvesExec(c: Code, signed: bool, ops: seq<Operand>, size: nat, m: Machine) returns (c4: Code)
    requires Sound(c) && OperandsOk(Multiply(signed, ops, size)) && RegsOk(m) && SizeFits(FactorsOf(signed, ops, size).lo, size)
    ensures var f := FactorsOf(signed, ops, size); var n := c.next;
            && Sound(c4) && ReadsOnly(ProductFlags(signed, n + 3, n + 4, size), Scope(c4))
            && MultiplyCode(c, signed, ops, size) == SetFlag(c4, CO, ProductFlags(signed, n + 3, n + 4, size), false)
    ensures RegsOk(Exec(c.ss, m)) && RegsOk(Exec(c4.ss, m))
    ensures var f := FactorsOf(signed, ops, size); var z, z4, W := Exec(c.ss, m), Exec(c4.ss, m), Pow(256, size);
            var p := OperandValue(f.multiplicand, size, z) * OperandValue(f.multiplier, size, z);
            && SameWorld(Multiplied(f, size, z), z4) && 0 < W && 0 <= p < W * W && 0 <= p / W < W
            && TmpOf(z4.tmps, c.next + 3) == p % W && TmpOf(z4.tmps, c.next + 4) == p / W
  {
    hide Exec, Sound, Scope, OperandValue, ProductCode, StoreTo, Declare, Eval, Convert, Pow, View, Put, TmpOf, SetFlag, ProductFlags;
    ExecRegsOk(c.ss, m);
    var f := FactorsOf(signed, ops, size);
    var z, W, n := Exec(c.ss, m), Pow(256, size), c.next;
    var c1 := ProductCode(c, signed, f, size);
    ProductExec(c, signed, f, size, m);
    var x, y := OperandValue(f.multiplicand, size, z), OperandValue(f.multiplier, size, z);
    var p := x * y;
    ProductRange(x, y, W);
    var z1 := Exec(c1.ss, m);
    HalvesEval(n + 2, p, size, signed, z1);
    assert ReadsOnly(Tmp(n + 2), Scope(c1));
    RunDeclare(c1, size, false, Cast(size, false, Tmp(n + 2)), m);
    var c2 := Declare(c1, size, false, Cast(size, false, Tmp(n + 2)));
    var z2 := Exec(c2.ss, m);
    BindTmp(z1, n + 3, n + 2, p % W);
    RunStore(c2, f.lo, Tmp(n + 3), size, m);
    TmpEval(n + 3, z2);
    var c3 := StoreTo(c2, f.lo, Tmp(n + 3), size);
    var z3 := Exec(c3.ss, m);
    PutWorld(f.lo, p % W, size, z, z2);
    PutRegsOk(f.lo, p % W, size, z2);
    HalvesEval(n + 2, p, size, signed, z3);
    BinReads(ShiftR, Tmp(n + 2), Lit(size * 8), Scope(c3));
    var e := Cast(size, false, Bin(ShiftR, Tmp(n + 2), Lit(size * 8)));
    RunDeclare(c3, size, false, e, m);
    c4 := Declare(c3, size, false, e);
    var z4 := Exec(c4.ss, m);
    BindTmp(z3, n + 4, n + 3, p / W);
    if f.hi.Some? {
      RunStore(c4, f.hi.value, Tmp(n + 4), size, m);
      TmpEval(n + 4, z4);
      var low := Put(f.lo, p % W, size, z);
      PutRegsOk(f.lo, p % W, size, z);
      PutWorld(f.hi.value, p / W, size, low, z4);
      c4 := StoreTo(c4, f.hi.value, Tmp(n + 4), size);
    }
    ProductFlagsRead(signed, n + 3, n + 4, size, Scope(c4));
    ExecRegsOk(c4.ss, m);
  }

  lemma TmpEval(id: nat, m: Machine)
    ensures Eval(Tmp(id), m) == TmpOf(m.tmps, id)
  {}

  // ----- the flags of a product

  /** The product does not fit the width of its factors, as _emit_mul sees it. */
  predicate Overflows(signed: bool, lo: int, hi: int, W: int) {
    if signed then Signed(hi, W) != (if Signed(lo, W) < 0 then -1 else 0) else hi != 0
  }

  lemma SignFilled(x: int, W: int)
    requires 2 <= W && W % 2 == 0 && -W <= 2 * x < W
    ensures x / (W / 2) == if x < 0 then -1 else 0
  {
    if x < 0 { DivModUnique(x, W / 2, -1, x + W / 2); } else { ModSmall(x, W / 2); }
  }

  lemma SignFillEval(id: nat, x: int, size: nat, m: Machine)
    requires Size(size) && TmpOf(m.tmps, id) == x && 0 <= x < Pow(256, size)
    ensures Eval(Cast(size, true, Tmp(id)), m) == Signed(x, Pow(256, size))
    ensures Eval(Bin(ShiftR, Cast(size, true, Tmp(id)), Lit(size * 8 - 1)), m) == if Signed(x, Pow(256, size)) < 0 then -1 else 0
  {
    hide Pow, TmpOf, Convert;
    DoubleWidth(size);
    Widths(size);
    var W := Pow(256, size);
    ConvertViews(x, size, true);
    ModSmall(x, W);
    assert Eval(Cast(size, true, Tmp(id)), m) == Signed(x, W);
    SignFilled(Signed(x, W), W);
  }

  lemma ProductFlagsValue(signed: bool, lo: nat, hi: nat, size: nat, m: Machine)
    requires Size(size) && 0 <= TmpOf(m.tmps, lo) < Pow(256, size) && 0 <= TmpOf(m.tmps, hi) < Pow(256, size)
    ensures Eval(ProductFlags(signed, lo, hi, size), m) ==
              if Overflows(signed, TmpOf(m.tmps, lo), TmpOf(m.tmps, hi), Pow(256, size)) then CO else 0
  {
    hide Pow, TmpOf, Convert, Signed;
    if signed {
      SignFillEval(lo, TmpOf(m.tmps, lo), size, m);
      SignFillEval(hi, TmpOf(m.tmps, hi), size, m);
      var l, h := Bin(ShiftR, Cast(size, true, Tmp(lo)), Lit(size * 8 - 1)), Cast(size, true, Tmp(hi));
      assert Eval(Bin(Eq, l, h), m) == Flag(Eval(l, m) == Eval(h, m));
    } else {
      assert Eval(Bin(Eq, Tmp(hi), Lit(0)), m) == Flag(TmpOf(m.tmps, hi) == 0);
    }
  }

  /** CF and OF are as given, and the other flags as they were. */
  ghost predicate CarryOverflow(efl: nat, efl': nat, on: bool) {
    && BitOf(efl', FLAG_CF) == Flag(on) && BitOf(efl', FLAG_OF) == Flag(on)
    && BitOf(efl', FLAG_ZF) == BitOf(efl, FLAG_ZF) && BitOf(efl', FLAG_SF) == BitOf(efl, FLAG_SF)
    && BitOf(efl', FLAG_PF) == BitOf(efl, FLAG_PF)
  }

  lemma CarryOverflowBits(x: nat, on: bool)
    requires x < WORD
    ensures var v := if on then CO else 0;
            And(x, CO) <= x && Or(x - And(x, CO), v) < WORD && CarryOverflow(x, Or(x - And(x, CO), v), on)
  {
    hide BitOf, And, Or, Pow;
    var v := if on then CO else 0;
    FlagBits(CO);
    FlagBits(v);
    MaskedBit(x, CO, v, FLAG_CF);
    MaskedBit(x, CO, v, FLAG_OF);
    MaskedBit(x, CO, v, FLAG_ZF);
    MaskedBit(x, CO, v, FLAG_SF);
    MaskedBit(x, CO, v, FLAG_PF);
    FlagPowers();
    OrBound(x - And(x, CO), v, 64);
  }

  /** The code of mul and imul stores the halves of the product of its factors without their signs, and sets CF and OF. */
  lemma MultiplyExec(c: Code, signed: bool, ops: seq<Operand>, size: nat, m: Machine)
    requires Sound(c) && OperandsOk(Multiply(signed, ops, size)) && RegsOk(m) && SizeFits(FactorsOf(signed, ops, size).lo, size)
    ensures RegsOk(Exec(c.ss, m))
    ensures var f := FactorsOf(signed, ops, size);
            var z, z', W := Exec(c.ss, m), Exec(MultiplyCode(c, signed, ops, size).ss, m), Pow(256, size);
            var p, s := OperandValue(f.multiplicand, size, z) * OperandValue(f.multiplier, size, z), Multiplied(f, size, z);
            && |s.regs| == |z'.regs| == REG_COUNT && RegsOk(z') && RegsOk(s) && 0 < W
            && z'.mem == s.mem && z'.regs == s.regs[EFL := z'.regs[EFL]]
            && CarryOverflow(s.regs[EFL], z'.regs[EFL], Overflows(signed, p % W, p / W, W))
  {
    hide Exec, Exec1, Sound, Scope, Extends, OperandValue, Multiplied, MultiplyCode, ProductFlags, CarryOverflow, Overflows, Pow, TmpOf;
    var c4 := HalvesExec(c, signed, ops, size, m);
    var z4, n := Exec(c4.ss, m), c.next;
    ProductFlagsValue(signed, n + 3, n + 4, size, z4);
    var value := ProductFlags(signed, n + 3, n + 4, size);
    RunAdd1(c4, FlagStmt(CO, value, false), c4.next, m);
    var on := Overflows(signed, TmpOf(z4.tmps, n + 3), TmpOf(z4.tmps, n + 4), Pow(256, size));
    CarryOverflowBits(z4.regs[EFL], on);
    FlagStmtExec(z4, CO, value, if on then CO else 0);
    ExecRegsOk(MultiplyCode(c, signed, ops, size).ss, m);
  }

  // ----- what the product is

  lemma AccumulatorHalves(z: Machine, lo: int, hi: int, size: nat)
    requires RegsOk(z) && Size(size) && 0 <= lo < Pow(256, size) && 0 <= hi < Pow(256, size)
    ensures RegsOk(Put(Whole(RAX), lo, size, z))
    ensures var s := Put(HighHalf(size), hi, size, Put(Whole(RAX), lo, size, z));
            RegsOk(s) && OperandValue(Whole(RAX), size, s) == lo && OperandValue(HighHalf(size), size, s) == hi
  {
    hide OperandValue, Put, Pow;
    var s1 := Put(Whole(RAX), lo, size, z);
    PutRegsOk(Whole(RAX), lo, size, z);
    PutRegsOk(HighHalf(size), hi, size, s1);
    StoredValue(Whole(RAX), lo, size, z);
    StoredValue(HighHalf(size), hi, size, s1);
    ModSmall(lo, Pow(256, size));
    ModSmall(hi, Pow(256, size));
    PutElsewhere(HighHalf(size), Whole(RAX), hi, size, s1);
  }

  /** mul: the accumulator and its high half together hold the exact product, and CF and OF tell whether the high half matters. */
  lemma MultiplyIsExact(c: Code, op: Operand, size: nat, m: Machine)
    requires Sound(c) && RegsOk(m) && Size(size)
    ensures RegsOk(Exec(c.ss, m))
    ensures var z, z', W := Exec(c.ss, m), Exec(MultiplyCode(c, false, [op], size).ss, m), Pow(256, size);
            var p := OperandValue(Whole(RAX), size, z) * OperandValue(op, size, z);
            && RegsOk(z') && OperandValue(HighHalf(size), size, z') * W + OperandValue(Whole(RAX), size, z') == p
            && CarryOverflow(z.regs[EFL], z'.regs[EFL], p >= W)
  {
    hide Exec, Sound, Scope, OperandValue, MultiplyCode, CarryOverflow, Put, Pow;
    var z, z', W := Exec(c.ss, m), Exec(MultiplyCode(c, false, [op], size).ss, m), Pow(256, size);
    MultiplyExec(c, false, [op], size, m);
    ValueRange(Whole(RAX), size, z);
    ValueRange(op, size, z);
    ProductRange(OperandValue(Whole(RAX), size, z), OperandValue(op, size, z), W);
    var p := OperandValue(Whole(RAX), size, z) * OperandValue(op, size, z);
    PutRegsOk(Whole(RAX), p % W, size, z);
    AccumulatorExact(z, z', p, size);
  }

  /** A double word in the accumulator and its high half. */
  lemma AccumulatorExact(z: Machine, z': Machine, p: int, size: nat)
    requires RegsOk(z) && RegsOk(z') && Size(size) && 0 < Pow(256, size) && 0 <= p && 0 <= p / Pow(256, size) < Pow(256, size)
    requires RegsOk(Put(Whole(RAX), p % Pow(256, size), size, z))
    requires var s := Put(HighHalf(size), p / Pow(256, size), size, Put(Whole(RAX), p % Pow(256, size), size, z));
             |s.regs| == REG_COUNT && z'.mem == s.mem && z'.regs == s.regs[EFL := z'.regs[EFL]]
    ensures var W := Pow(256, size);
            && OperandValue(HighHalf(size), size, z') == p / W && OperandValue(Whole(RAX), size, z') == p % W
            && p == p / W * W + p % W && (p / W != 0 <==> p >= W)
            && Put(HighHalf(size), p / W, size, Put(Whole(RAX), p % W, size, z)).regs[EFL] == z.regs[EFL]
  {
    hide OperandValue, Put, Pow;
    var W := Pow(256, size);
    AccumulatorHalves(z, p % W, p / W, size);
    var s := Put(HighHalf(size), p / W, size, Put(Whole(RAX), p % W, size, z));
    ValueClear(Whole(RAX), size, s, z', EFL);
    ValueClear(HighHalf(size), size, s, z', EFL);
    AccumulatorKeepsFlags(z, p % W, p / W, size);
    HighMatters(p, W);
  }

  lemma HighMatters(p: int, W: int)
    requires 0 < W && 0 <= p && 0 <= p / W
    ensures p / W != 0 <==> p >= W
  {
    if p < W { ModSmall(p, W); }
    if p / W == 0 { assert p == p % W; }
  }

  lemma AccumulatorKeepsFlags(z: Machine, lo: int, hi: int, size: nat)
    requires RegsOk(z)
    ensures RegsOk(Put(Whole(RAX), lo, size, z))
    ensures Put(HighHalf(size), hi, size, Put(Whole(RAX), lo, size, z)).regs[EFL] == z.regs[EFL]
  {
    hide PutReg;
    PutRegsOk(Whole(RAX), lo, size, z);
  }

  // ----- products with signs

  /** How far the product without signs is off, counted in the high half. */
  function Excess(x: int, y: int, W: int): int {
    (if 2 * x >= W then y else 0) + (if 2 * y >= W then x else 0)
  }

  lemma SignedProduct(x: int, y: int, W: int)
    requires 0 <= x < W && 0 <= y < W && 0 <= x * y / W < W
    ensures var s := Signed(x, W) * Signed(y, W);
            s % W == x * y % W && (s / W % W == x * y / W <==> Excess(x, y, W) % W == 0)
  {
    var p, q, k := x * y, x * y / W, Excess(x, y, W);
    var both := if 2 * x >= W && 2 * y >= W then W else 0;
    assert Signed(x, W) * Signed(y, W) == p + (both - k) * W by { Expanded(x, y, W); }
    ModShift(p, both - k, W);
    ModSmall(q, W);
    Wrapped(q, both, k, W);
  }

  lemma Expanded(x: int, y: int, W: int)
    ensures var both := if 2 * x >= W && 2 * y >= W then W else 0;
            Signed(x, W) * Signed(y, W) == x * y + (both - Excess(x, y, W)) * W
  {
    assert (x - W) * y == x * y - y * W;
    assert x * (y - W) == x * y - x * W;
    assert (x - W) * (y - W) == x * y + (W - (y + x)) * W;
  }

  lemma Wrapped(q: int, both: int, k: int, W: int)
    requires 0 <= q < W && (both == 0 || both == W)
    ensures (q + (both - k)) % W == q <==> k % W == 0
  {
    ModSmall(q, W);
    if both == W { ModShift(q - k, 1, W); }
    CongSub(q, q - k, W);
  }

  /** A factor is negative, and neither is zero. */
  predicate NegativeFactor(x: int, y: int, W: int) {
    (2 * x >= W || 2 * y >= W) && x != 0 && y != 0
  }

  /** The error vanishes exactly if no factor is negative, or one is zero, or both are the most negative number. */
  lemma ExcessVanishes(x: int, y: int, W: int)
    requires 0 <= x < W && 0 <= y < W
    ensures Excess(x, y, W) % W == 0 <==> !NegativeFactor(x, y, W) || (2 * x == W && 2 * y == W)
  {
    var e := Excess(x, y, W);
    if e < W { ModSmall(e, W); } else { DivModUnique(e, W, 1, e - W); }
  }

  /** CF and OF of _emit_mul with signs: set also for every negative factor, whether the product fits or not. */
  lemma SignedOverflows(x: int, y: int, W: int)
    requires 256 <= W && W % 2 == 0 && 0 <= x < W && 0 <= y < W && 0 <= x * y / W < W
    ensures Overflows(true, x * y % W, x * y / W, W) <==> !Fits(Signed(x, W) * Signed(y, W), W, true) || NegativeFactor(x, y, W)
  {
    var p := x * y;
    if x == 0 || y == 0 {
      assert p == 0 && Signed(x, W) * Signed(y, W) == 0;
      ModSmall(0, W);
    } else if NegativeFactor(x, y, W) {
      if 2 * x >= W { MulLe(1, y, x); } else { MulLe(1, x, y); }
      LargeProduct(x, y, W);
    } else {
      MulPos(x, y);
      HalfProduct(p, W);
      SmallHalf(x, y, W);
    }
  }

  lemma LargeProduct(x: int, y: int, W: int)
    requires 256 <= W && 0 <= x < W && 0 <= y < W && 2 * (x * y) >= W && 0 <= x * y / W < W
    ensures var p := x * y; p / W != W - 1 && (p / W == 0 ==> 2 * (p % W) >= W)
  {
    var p := x * y;
    MulBound(x, y, W - 1, W - 1);
    assert (W - 1) * (W - 1) == (W - 1) * W - (W - 1);
    assert p == p / W * W + p % W;
  }

  lemma HalfProduct(p: int, W: int)
    requires 0 < W && 0 <= p && 0 <= p / W
    ensures 2 * p < W <==> p / W == 0 && 2 * (p % W) < W
  {
    HighMatters(p, W);
    if p < W { ModSmall(p, W); }
  }

  lemma SmallHalf(x: int, y: int, W: int)
    requires 256 <= W && 0 <= 2 * x < W && 0 <= 2 * y < W && 0 <= x * y / W
    ensures 2 * (x * y / W) < W
  {
    MulBound(x, y, x, W);
    var q := x * y / W;
    assert x * y == q * W + x * y % W;
    assert (x + 1) * W == x * W + W;
    if x < q { MulLe(x + 1, q, W); }
  }

  /**
   imul with one operand.  The low half is always that of the product with signs.  The high half is right exactly if no
   factor is negative, or one is zero, or both are the most negative number.  CF and OF are right exactly if not (a factor is
   negative, neither is zero, and the product fits its word).
   */
  lemma SignedMultiplyExactly(c: Code, op: Operand, size: nat, m: Machine)
    requires Sound(c) && RegsOk(m) && Size(size)
    ensures RegsOk(Exec(c.ss, m)) && 0 < Pow(256, size)
    ensures var z, z', W := Exec(c.ss, m), Exec(MultiplyCode(c, true, [op], size).ss, m), Pow(256, size);
            var x, y := OperandValue(Whole(RAX), size, z), OperandValue(op, size, z);
            var s := Signed(x, W) * Signed(y, W);
            && RegsOk(z') && OperandValue(Whole(RAX), size, z') == s % W
            && (OperandValue(HighHalf(size), size, z') == s / W % W <==> !NegativeFactor(x, y, W) || (2 * x == W && 2 * y == W))
            && CarryOverflow(z.regs[EFL], z'.regs[EFL], !Fits(s, W, true) || NegativeFactor(x, y, W))
  {
    hide Exec, Sound, Scope, OperandValue, MultiplyCode, CarryOverflow, Put, Pow, Signed, Excess, Fits, NegativeFactor, Overflows;
    var z, z', W := Exec(c.ss, m), Exec(MultiplyCode(c, true, [op], size).ss, m), Pow(256, size);
    MultiplyExec(c, true, [op], size, m);
    var x, y := OperandValue(Whole(RAX), size, z), OperandValue(op, size, z);
    ValueRange(Whole(RAX), size, z);
    ValueRange(op, size, z);
    ProductRange(x, y, W);
    PutRegsOk(Whole(RAX), x * y % W, size, z);
    AccumulatorExact(z, z', x * y, size);
    SignedProduct(x, y, W);
    ExcessVanishes(x, y, W);
    DoubleWidth(size);
    SignedOverflows(x, y, W);
  }

  /** imul with two or three operands, which keeps the low half only, with the same CF and OF. */
  lemma SignedMultiplyLow(c: Code, ops: seq<Operand>, size: nat, m: Machine)
    requires Sound(c) && OperandsOk(Multiply(true, ops, size)) && RegsOk(m) && 2 <= |ops|
    requires var dest := ops[|ops| - 1]; SizeFits(dest, size) && Clear(dest, EFL)
    ensures RegsOk(Exec(c.ss, m)) && 0 < Pow(256, size)
    ensures var z, z', W := Exec(c.ss, m), Exec(MultiplyCode(c, true, ops, size).ss, m), Pow(256, size);
            var x, y := OperandValue(ops[1], size, z), OperandValue(ops[0], size, z);
            var s := Signed(x, W) * Signed(y, W);
            && RegsOk(z') && OperandValue(ops[|ops| - 1], size, z') == s % W
            && CarryOverflow(z.regs[EFL], z'.regs[EFL], !Fits(s, W, true) || NegativeFactor(x, y, W))
  {
    hide Exec, Sound, Scope, OperandValue, MultiplyCode, CarryOverflow, Put, Pow, Signed, Excess, Fits, NegativeFactor, Overflows;
    var z, z', W := Exec(c.ss, m), Exec(MultiplyCode(c, true, ops, size).ss, m), Pow(256, size);
    MultiplyExec(c, true, ops, size, m);
    var x, y, dest := OperandValue(ops[1], size, z), OperandValue(ops[0], size, z), ops[|ops| - 1];
    ValueRange(ops[1], size, z);
    ValueRange(ops[0], size, z);
    ProductRange(x, y, W);
    SignedProduct(x, y, W);
    DoubleWidth(size);
    SignedOverflows(x, y, W);
    StoredValue(dest, x * y % W, size, z);
    ModSmall(x * y % W, W);
    ValueClear(dest, size, Put(dest, x * y % W, size, z), z', EFL);
    PutKeepsFlags(dest, x * y % W, size, z);
  }

  /** The text of imul with -1 in al and an operand of 1: the high half is 0, and that of the product -1 is 0xFF; CF and OF are set. */
  lemma MinusOneTimesOne(c: Code, op: Operand, m: Machine)
    requires Sound(c) && RegsOk(m)
    requires OperandValue(Whole(RAX), 1, Exec(c.ss, m)) == 0xFF && OperandValue(op, 1, Exec(c.ss, m)) == 1
    ensures var z' := Exec(MultiplyCode(c, true, [op], 1).ss, m);
            && RegsOk(z') && OperandValue(HighHalf(1), 1, z') == 0 && Signed(0xFF, 0x100) * Signed(1, 0x100) / 0x100 % 0x100 == 0xFF
            && BitOf(z'.regs[EFL], FLAG_CF) == 1 && BitOf(z'.regs[EFL], FLAG_OF) == 1
  {
    hide Exec, Sound, OperandValue, MultiplyCode, Put, Pow, BitOf;
    MaskPowers();
    SignedMultiplyExactly(c, op, 1, m);
    var z := Exec(c.ss, m);
    MultiplyExec(c, true, [op], 1, m);
    PutRegsOk(Whole(RAX), 0xFF, 1, z);
    AccumulatorExact(z, Exec(MultiplyCode(c, true, [op], 1).ss, m), 0xFF, 1);
  }

  // ----- division

  /** The dividend is put together from its halves. */
  lemma DividendEval(hi: nat, lo: nat, h: int, l: int, size: nat, signed: bool, m: Machine)
    requires Size(size) && TmpOf(m.tmps, hi) == h && TmpOf(m.tmps, lo) == l && 0 <= h < Pow(256, size) && 0 <= l < Pow(256, size)
    ensures Eval(Bin(WideOr, Tmp(lo), Bin(ShiftL, Cast(size * 2, signed, Tmp(hi)), Lit(size * 8))), m) == h * Pow(256, size) + l
  {
    hide Convert, TmpOf, Pow, Or;
    var W := Pow(256, size);
    DoubleWidth(size);
    Widened(h, size, signed);
    assert Eval(Cast(size * 2, signed, Tmp(hi)), m) == h;
    assert Eval(Bin(ShiftL, Cast(size * 2, signed, Tmp(hi)), Lit(size * 8)), m) == h * W;
    JoinedWide(h, l, size);
  }

  lemma JoinedWide(h: int, l: int, size: nat)
    requires Size(size) && 0 <= h < Pow(256, size) && 0 <= l < Pow(256, size)
    ensures Or(l % WIDE, h * Pow(256, size) % WIDE) == h * Pow(256, size) + l
  {
    hide Pow, Or, Shl;
    var W := Pow(256, size);
    DoubleWidth(size);
    MulBound(h, W, W - 1, W);
    assert (W - 1) * W == W * W - W;
    ModSmall(h * W, WIDE);
    ModSmall(l, WIDE);
    ShlPow(h, size * 8);
    OrDisjoint(h, size * 8, l);
    OrCommutes(l, h * W);
  }

  lemma QuotientCases(a: int, d: int, q: int)
    requires d != 0 && q == Abs(a) / Abs(d)
    ensures Quotient(a, d) == if (a < 0) == (d < 0) then q else -q
  {}

  /** C's quotient and remainder. */
  lemma QuotientRemainder(a: int, d: int)
    requires d != 0
    ensures var r := a - d * Quotient(a, d); -Abs(d) < r < Abs(d) && (0 <= a ==> 0 <= r) && (0 <= a && 0 < d ==> 0 <= Quotient(a, d) <= a)
  {
    hide Quotient;
    var x, y := Abs(a), Abs(d);
    var q, r := x / y, x % y;
    QuotientCases(a, d, q);
    QuotientBound(x, y, q);
    RemainderSigns(x, y, q, r, a, d);
  }

  lemma RemainderSigns(x: int, y: int, q: int, r: int, a: int, d: int)
    requires x == Abs(a) && y == Abs(d) && x == y * q + r && 0 <= r
    ensures a - d * (if (a < 0) == (d < 0) then q else -q) == if a < 0 then -r else r
  {
    if d < 0 {
      assert d * q == -(y * q);
      assert d * -q == y * q;
    } else {
      assert d * -q == -(y * q);
    }
  }

  lemma QuotientBound(x: int, y: int, q: int)
    requires 0 <= x && 0 < y && q == x / y
    ensures 0 <= q <= x
  {
    if q < 0 { MulLe(q, -1, y); }
    if x < q { MulLe(1, y, q); }
  }

  function Abs(x: int): int {
    if x < 0 then -x else x
  }

  /** A number fits the word that it is stored in. */
  predicate Fits(x: int, W: int, signed: bool) {
    if signed then -W <= 2 * x < W else 0 <= x < W
  }

  lemma FitsViews(x: int, W: int, signed: bool)
    requires 0 < W && W % 2 == 0
    ensures View(x % W, W, signed) == x <==> Fits(x, W, signed)
  {
    if Fits(x, W, signed) {
      if x < 0 { DivModUnique(x, W, -1, x + W); } else { ModSmall(x, W); }
    }
  }

  /** What the halves of the accumulator and the divisor stand for. */
  ghost function DividendOf(signed: bool, size: nat, m: Machine): int {
    var W := Pow(256, size);
    View(OperandValue(HighHalf(size), size, m) * W + OperandValue(Whole(RAX), size, m), W * W, signed)
  }

  ghost function DivisorOf(signed: bool, divisor: Operand, size: nat, m: Machine): int {
    View(OperandValue(divisor, size, m), Pow(256, size), signed)
  }

  /** The quotient and the remainder are in their temporaries. */
  lemma DivisionExec(c: Code, signed: bool, divisor: Operand, size: nat, m: Machine) returns (c6: Code)
    requires Sound(c) && RegsOk(m) && Size(size)
    ensures Sound(c6) && {c.next + 4, c.next + 5} <= Scope(c6) && c6.next == c.next + 6
    ensures DivideCode(c, signed, divisor, size) ==
              StoreTo(StoreTo(c6, Whole(RAX), Tmp(c.next + 4), size), HighHalf(size), Tmp(c.next + 5), size)
    ensures var z, z6 := Exec(c.ss, m), Exec(c6.ss, m);
            var a, d, W := DividendOf(signed, size, z), DivisorOf(signed, divisor, size, z), Pow(256, size);
            && RegsOk(z) && SameWorld(z, z6) && 0 < W
            && TmpOf(z6.tmps, c.next + 4) == View(Quotient(a, d) % W, W, signed)
            && TmpOf(z6.tmps, c.next + 5) == View((a - d * Quotient(a, d)) % W, W, signed)
  {
    hide Exec, Sound, Scope, Extends, OperandValue, Declare, StoreTo, Eval, Convert, Pow, View, TmpOf, Quotient, Fetch;
    ExecRegsOk(c.ss, m);
    var z, W, n := Exec(c.ss, m), Pow(256, size), c.next;
    var c2 := DividendHalves(c, size, m);
    var c3 := DividendExec(c2, n, signed, size, m, z);
    FetchReads(divisor, size, Scope(c3));
    RunDeclare(c3, size, signed, Fetch(divisor, size), m);
    var c4 := FetchInto(c3, divisor, size, signed);
    var z3, z4 := Exec(c3.ss, m), Exec(c4.ss, m);
    var a, d := DividendOf(signed, size, z), DivisorOf(signed, divisor, size, z);
    DivisorFetched(divisor, size, signed, z, z3);
    BindTmp(z3, n + 3, n + 2, d);
    QuotientEval(n + 2, n + 3, a, d, z4);
    BinReads(Quot, Tmp(n + 2), Tmp(n + 3), Scope(c4));
    RunDeclare(c4, size, signed, Bin(Quot, Tmp(n + 2), Tmp(n + 3)), m);
    var c5 := Declare(c4, size, signed, Bin(Quot, Tmp(n + 2), Tmp(n + 3)));
    var z5 := Exec(c5.ss, m);
    ConvertViews(Quotient(a, d), size, signed);
    BindTmp(z4, n + 4, n + 2, Convert(Quotient(a, d), size, signed));
    BindTmp(z4, n + 4, n + 3, Convert(Quotient(a, d), size, signed));
    QuotientEval(n + 2, n + 3, a, d, z5);
    BinReads(Rem, Tmp(n + 2), Tmp(n + 3), Scope(c5));
    RunDeclare(c5, size, signed, Bin(Rem, Tmp(n + 2), Tmp(n + 3)), m);
    c6 := Declare(c5, size, signed, Bin(Rem, Tmp(n + 2), Tmp(n + 3)));
    var r := a - d * Quotient(a, d);
    ConvertViews(r, size, signed);
    BindTmp(z5, n + 5, n + 4, Convert(r, size, signed));
  }

  lemma QuotientEval(i: nat, j: nat, a: int, d: int, m: Machine)
    requires TmpOf(m.tmps, i) == a && TmpOf(m.tmps, j) == d
    ensures Eval(Bin(Quot, Tmp(i), Tmp(j)), m) == Quotient(a, d)
    ensures Eval(Bin(Rem, Tmp(i), Tmp(j)), m) == a - d * Quotient(a, d)
  {
    hide TmpOf, Quotient;
  }

  lemma DivisorFetched(op: Operand, size: nat, signed: bool, z: Machine, z3: Machine)
    requires SameWorld(z, z3) && Size(size)
    ensures Convert(Eval(Fetch(op, size), z3), size, signed) == DivisorOf(signed, op, size, z)
  {
    hide Eval, Fetch, Convert, View, Pow;
    ValueAgrees(op, size, z, z3);
    FetchViews(op, size, signed, z3);
  }

  /** The halves of the dividend are fetched. */
  lemma DividendHalves(c: Code, size: nat, m: Machine) returns (c2: Code)
    requires Sound(c) && RegsOk(m) && Size(size)
    ensures c2 == FetchInto(FetchInto(c, HighHalf(size), size, false), Whole(RAX), size, false)
    ensures Sound(c2) && {c.next, c.next + 1} <= Scope(c2) && c2.next == c.next + 2
    ensures var z, z2 := Exec(c.ss, m), Exec(c2.ss, m);
            && SameWorld(z, z2) && TmpOf(z2.tmps, c.next) == OperandValue(HighHalf(size), size, z)
            && TmpOf(z2.tmps, c.next + 1) == OperandValue(Whole(RAX), size, z)
  {
    hide Exec, Sound, Scope, Extends, OperandValue, FetchInto;
    var z := Exec(c.ss, m);
    RunFetch(c, HighHalf(size), size, m);
    var c1 := FetchInto(c, HighHalf(size), size, false);
    RunFetch(c1, Whole(RAX), size, m);
    c2 := FetchInto(c1, Whole(RAX), size, false);
    ValueAgrees(Whole(RAX), size, z, Exec(c1.ss, m));
    TmpsOfTwo(z, c.next, OperandValue(HighHalf(size), size, z), OperandValue(Whole(RAX), size, z));
  }

  /** The dividend is put together. */
  lemma DividendExec(c2: Code, n: nat, signed: bool, size: nat, m: Machine, z: Machine) returns (c3: Code)
    requires Sound(c2) && {n, n + 1} <= Scope(c2) && c2.next == n + 2 && Size(size) && SameWorld(z, Exec(c2.ss, m))
    requires var z2 := Exec(c2.ss, m);
             && TmpOf(z2.tmps, n) == OperandValue(HighHalf(size), size, z) && TmpOf(z2.tmps, n + 1) == OperandValue(Whole(RAX), size, z)
    ensures var high := Bin(ShiftL, Cast(size * 2, signed, Tmp(n)), Lit(size * 8));
            && ReadsOnly(Bin(WideOr, Tmp(n + 1), high), Scope(c2))
            && c3 == Declare(c2, size * 2, signed, Bin(WideOr, Tmp(n + 1), high))
    ensures Sound(c3) && c3.next == n + 3 && {n, n + 1, n + 2} <= Scope(c3) && SameWorld(z, Exec(c3.ss, m))
    ensures TmpOf(Exec(c3.ss, m).tmps, n + 2) == DividendOf(signed, size, z)
  {
    hide Exec, Sound, Scope, Extends, OperandValue, Declare, Eval, Convert, Pow, View, TmpOf;
    var h, l, W := OperandValue(HighHalf(size), size, z), OperandValue(Whole(RAX), size, z), Pow(256, size);
    ValueRange(HighHalf(size), size, z);
    ValueRange(Whole(RAX), size, z);
    var high := Bin(ShiftL, Cast(size * 2, signed, Tmp(n)), Lit(size * 8));
    assert ReadsOnly(Tmp(n), Scope(c2)) && ReadsOnly(Tmp(n + 1), Scope(c2));
    BinReads(ShiftL, Cast(size * 2, signed, Tmp(n)), Lit(size * 8), Scope(c2));
    BinReads(WideOr, Tmp(n + 1), high, Scope(c2));
    DividendEval(n, n + 1, h, l, size, signed, Exec(c2.ss, m));
    RunDeclare(c2, size * 2, signed, Bin(WideOr, Tmp(n + 1), high), m);
    c3 := Declare(c2, size * 2, signed, Bin(WideOr, Tmp(n + 1), high));
    ConvertViews(h * W + l, size * 2, signed);
    DoubleWidth(size);
    JoinedRange(h, l, W);
    ModSmall(h * W + l, W * W);
    BoundTmp(Exec(c2.ss, m), n + 2, Convert(h * W + l, size * 2, signed));
  }

  lemma JoinedRange(h: int, l: int, W: int)
    requires 0 <= h < W && 0 <= l < W
    ensures 0 <= h * W + l < W * W
  {
    MulBound(h, W, W - 1, W);
    assert (W - 1) * W == W * W - W;
  }

  lemma Cancel(q: int, q': int, d: int)
    requires d != 0
    ensures q * d == d * q' <==> q == q'
  {
    if q < q' { if d > 0 { MulLt(q, q', d); } else { MulLt(q, q', -d); } }
    if q' < q { if d > 0 { MulLt(q', q, d); } else { MulLt(q', q, -d); } }
  }

  lemma RemainderFits(a: int, d: int, r: int, W: int, signed: bool)
    requires 0 < W && d != 0 && -Abs(d) < r < Abs(d) && (0 <= a ==> 0 <= r) && Fits(d, W, signed) && (signed || 0 <= a)
    ensures Fits(r, W, signed)
  {}

  /** The halves of the accumulator after a division, read as numbers. */
  lemma DivideStored(z: Machine, z': Machine, q: int, r: int, size: nat, signed: bool)
    requires RegsOk(z) && Size(size) && 0 < Pow(256, size)
    requires RegsOk(Put(Whole(RAX), View(q % Pow(256, size), Pow(256, size), signed), size, z))
    requires var W := Pow(256, size);
             SameWorld(Put(HighHalf(size), View(r % W, W, signed), size, Put(Whole(RAX), View(q % W, W, signed), size, z)), z')
    ensures OperandValue(Whole(RAX), size, z') == q % Pow(256, size)
    ensures OperandValue(HighHalf(size), size, z') == r % Pow(256, size)
  {
    hide OperandValue, Put, Pow, View;
    var W := Pow(256, size);
    var x, y := View(q % W, W, signed), View(r % W, W, signed);
    ViewMod(q % W, W, signed);
    ViewMod(r % W, W, signed);
    var s1 := Put(Whole(RAX), x, size, z);
    var s2 := Put(HighHalf(size), y, size, s1);
    StoredValue(Whole(RAX), x, size, z);
    StoredValue(HighHalf(size), y, size, s1);
    PutElsewhere(HighHalf(size), Whole(RAX), y, size, s1);
    ValueAgrees(Whole(RAX), size, s2, z');
    ValueAgrees(HighHalf(size), size, s2, z');
  }

  lemma DivideExec(c: Code, signed: bool, divisor: Operand, size: nat, m: Machine)
    requires Sound(c) && RegsOk(m) && Size(size)
    ensures RegsOk(Exec(c.ss, m)) && 0 < Pow(256, size)
    ensures var z, z', W := Exec(c.ss, m), Exec(DivideCode(c, signed, divisor, size).ss, m), Pow(256, size);
            var a, d := DividendOf(signed, size, z), DivisorOf(signed, divisor, size, z);
            && OperandValue(Whole(RAX), size, z') == Quotient(a, d) % W
            && OperandValue(HighHalf(size), size, z') == (a - d * Quotient(a, d)) % W
  {
    hide Exec, Sound, Scope, Extends, OperandValue, DivideCode, StoreTo, Pow, View, TmpOf, Quotient, Put, DividendOf, DivisorOf;
    var c6 := DivisionExec(c, signed, divisor, size, m);
    var z, z6, W, n := Exec(c.ss, m), Exec(c6.ss, m), Pow(256, size), c.next;
    var a, d := DividendOf(signed, size, z), DivisorOf(signed, divisor, size, z);
    var x, y := TmpOf(z6.tmps, n + 4), TmpOf(z6.tmps, n + 5);
    RunStore(c6, Whole(RAX), Tmp(n + 4), size, m);
    TmpEval(n + 4, z6);
    var c7 := StoreTo(c6, Whole(RAX), Tmp(n + 4), size);
    var z7 := Exec(c7.ss, m);
    PutWorld(Whole(RAX), x, size, z, z6);
    PutRegsOk(Whole(RAX), x, size, z);
    RunStore(c7, HighHalf(size), Tmp(n + 5), size, m);
    TmpEval(n + 5, z7);
    PutWorld(HighHalf(size), y, size, Put(Whole(RAX), x, size, z), z7);
    DivideStored(z, Exec(DivideCode(c, signed, divisor, size).ss, m), Quotient(a, d), a - d * Quotient(a, d), size, signed);
  }

  /** The dividend is within the reach of the divisor: what makes the quotient fit its word. */
  predicate InReach(a: int, d: int, W: int, signed: bool) {
    if !signed then a < Mul(d, W)
    else if (a < 0) == (d < 0) then Abs(a) < Mul(Abs(d), W / 2) else Abs(a) < Mul(Abs(d), W / 2 + 1)
  }

  lemma QuotientBelow(x: int, y: int, k: int)
    requires 0 <= x && 0 < y
    ensures x / y < k <==> x < Mul(y, k)
  {
    var q, r := x / y, x % y;
    assert x == q * y + r;
    if q < k {
      MulLe(q + 1, k, y);
      assert (q + 1) * y == q * y + y;
    } else {
      MulLe(k, q, y);
    }
  }

  lemma InReachFits(a: int, d: int, W: int, signed: bool)
    requires 0 < W && W % 2 == 0 && d != 0 && (signed || (0 <= a && 0 < d))
    ensures Fits(Quotient(a, d), W, signed) <==> InReach(a, d, W, signed)
  {
    hide Quotient, Mul;
    var x, y := Abs(a), Abs(d);
    var q := x / y;
    QuotientCases(a, d, q);
    QuotientBound(x, y, q);
    QuotientBelow(x, y, W);
    QuotientBelow(x, y, W / 2);
    QuotientBelow(x, y, W / 2 + 1);
  }

  lemma HighBelow(h: int, l: int, d: int, W: int)
    requires 0 <= l < W
    ensures h * W + l < Mul(d, W) <==> h < d
  {
    if h < d {
      MulLe(h + 1, d, W);
      assert (h + 1) * W == h * W + W;
    } else {
      MulLe(d, h, W);
    }
  }

  /**
   div and idiv, by a divisor that is not zero: the remainder is C's, and quotient and remainder make up the dividend exactly
   if the dividend is within the reach of the divisor; for div, exactly if the high half is below the divisor.
   */
  lemma DivideExactly(c: Code, signed: bool, divisor: Operand, size: nat, m: Machine)
    requires Sound(c) && RegsOk(m) && Size(size) && DivisorOf(signed, divisor, size, Exec(c.ss, m)) != 0
    ensures 0 < Pow(256, size)
    ensures var z, z', W := Exec(c.ss, m), Exec(DivideCode(c, signed, divisor, size).ss, m), Pow(256, size);
            var a, d := DividendOf(signed, size, z), DivisorOf(signed, divisor, size, z);
            var q, r := View(OperandValue(Whole(RAX), size, z'), W, signed), View(OperandValue(HighHalf(size), size, z'), W, signed);
            && -Abs(d) < r < Abs(d) && (0 <= a ==> 0 <= r)
            && (a == q * d + r <==> InReach(a, d, W, signed))
            && (!signed ==> (InReach(a, d, W, signed) <==> OperandValue(HighHalf(size), size, z) < d))
  {
    hide Exec, Sound, Scope, OperandValue, DivideCode, Pow, View, Quotient, Fits, DividendOf, DivisorOf, Abs, InReach;
    DivideExec(c, signed, divisor, size, m);
    DoubleWidth(size);
    var z, z', W := Exec(c.ss, m), Exec(DivideCode(c, signed, divisor, size).ss, m), Pow(256, size);
    var a, d := DividendOf(signed, size, z), DivisorOf(signed, divisor, size, z);
    var q, r := Quotient(a, d), a - d * Quotient(a, d);
    QuotientRemainder(a, d);
    DivisionRanges(signed, divisor, size, z);
    RemainderFits(a, d, r, W, signed);
    FitsViews(q, W, signed);
    FitsViews(r, W, signed);
    Cancel(View(q % W, W, signed), q, d);
    DivisorPositive(signed, d, W);
    InReachFits(a, d, W, signed);
    if !signed { PlainReach(divisor, size, z); }
  }

  lemma DivisorPositive(signed: bool, d: int, W: int)
    requires Fits(d, W, signed) && d != 0
    ensures signed || 0 < d
  {}

  lemma PlainReach(divisor: Operand, size: nat, z: Machine)
    requires Size(size)
    ensures var a, d := DividendOf(false, size, z), DivisorOf(false, divisor, size, z);
            InReach(a, d, Pow(256, size), false) <==> OperandValue(HighHalf(size), size, z) < d
  {
    hide OperandValue, Pow, Mul;
    ValueRange(Whole(RAX), size, z);
    HighBelow(OperandValue(HighHalf(size), size, z), OperandValue(Whole(RAX), size, z), OperandValue(divisor, size, z), Pow(256, size));
  }

  /** div with 1 in the high half, 0 in the accumulator and a divisor of 1: quotient and remainder are both 0. */
  lemma DivideOverflows(c: Code, divisor: Operand, size: nat, m: Machine)
    requires Sound(c) && RegsOk(m) && Size(size)
    requires var z := Exec(c.ss, m);
             && OperandValue(HighHalf(size), size, z) == 1 && OperandValue(Whole(RAX), size, z) == 0
             && OperandValue(divisor, size, z) == 1
    ensures var z, z' := Exec(c.ss, m), Exec(DivideCode(c, false, divisor, size).ss, m);
            && DividendOf(false, size, z) == Pow(256, size) > 0 && DivisorOf(false, divisor, size, z) == 1
            && OperandValue(Whole(RAX), size, z') == 0 && OperandValue(HighHalf(size), size, z') == 0
  {
    hide Exec, Sound, OperandValue, DivideCode, Pow;
    DivideExec(c, false, divisor, size, m);
    ModOfMultiple(1, Pow(256, size));
    ModSmall(0, Pow(256, size));
  }

  lemma DivisionRanges(signed: bool, divisor: Operand, size: nat, z: Machine)
    requires Size(size)
    ensures Fits(DivisorOf(signed, divisor, size, z), Pow(256, size), signed) && (signed || 0 <= DividendOf(signed, size, z))
  {
    hide OperandValue, Pow;
    DoubleWidth(size);
    var W := Pow(256, size);
    ValueRange(divisor, size, z);
    ValueRange(HighHalf(size), size, z);
    ValueRange(Whole(RAX), size, z);
    JoinedRange(OperandValue(HighHalf(size), size, z), OperandValue(Whole(RAX), size, z), W);
  }

  // ----- sign extension, then division

  lemma FillConverted(x: int, size: nat)
    requires Size(size) && (x == -1 || x == 0)
    ensures Convert(x, size, true) == x
  {
    hide Pow;
    DoubleWidth(size);
    var W := Pow(256, size);
    if x == -1 { DivModUnique(-1, W, -1, W - 1); } else { ModSmall(0, W); }
  }

  lemma FillEval(id: nat, x: int, size: nat, m: Machine)
    requires Size(size) && TmpOf(m.tmps, id) == x && -Pow(256, size) <= 2 * x < Pow(256, size)
    ensures Eval(Bin(ShiftR, Tmp(id), Lit(size * 8 - 1)), m) == if x < 0 then -1 else 0
  {
    hide Pow, TmpOf;
    DoubleWidth(size);
    Widths(size);
    SignFilled(x, Pow(256, size));
  }

  /** The code of cwtd, cltd and cqto fills rdx with the sign of rax. */
  lemma SignFillExec(c: Code, size: nat, m: Machine)
    requires Sound(c) && RegsOk(m) && Size(size)
    ensures RegsOk(Exec(c.ss, m)) && 0 < Pow(256, size)
    ensures var z, z', W := Exec(c.ss, m), Exec(SignFillCode(c, Whole(RAX), Whole(RDX), size).ss, m), Pow(256, size);
            && SameBut(z, z', RDX) && z'.mem == z.mem
            && OperandValue(Whole(RDX), size, z') == if Signed(OperandValue(Whole(RAX), size, z), W) < 0 then W - 1 else 0
  {
    hide Exec, Sound, Scope, Extends, OperandValue, Declare, StoreTo, Eval, Convert, Pow, TmpOf, Fetch, PutReg, View, Signed;
    ExecRegsOk(c.ss, m);
    var z, W, n := Exec(c.ss, m), Pow(256, size), c.next;
    DoubleWidth(size);
    FetchReads(Whole(RAX), size, Scope(c));
    RunDeclare(c, size, true, Fetch(Whole(RAX), size), m);
    var c1 := FetchInto(c, Whole(RAX), size, true);
    var z1 := Exec(c1.ss, m);
    DivisorFetched(Whole(RAX), size, true, z, z);
    var x := DivisorOf(true, Whole(RAX), size, z);
    BoundTmp(z, n, x);
    SignedWord(Whole(RAX), size, z);
    FillEval(n, x, size, z1);
    var v := if x < 0 then -1 else 0;
    FillConverted(v, size);
    BinReads(ShiftR, Tmp(n), Lit(size * 8 - 1), Scope(c1));
    RunDeclare(c1, size, true, Bin(ShiftR, Tmp(n), Lit(size * 8 - 1)), m);
    var c2 := Declare(c1, size, true, Bin(ShiftR, Tmp(n), Lit(size * 8 - 1)));
    var z2 := Exec(c2.ss, m);
    BoundTmp(z1, n + 1, v);
    RunStore(c2, Whole(RDX), Tmp(n + 1), size, m);
    TmpEval(n + 1, z2);
    StoredValue(Whole(RDX), v, size, z2);
    if v == -1 { DivModUnique(-1, W, -1, W - 1); } else { ModSmall(0, W); }
  }

  lemma SignedWord(op: Operand, size: nat, z: Machine)
    requires Size(size)
    ensures var x, W := DivisorOf(true, op, size, z), Pow(256, size);
            x == Signed(OperandValue(op, size, z), W) && -W <= 2 * x < W
  {
    hide OperandValue, Pow;
    ValueRange(op, size, z);
  }

  /** The only quotient of words with signs that does not fit. */
  lemma QuotientFits(a: int, d: int, W: int)
    requires 0 < W && d != 0 && -W <= 2 * a < W && -W <= 2 * d < W
    ensures Fits(Quotient(a, d), W, true) <==> !(2 * a == -W && d == -1)
  {
    hide Quotient;
    var x, y := Abs(a), Abs(d);
    var q := x / y;
    QuotientCases(a, d, q);
    QuotientBound(x, y, q);
    assert x == y * q + x % y;
    if y == 1 { assert q == x; }
    if 2 <= y { MulLe(2, y, q); }
  }

  /**
   cltd and idiv (or their forms for 2 and 8 bytes): for every divisor that is not zero when idiv finds it, rax and rdx hold C's
   quotient and remainder of the numbers with signs, exactly if it is not the most negative number divided by -1.
   */
  lemma DivideAfterSignFill(c: Code, divisor: Operand, size: nat, m: Machine)
    requires Sound(c) && RegsOk(m) && Size(size) && size != 1
    requires DivisorOf(true, divisor, size, Exec(SignFillCode(c, Whole(RAX), Whole(RDX), size).ss, m)) != 0
    ensures 0 < Pow(256, size)
    ensures var z, W := Exec(c.ss, m), Pow(256, size);
            var z1 := Exec(SignFillCode(c, Whole(RAX), Whole(RDX), size).ss, m);
            var z' := Exec(DivideCode(SignFillCode(c, Whole(RAX), Whole(RDX), size), true, divisor, size).ss, m);
            var a, d := Signed(OperandValue(Whole(RAX), size, z), W), Signed(OperandValue(divisor, size, z1), W);
            var q, r := Signed(OperandValue(Whole(RAX), size, z'), W), Signed(OperandValue(Whole(RDX), size, z'), W);
            && -Abs(d) < r < Abs(d) && (0 <= a ==> 0 <= r)
            && (a == q * d + r <==> !(2 * a == -W && d == -1))
  {
    hide Exec, Sound, Scope, OperandValue, SignFillCode, DivideCode, Pow, Signed, Abs, Quotient, InReach, Fits;
    SignFillExec(c, size, m);
    DoubleWidth(size);
    var z, W := Exec(c.ss, m), Pow(256, size);
    var c1 := SignFillCode(c, Whole(RAX), Whole(RDX), size);
    var z1 := Exec(c1.ss, m);
    ValueClear(Whole(RAX), size, z, z1, RDX);
    SignedWord(divisor, size, z1);
    SignedWord(Whole(RAX), size, z);
    FilledDividend(size, z1);
    DivideExactly(c1, true, divisor, size, m);
    var a, d := Signed(OperandValue(Whole(RAX), size, z), W), Signed(OperandValue(divisor, size, z1), W);
    QuotientFits(a, d, W);
    InReachFits(a, d, W, true);
  }

  lemma FilledDividend(size: nat, m: Machine)
    requires Size(size) && size != 1
    requires OperandValue(Whole(RDX), size, m) ==
      if Signed(OperandValue(Whole(RAX), size, m), Pow(256, size)) < 0 then Pow(256, size) - 1 else 0
    ensures DividendOf(true, size, m) == Signed(OperandValue(Whole(RAX), size, m), Pow(256, size))
  {
    hide OperandValue, Pow;
    DoubleWidth(size);
    ValueRange(Whole(RAX), size, m);
    var l, W := OperandValue(Whole(RAX), size, m), Pow(256, size);
    assert (W - 1) * W == W * W - W;
    MulLe(256, W, W);
  }
}
