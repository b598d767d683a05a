/** The flags that parseltongue86's add, adc, sub, sbb and cmp code computes are the true carry, overflow, zero and sign. */
module AluFlags {
  import opened Arith
  import opened Bits
  import opened CartridgeEmitter
  import opened CartridgeIR

  // ----- bits of words

  function BitOf(x: nat, k: nat): nat {
    if k == 0 then x % 2 else BitOf(x / 2, k - 1)
  }

  lemma {:induction false} BitOfOr(x: nat, y: nat, k: nat)
    ensures BitOf(Or(x, y), k) == if BitOf(x, k) + BitOf(y, k) == 0 then 0 else 1
  {
    assert Or(x, y) / 2 == Or(x / 2, y / 2) && Or(x, y) % 2 == if x % 2 + y % 2 == 0 then 0 else 1;
    if k != 0 { BitOfOr(x / 2, y / 2, k - 1); }
  }

  lemma {:induction false} BitOfAnd(x: nat, y: nat, k: nat)
    ensures BitOf(And(x, y), k) == if BitOf(x, k) == 1 && BitOf(y, k) == 1 then 1 else 0
  {
    AndHalves(x, y);
    if k != 0 { BitOfAnd(x / 2, y / 2, k - 1); }
  }

  lemma AndHalves(x: nat, y: nat)
    ensures And(x, y) / 2 == And(x / 2, y / 2) && And(x, y) % 2 == if x % 2 == 1 && y % 2 == 1 then 1 else 0
  {
    if x != 0 && y != 0 {
      BitProduct(x % 2, y % 2);
      assert And(x, y) == 2 * And(x / 2, y / 2) + x % 2 * (y % 2);
    }
  }

  lemma BitProduct(a: nat, b: nat)
    requires a < 2 && b < 2
    ensures a * b == if a == 1 && b == 1 then 1 else 0
  {
    if a == 0 {
    } else {
      assert a == 1;
    }
  }

  lemma {:induction false} BitOfXor(x: nat, y: nat, k: nat)
    ensures BitOf(Xor(x, y), k) == (BitOf(x, k) + BitOf(y, k)) % 2
  {
    XorHalves(x, y);
    if k != 0 { BitOfXor(x / 2, y / 2, k - 1); }
  }

  lemma {:induction false} AndBelow(x: nat, y: nat)
    ensures And(x, y) <= x && And(x, y) <= y
  {
    if x != 0 && y != 0 { AndBelow(x / 2, y / 2); }
  }

  /** Clearing the bits of a mask. */
  lemma {:induction false} BitClear(x: nat, mask: nat, k: nat)
    ensures And(x, mask) <= x && BitOf(x - And(x, mask), k) == if BitOf(mask, k) == 1 then 0 else BitOf(x, k)
  {
    AndBelow(x, mask);
    AndBelow(x / 2, mask / 2);
    AndHalves(x, mask);
    assert (x - And(x, mask)) / 2 == x / 2 - And(x / 2, mask / 2);
    if k != 0 { BitClear(x / 2, mask / 2, k - 1); }
  }

  lemma {:induction false} BitIsZeroOne(x: nat, k: nat)
    ensures BitOf(x, k) <= 1
  {
    if k != 0 { BitIsZeroOne(x / 2, k - 1); }
  }

  /** The top bit of a word of k + 1 bits. */
  lemma {:induction false} TopBit(x: nat, k: nat)
    requires x < 2 * Pow(2, k)
    ensures 0 < Pow(2, k) && BitOf(x, k) == (if x >= Pow(2, k) then 1 else 0) && x / Pow(2, k) == BitOf(x, k)
  {
    PowPos(2, k);
    if k != 0 { TopBit(x / 2, k - 1); }
    if x >= Pow(2, k) {
      DivModUnique(x, Pow(2, k), 1, x - Pow(2, k));
    } else {
      ModSmall(x, Pow(2, k));
    }
  }

  lemma {:induction false} OrFreeBit(x: nat, k: nat)
    requires BitOf(x, k) == 0
    ensures 0 < Pow(2, k) && Or(x, Pow(2, k)) == x + Pow(2, k)
  {
    PowPos(2, k);
    if k != 0 {
      OrFreeBit(x / 2, k - 1);
      OrEven(x, Pow(2, k - 1));
    } else {
      OrOdd(x);
    }
  }

  lemma OrEven(x: nat, y: nat)
    ensures Or(x, 2 * y) == 2 * Or(x / 2, y) + x % 2
  {
    if x != 0 && y != 0 {
      assert 2 * y / 2 == y && 2 * y % 2 == 0;
      assert Or(x, 2 * y) == 2 * Or(x / 2, 2 * y / 2) + if x % 2 + 2 * y % 2 == 0 then 0 else 1;
    } else if x != 0 {
      assert Or(x, 0) == x && Or(x / 2, 0) == x / 2;
    }
  }

  lemma OrOdd(x: nat)
    requires x % 2 == 0
    ensures Or(x, 1) == x + 1
  {}

  lemma {:induction false} OrBound(x: nat, y: nat, k: nat)
    requires x < Pow(2, k) && y < Pow(2, k)
    ensures Or(x, y) < Pow(2, k)
  {
    if k != 0 {
      assert Or(x, y) / 2 == Or(x / 2, y / 2);
      OrBound(x / 2, y / 2, k - 1);
    }
  }

  // ----- what the flags should be

  /** The number that a word of modulus W stands for as a signed integer. */
  function Signed(x: int, W: int): int {
    if 2 * x < W then x else x - W
  }

  /** The exact result, before it is reduced to a word. */
  function Exact(sub: bool, a: int, b: int, c: int): int {
    if sub then a - b - c else a + b + c
  }

  ghost predicate CarryOut(sub: bool, a: int, b: int, c: int, W: int) {
    Exact(sub, a, b, c) < 0 || Exact(sub, a, b, c) >= W
  }

  ghost predicate SignedOverflow(sub: bool, a: int, b: int, c: int, W: int) {
    var x := Exact(sub, Signed(a, W), Signed(b, W), c);
    2 * x < -W || 2 * x >= W
  }

  /** Comparing the result with the first operand tells the carry. */
  lemma CarryByComparison(sub: bool, a: int, b: int, c: int, W: int)
    requires 0 <= a < W && 0 <= b < W && 0 <= c <= 1
    ensures var r := Exact(sub, a, b, c) % W;
            && (!sub && c == 0 ==> (CarryOut(sub, a, b, c, W) <==> r < a))
            && (!sub && c == 1 ==> (CarryOut(sub, a, b, c, W) <==> r <= a))
            && (sub && c == 0 ==> (CarryOut(sub, a, b, c, W) <==> r > a))
            && (sub && c == 1 ==> (CarryOut(sub, a, b, c, W) <==> r >= a))
  {
    Reduced(sub, a, b, c, W);
  }

  /** The reduced result differs from the exact one by the carry. */
  lemma Reduced(sub: bool, a: int, b: int, c: int, W: int)
    requires 0 <= a < W && 0 <= b < W && 0 <= c <= 1
    ensures var x := Exact(sub, a, b, c); var r := x % W;
            0 <= r < W && r == if !CarryOut(sub, a, b, c, W) then x else if sub then x + W else x - W
  {
    var x := Exact(sub, a, b, c);
    if x < 0 {
      DivModUnique(x, W, -1, x + W);
    } else if x >= W {
      DivModUnique(x, W, 1, x - W);
    } else {
      ModSmall(x, W);
    }
  }

  /** The sign bits of the operands and the result tell the overflow. */
  lemma OverflowBySigns(sub: bool, a: int, b: int, c: int, half: int)
    requires 0 <= a < 2 * half && 0 <= b < 2 * half && 0 <= c <= 1
    ensures var r := Exact(sub, a, b, c) % (2 * half);
            SignedOverflow(sub, a, b, c, 2 * half) <==>
              (r >= half) != (a >= half) && (if sub then (a >= half) != (b >= half) else (r >= half) != (b >= half))
  {
    Reduced(sub, a, b, c, 2 * half);
  }

  // ----- what the emitted code computes

  lemma {:induction false} BitDiv(x: nat, k: nat)
    ensures 0 < Pow(2, k) && BitOf(x, k) == x / Pow(2, k) % 2
  {
    PowPos(2, k);
    if k != 0 {
      BitDiv(x / 2, k - 1);
      DivideTwice(x, Pow(2, k - 1));
    }
  }

  lemma DivideTwice(x: nat, p: int)
    requires 0 < p
    ensures x / 2 / p == x / (2 * p)
  {
    var q, r := x / 2 / p, x / 2 % p;
    assert q * (2 * p) == 2 * (q * p);
    DivModUnique(x, 2 * p, q, 2 * r + x % 2);
  }

  lemma FlagPowers()
    ensures Pow(2, 0) == 1 && Pow(2, 2) == 4 && Pow(2, 6) == 64 && Pow(2, 7) == 128 && Pow(2, 11) == 2048
    ensures Pow(256, 2) == 0x1_0000 && Pow(2, 64) == WORD
  {
    PowTwoValues();
    assert Pow(2, 3) == 8;
    PowAdd(2, 3, 3);
    PowAdd(2, 8, 3);
    assert Pow(256, 1) == 256;
  }

  lemma FlagBits(v: nat)
    ensures BitOf(v, 0) == v % 2 && BitOf(v, 2) == v / 4 % 2 && BitOf(v, 6) == v / 64 % 2
    ensures BitOf(v, 7) == v / 128 % 2 && BitOf(v, 11) == v / 2048 % 2
  {
    FlagPowers();
    BitDiv(v, 0);
    BitDiv(v, 2);
    BitDiv(v, 6);
    BitDiv(v, 7);
    BitDiv(v, 11);
  }

  /** The widths of operands. */
  predicate Size(size: nat) {
    size == 1 || size == 2 || size == 4 || size == 8
  }

  lemma Widths(size: nat)
    requires Size(size)
    ensures Pow(256, size) == 2 * Pow(2, size * 8 - 1) <= WORD && 0 < Pow(2, size * 8 - 1)
    ensures Pow(2, size * 8 - 1) == 128 * Pow(2, size * 8 - 8) && 0 < Pow(2, size * 8 - 8)
  {
    FlagPowers();
    PowPos(2, size * 8 - 8);
    PowAdd(2, size * 8 - 8, 7);
    PowMul(2, 8, size);
    PowTwoValues();
    PowMono(2, size * 8, 64);
    assert Pow(2, size * 8) == 2 * Pow(2, size * 8 - 1);
  }

  lemma ExecCons(s: Stmt, rest: seq<Stmt>, m: Machine)
    ensures Exec([s] + rest, m) == Exec(rest, Exec1(s, m))
  {
    assert ([s] + rest)[1..] == rest;
  }

  lemma ExecOne(s: Stmt, m: Machine)
    ensures Exec([s], m) == Exec1(s, m)
  {
    assert [s][1..] == [];
    assert Exec([], Exec1(s, m)) == Exec1(s, m);
  }

  /** v |= bit << k for a bit that was clear. */
  lemma SetBit(m: Machine, efl: nat, e: Expr, v: nat, bit: nat, k: nat, p: nat)
    requires TmpOf(m.tmps, efl) == v && v + p < 0x1_0000 && bit <= 1 && p == Pow(2, k) && BitOf(v, k) == 0
    requires Eval(e, m) == bit * p
    ensures Exec1(OrInto(efl, 2, e), m) == m.(tmps := m.tmps[efl := v + bit * p])
  {
    hide Or, BitOf, Pow, Eval;
    FlagPowers();
    OrFreeBit(v, k);
    OrNothing(v);
    assert bit * p == if bit == 0 then 0 else p;
    ModSmall(v, WORD);
    ModSmall(bit * p, WORD);
    ModSmall(v + bit * p, 0x1_0000);
  }

  lemma OrNothing(v: nat)
    ensures Or(v, 0) == v
  {}

  /** The value of the overflow expression. */
  lemma OverflowValue(m: Machine, t: AddTemps, o: Operation, c: int)
    requires o.Add? && Loaded(m, t, o, c)
    ensures var a, b := TmpOf(m.tmps, t.aug), TmpOf(m.tmps, t.add);
            Eval(OverflowBit(t, o), m) == Flag(SignedOverflow(o.sub, a, b, c, Pow(256, o.size))) * 2048
  {
    hide And, Xor, Pow, BitOf, SignedOverflow, TmpOf, OverflowBit;
    Widths(o.size);
    FlagPowers();
    var k := o.size * 8 - 1;
    var half := Pow(2, k);
    var a, b, r := TmpOf(m.tmps, t.aug), TmpOf(m.tmps, t.add), TmpOf(m.tmps, t.res);
    OverflowBySigns(o.sub, a, b, c, half);
    Reduced(o.sub, a, b, c, 2 * half);
    var left := if o.sub then a else r;
    OverflowBits(r, a, left, b, k);
    ModSmall(r, WORD);
    ModSmall(a, WORD);
    ModSmall(b, WORD);
    OverflowEval(m, t, o, Xor(r, a), Xor(left, b));
  }

  lemma OverflowBits(r: nat, a: nat, left: nat, b: nat, k: nat)
    requires r < 2 * Pow(2, k) && a < 2 * Pow(2, k) && left < 2 * Pow(2, k) && b < 2 * Pow(2, k)
    ensures 0 < Pow(2, k) && Xor(r, a) < 2 * Pow(2, k) && Xor(left, b) < 2 * Pow(2, k)
    ensures var half := Pow(2, k);
            And(Xor(r, a), Xor(left, b)) / half ==
              if (r >= half) != (a >= half) && (left >= half) != (b >= half) then 1 else 0
  {
    hide And, Xor, Pow, BitOf;
    var x, y := Xor(r, a), Xor(left, b);
    PowStep(k);
    XorBound(r, a, k + 1);
    XorBound(left, b, k + 1);
    AndBelow(x, y);
    TopBit(r, k);
    TopBit(a, k);
    TopBit(left, k);
    TopBit(b, k);
    BitOfXor(r, a, k);
    BitOfXor(left, b, k);
    BitOfAnd(x, y, k);
    TopBit(And(x, y), k);
  }

  lemma PowStep(k: nat)
    ensures Pow(2, k + 1) == 2 * Pow(2, k)
  {}

  lemma XorEval(m: Machine, a: nat, b: nat)
    ensures Eval(Bin(BitXor, Tmp(a), Tmp(b)), m) == Xor(TmpOf(m.tmps, a) % WORD, TmpOf(m.tmps, b) % WORD)
  {}

  lemma OverflowEval(m: Machine, t: AddTemps, o: Operation, x: nat, y: nat)
    requires o.Add? && Size(o.size) && x < WORD && y < WORD
    requires x == Xor(TmpOf(m.tmps, t.res) % WORD, TmpOf(m.tmps, t.aug) % WORD)
    requires y == Xor(TmpOf(m.tmps, if o.sub then t.aug else t.res) % WORD, TmpOf(m.tmps, t.add) % WORD)
    ensures 0 < Pow(2, o.size * 8 - 1)
    ensures Eval(OverflowBit(t, o), m) == And(x, y) / Pow(2, o.size * 8 - 1) * 2048
  {
    hide And, Xor, Pow, TmpOf;
    Widths(o.size);
    FlagPowers();
    ModSmall(x, WORD);
    ModSmall(y, WORD);
    var l, r := Bin(BitXor, Tmp(t.res), Tmp(t.aug)), Bin(BitXor, Tmp(if o.sub then t.aug else t.res), Tmp(t.add));
    XorEval(m, t.res, t.aug);
    XorEval(m, if o.sub then t.aug else t.res, t.add);
    assert Eval(Bin(BitAnd, l, r), m) == And(x, y);
    var sh := Bin(ShiftR, Bin(BitAnd, l, r), Lit(o.size * 8 - 1));
    assert Eval(sh, m) == And(x, y) / Pow(2, o.size * 8 - 1);
  }

  /** The value of the sign expression. */
  lemma SignValue(m: Machine, res: nat, size: nat)
    requires Size(size) && 0 <= TmpOf(m.tmps, res) < Pow(256, size)
    ensures Eval(SignBit(res, size), m) == Flag(2 * TmpOf(m.tmps, res) >= Pow(256, size)) * 128
  {
    hide And, Pow, TmpOf;
    Widths(size);
    FlagPowers();
    var r := TmpOf(m.tmps, res);
    var p := Pow(2, size * 8 - 8);
    var y := r / p;
    QuotientByte(r, p);
    AndByteTop(y);
    ModSmall(y, WORD);
    assert Eval(Bin(ShiftR, Tmp(res), Lit(size * 8 - FLAG_SF - 1)), m) == y;
  }

  lemma QuotientByte(r: int, p: int)
    requires 0 < p && 0 <= r < 256 * p
    ensures 0 <= r / p < 256 && (r / p >= 128 <==> r >= 128 * p)
  {
    var q, s := r / p, r % p;
    if q < 0 { MulLe(q, -1, p); }
    if q >= 256 { MulLe(256, q, p); }
    if q >= 128 { MulLe(128, q, p); } else { MulLe(q, 127, p); }
  }

  lemma AndByteTop(y: nat)
    requires y < 256
    ensures And(y, 0x80) == if y >= 128 then 128 else 0
  {
    hide And, Shl, Pow;
    FlagPowers();
    ShlPow(1, 7);
    ShlPow(0, 7);
    AndBit(y / 128, 7, y % 128);
  }

  lemma ParityValue(m: Machine, res: nat) returns (p: nat)
    ensures p <= 1
    ensures Eval(ParityBit(res), m) == p * 4
  {
    hide And, Pow, Xor;
    FlagPowers();
    var inner := Bin(ShiftR, Lit(0x6996), Bin(BitAnd, Bin(BitXor, Bin(ShiftR, Tmp(res), Lit(4)), Tmp(res)), Lit(0xF)));
    var z := Eval(inner, m) % WORD;
    AndBelow(z, 1);
    p := And(z, 1);
    assert Eval(Bin(BitAnd, inner, Lit(1)), m) == p by { ModSmall(1, WORD); }
  }

  lemma ZeroValue(m: Machine, res: nat)
    ensures Eval(ZeroBit(res), m) == Flag(TmpOf(m.tmps, res) == 0) * 64
  {
    hide Pow;
    FlagPowers();
    assert Eval(Bin(Eq, Tmp(res), Lit(0)), m) == Flag(TmpOf(m.tmps, res) == 0);
  }

  /** The value of the carry expression. */
  lemma CarryValue(m: Machine, t: AddTemps, o: Operation, c: int)
    requires o.Add? && Loaded(m, t, o, c)
    ensures var a, b := TmpOf(m.tmps, t.aug), TmpOf(m.tmps, t.add);
            Eval(CarryBit(t, o), m) == Flag(CarryOut(o.sub, a, b, c, Pow(256, o.size)))
  {
    hide TmpOf, CarryOut, Pow;
    var a, b, r := TmpOf(m.tmps, t.aug), TmpOf(m.tmps, t.add), TmpOf(m.tmps, t.res);
    CarryByComparison(o.sub, a, b, c, Pow(256, o.size));
    var plain := Bin(if o.sub then Gt else Lt, Tmp(t.res), Tmp(t.aug));
    assert Eval(plain, m) == Flag(if o.sub then r > a else r < a);
  }

  /** m' is m, with another value in one temporary. */
  ghost predicate OnlyTmp(m: Machine, m': Machine, id: nat, v: int) {
    && m'.regs == m.regs && m'.mem == m.mem && TmpOf(m'.tmps, id) == v
    && forall k: nat :: k != id ==> TmpOf(m'.tmps, k) == TmpOf(m.tmps, k)
  }

  lemma SetBitOnly(m: Machine, m0: Machine, efl: nat, e: Expr, v: nat, bit: nat, k: nat, p: nat)
    requires OnlyTmp(m, m0, efl, v) && v + p < 0x1_0000 && bit <= 1 && p == Pow(2, k) && BitOf(v, k) == 0
    requires Eval(e, m0) == bit * p
    ensures OnlyTmp(m, Exec1(OrInto(efl, 2, e), m0), efl, v + bit * p)
  {
    hide Pow, BitOf, Eval;
    SetBit(m0, efl, e, v, bit, k, p);
  }

  /** The flags in a word of flags. */
  ghost predicate FlagsRight(efl: int, setCarry: bool, sub: bool, a: int, b: int, c: int, W: int)
    requires 0 < W
  {
    var r := Exact(sub, a, b, c) % W;
    && 0 <= efl < WORD
    && (BitOf(efl, FLAG_CF) == 1 <==> setCarry && CarryOut(sub, a, b, c, W))
    && (BitOf(efl, FLAG_OF) == 1 <==> SignedOverflow(sub, a, b, c, W))
    && (BitOf(efl, FLAG_ZF) == 1 <==> r == 0)
    && (BitOf(efl, FLAG_SF) == 1 <==> 2 * r >= W)
  }

  lemma FlagsFromBits(efl: int, setCarry: bool, sub: bool, a: int, b: int, c: int, W: int)
    requires 0 < W && 0 <= efl < WORD
    requires BitOf(efl, 0) == Flag(setCarry && CarryOut(sub, a, b, c, W))
    requires BitOf(efl, 11) == Flag(SignedOverflow(sub, a, b, c, W))
    requires BitOf(efl, 6) == Flag(Exact(sub, a, b, c) % W == 0)
    requires BitOf(efl, 7) == Flag(2 * (Exact(sub, a, b, c) % W) >= W)
    ensures FlagsRight(efl, setCarry, sub, a, b, c, W)
  {
    hide BitOf, CarryOut, SignedOverflow;
  }

  /** The operands, the carry in and the result are in their temporaries. */
  ghost predicate Loaded(m: Machine, t: AddTemps, o: Operation, c: int)
    requires o.Add?
  {
    var W := Pow(256, o.size);
    var a, b := TmpOf(m.tmps, t.aug), TmpOf(m.tmps, t.add);
    && Size(o.size) && 0 < W && 0 <= a < W && 0 <= b < W && 0 <= c <= 1
    && TmpOf(m.tmps, t.res) == Exact(o.sub, a, b, c) % W
    && (if o.carry then c == TmpOf(m.tmps, t.cf) else c == 0)
  }

  /** The flags have a temporary of their own. */
  predicate Distinct(t: AddTemps, carry: bool) {
    t.efl != t.aug && t.efl != t.add && t.efl != t.res && (carry ==> t.efl != t.cf)
  }

  lemma LoadedStill(m: Machine, m': Machine, t: AddTemps, o: Operation, c: int, v: int)
    requires o.Add? && Loaded(m, t, o, c) && OnlyTmp(m, m', t.efl, v) && Distinct(t, o.carry)
    ensures Loaded(m', t, o, c)
  {}

  /** Overflow and carry. */
  lemma FirstFlags(m: Machine, t: AddTemps, o: Operation, c: int) returns (v: nat, m2: Machine)
    requires o.Add? && Loaded(m, t, o, c) && TmpOf(m.tmps, t.efl) == 0 && Distinct(t, o.carry)
    ensures var W := Pow(256, o.size); var a, b := TmpOf(m.tmps, t.aug), TmpOf(m.tmps, t.add);
            && OnlyTmp(m, m2, t.efl, v)
            && v == Flag(SignedOverflow(o.sub, a, b, c, W)) * 2048 + Flag(o.setCarry && CarryOut(o.sub, a, b, c, W))
    ensures var m1 := Exec1(OrInto(t.efl, 2, OverflowBit(t, o)), m);
            m2 == if o.setCarry then Exec1(OrInto(t.efl, 2, CarryBit(t, o)), m1) else m1
  {
    hide Pow, BitOf, Eval, TmpOf, CarryOut, SignedOverflow, Exec1, OverflowBit, CarryBit;
    FlagPowers();
    var W := Pow(256, o.size);
    var a, b := TmpOf(m.tmps, t.aug), TmpOf(m.tmps, t.add);
    OverflowValue(m, t, o, c);
    FlagBits(0);
    SetBitOnly(m, m, t.efl, OverflowBit(t, o), 0, Flag(SignedOverflow(o.sub, a, b, c, W)), 11, 2048);
    m2 := Exec1(OrInto(t.efl, 2, OverflowBit(t, o)), m);
    v := Flag(SignedOverflow(o.sub, a, b, c, W)) * 2048;
    if o.setCarry {
      LoadedStill(m, m2, t, o, c, v);
      CarryValue(m2, t, o, c);
      FlagBits(v);
      SetBitOnly(m, m2, t.efl, CarryBit(t, o), v, Flag(CarryOut(o.sub, a, b, c, W)), 0, 1);
      m2 := Exec1(OrInto(t.efl, 2, CarryBit(t, o)), m2);
      v := v + Flag(CarryOut(o.sub, a, b, c, W));
    }
  }

  /** Parity, zero and sign. */
  lemma LastFlags(m: Machine, m2: Machine, efl: nat, res: nat, size: nat, v: nat, of: nat, cf: nat) returns (v': nat, p: nat, m5: Machine)
    requires OnlyTmp(m, m2, efl, v) && v == of * 2048 + cf && of <= 1 && cf <= 1 && efl != res
    requires Size(size) && 0 <= TmpOf(m.tmps, res) < Pow(256, size)
    ensures var r := TmpOf(m.tmps, res);
            && p <= 1 && OnlyTmp(m, m5, efl, v')
            && v' == FlagWord(of, cf, p, Flag(r == 0), Flag(2 * r >= Pow(256, size)))
    ensures m5 == Exec1(OrInto(efl, 2, SignBit(res, size)),
                        Exec1(OrInto(efl, 2, ZeroBit(res)), Exec1(OrInto(efl, 2, ParityBit(res)), m2)))
  {
    hide Pow, BitOf, Eval, TmpOf, Exec1, ParityBit, ZeroBit, SignBit;
    FlagPowers();
    var r := TmpOf(m.tmps, res);
    p := ParityValue(m2, res);
    FlagBits(v);
    SetBitOnly(m, m2, efl, ParityBit(res), v, p, 2, 4);
    var m3 := Exec1(OrInto(efl, 2, ParityBit(res)), m2);
    var v3 := v + p * 4;
    ZeroValue(m3, res);
    FlagBits(v3);
    SetBitOnly(m, m3, efl, ZeroBit(res), v3, Flag(r == 0), 6, 64);
    var m4 := Exec1(OrInto(efl, 2, ZeroBit(res)), m3);
    var v4 := v3 + Flag(r == 0) * 64;
    SignValue(m4, res, size);
    FlagBits(v4);
    SetBitOnly(m, m4, efl, SignBit(res, size), v4, Flag(2 * r >= Pow(256, size)), 7, 128);
    m5 := Exec1(OrInto(efl, 2, SignBit(res, size)), m4);
    v' := v4 + Flag(2 * r >= Pow(256, size)) * 128;
  }

  /** The machine after a text that was continued by a statement. */
  lemma RunAdd1(c: Code, s: Stmt, next: nat, m: Machine)
    ensures Exec(Add1(c, s, next).ss, m) == Exec1(s, Exec(c.ss, m))
  {
    hide Exec, Exec1;
    ExecAppend(c.ss, [s], m);
    ExecOne(s, Exec(c.ss, m));
  }

  lemma RunZps(c: Code, efl: nat, res: nat, size: nat, m: Machine)
    requires Sound(c) && efl in Scope(c) && res in Scope(c)
    ensures Exec(Zps(c, efl, res, size).ss, m) ==
              Exec1(OrInto(efl, 2, SignBit(res, size)),
                Exec1(OrInto(efl, 2, ZeroBit(res)), Exec1(OrInto(efl, 2, ParityBit(res)), Exec(c.ss, m))))
  {
    hide Exec, Exec1, ParityBit, ZeroBit, SignBit, Sound, Scope, Extends;
    ZpsReads(res, size, Scope(c));
    var n := c.next;
    var c1 := OrFlag(c, efl, ParityBit(res));
    var c2 := OrFlag(c1, efl, ZeroBit(res));
    RunAdd1(c, OrInto(efl, 2, ParityBit(res)), n, m);
    RunAdd1(c1, OrInto(efl, 2, ZeroBit(res)), n, m);
    RunAdd1(c2, OrInto(efl, 2, SignBit(res, size)), n, m);
  }

  /** The five flag bits together. */
  function FlagWord(of: nat, cf: nat, p: nat, zf: nat, sf: nat): nat {
    of * 2048 + cf + p * 4 + zf * 64 + sf * 128
  }

  lemma FlagWordBits(of: nat, cf: nat, p: nat, zf: nat, sf: nat)
    requires of <= 1 && cf <= 1 && p <= 1 && zf <= 1 && sf <= 1
    ensures var v := FlagWord(of, cf, p, zf, sf);
            v < 0x1_0000 && BitOf(v, 0) == cf && BitOf(v, 6) == zf && BitOf(v, 7) == sf && BitOf(v, 11) == of
  {
    hide BitOf;
    var v := FlagWord(of, cf, p, zf, sf);
    FlagBits(v);
    DivModUnique(v, 2048, of, cf + p * 4 + zf * 64 + sf * 128);
    DivModUnique(v, 128, 16 * of + sf, cf + p * 4 + zf * 64);
    DivModUnique(v, 64, 32 * of + 2 * sf + zf, cf + p * 4);
    DivModUnique(v, 2, of * 1024 + p * 2 + zf * 32 + sf * 64, cf);
    DivModUnique(16 * of + sf, 2, 8 * of, sf);
    DivModUnique(32 * of + 2 * sf + zf, 2, 16 * of + sf, zf);
  }

  /** A bit of the mask comes from the new flags, another one from either. */
  lemma MaskedBit(old_: nat, mask: nat, v: nat, k: nat)
    ensures And(old_, mask) <= old_
    ensures var b := BitOf(Or(old_ - And(old_, mask), v), k);
            b == if BitOf(mask, k) == 1 || BitOf(v, k) == 1 then BitOf(v, k) else BitOf(old_, k)
  {
    hide BitOf, And, Or;
    BitClear(old_, mask, k);
    BitOfOr(old_ - And(old_, mask), v, k);
    BitIsZeroOne(v, k);
    BitIsZeroOne(old_, k);
  }

  /** The word of flags after emit_set_flag. */
  lemma MergedFlags(old_: nat, v: nat)
    requires old_ < WORD && v < 0x1_0000
    ensures And(old_, COZPS) <= old_
    ensures var e := Or(old_ - And(old_, COZPS), v);
            && e < WORD && BitOf(e, 0) == BitOf(v, 0) && BitOf(e, 6) == BitOf(v, 6)
            && BitOf(e, 7) == BitOf(v, 7) && BitOf(e, 11) == BitOf(v, 11)
  {
    hide BitOf, And, Or, Pow;
    FlagBits(COZPS);
    MaskedBit(old_, COZPS, v, 0);
    MaskedBit(old_, COZPS, v, 6);
    MaskedBit(old_, COZPS, v, 7);
    MaskedBit(old_, COZPS, v, 11);
    FlagPowers();
    OrBound(old_ - And(old_, COZPS), v, 64);
  }

  /** The flag code sets the flags right and changes nothing else. */
  lemma AddFlagsExec(code: Code, m0: Machine, t: AddTemps, o: Operation, c: int)
    requires Sound(code) && o.Add? && InScope(t, o.carry, Scope(code))
    requires Loaded(Exec(code.ss, m0), t, o, c) && TmpOf(Exec(code.ss, m0).tmps, t.efl) == 0 && Distinct(t, o.carry)
    requires |Exec(code.ss, m0).regs| == REG_COUNT && 0 <= Exec(code.ss, m0).regs[EFL] < WORD
    ensures var m, m' := Exec(code.ss, m0), Exec(AddFlags(code, t, o).ss, m0);
            && m'.mem == m.mem && |m'.regs| == REG_COUNT && m'.regs == m.regs[EFL := m'.regs[EFL]]
            && FlagsRight(m'.regs[EFL], o.setCarry, o.sub, TmpOf(m.tmps, t.aug), TmpOf(m.tmps, t.add), c, Pow(256, o.size))
  {
    hide Pow, BitOf, TmpOf, CarryOut, SignedOverflow, Exec, Exec1, Zps, OverflowBit, CarryBit, FlagWord, And, Or, FlagsRight,
         Sound, Scope, AddFlags;
    var m := Exec(code.ss, m0);
    var W := Pow(256, o.size);
    var a, b, r := TmpOf(m.tmps, t.aug), TmpOf(m.tmps, t.add), TmpOf(m.tmps, t.res);
    Reduced(o.sub, a, b, c, W);
    var v, m2 := FirstFlags(m, t, o, c);
    var of, carry := Flag(SignedOverflow(o.sub, a, b, c, W)), Flag(o.setCarry && CarryOut(o.sub, a, b, c, W));
    var v', p, m5 := LastFlags(m, m2, t.efl, t.res, o.size, v, of, carry);
    FlagWordBits(of, carry, p, Flag(r == 0), Flag(2 * r >= W));
    MergedFlags(m.regs[EFL], v');
    RunAddFlags(code, m0, t, o, m2, m5);
    SetFlagsExec(m5, t.efl, o.clobber, v');
    var e := if o.clobber then v' else Or(m.regs[EFL] - And(m.regs[EFL], COZPS), v');
    FlagsFromBits(e, o.setCarry, o.sub, a, b, c, W);
  }

  lemma RunAddFlags(code: Code, m0: Machine, t: AddTemps, o: Operation, m2: Machine, m5: Machine)
    requires Sound(code) && o.Add? && InScope(t, o.carry, Scope(code))
    requires var m1 := Exec1(OrInto(t.efl, 2, OverflowBit(t, o)), Exec(code.ss, m0));
             m2 == if o.setCarry then Exec1(OrInto(t.efl, 2, CarryBit(t, o)), m1) else m1
    requires m5 == Exec1(OrInto(t.efl, 2, SignBit(t.res, o.size)),
                     Exec1(OrInto(t.efl, 2, ZeroBit(t.res)), Exec1(OrInto(t.efl, 2, ParityBit(t.res)), m2)))
    ensures Exec(AddFlags(code, t, o).ss, m0) == Exec1(FlagStmt(COZPS, Tmp(t.efl), o.clobber), m5)
  {
    hide Exec, Exec1, Zps, OverflowBit, CarryBit, ParityBit, ZeroBit, SignBit, FlagStmt, Sound, Scope;
    AddBitsRead(t, o, Scope(code));
    var n := code.next;
    var c1 := OrFlag(code, t.efl, OverflowBit(t, o));
    RunAdd1(code, OrInto(t.efl, 2, OverflowBit(t, o)), n, m0);
    var c2 := if o.setCarry then OrFlag(c1, t.efl, CarryBit(t, o)) else c1;
    RunAdd1(c1, OrInto(t.efl, 2, CarryBit(t, o)), n, m0);
    RunZps(c2, t.efl, t.res, o.size, m0);
    RunAdd1(Zps(c2, t.efl, t.res, o.size), FlagStmt(COZPS, Tmp(t.efl), o.clobber), n, m0);
  }

  lemma SetFlagsExec(m: Machine, efl: nat, clobber: bool, v: nat)
    requires |m.regs| == REG_COUNT && 0 <= m.regs[EFL] < WORD && TmpOf(m.tmps, efl) == v < 0x1_0000
    requires And(m.regs[EFL], COZPS) <= m.regs[EFL]
    requires Or(m.regs[EFL] - And(m.regs[EFL], COZPS), v) < WORD
    ensures Exec1(FlagStmt(COZPS, Tmp(efl), clobber), m) ==
              m.(regs := m.regs[EFL := if clobber then v else Or(m.regs[EFL] - And(m.regs[EFL], COZPS), v)])
  {
    hide And, Or, TmpOf;
    if clobber { ModSmall(v, WORD); } else { FlagStmtExec(m, COZPS, Tmp(efl), v); }
  }

  /** emit_set_flag keeps the flags outside the mask. */
  lemma FlagStmtExec(m: Machine, mask: nat, value: Expr, v: nat)
    requires |m.regs| == REG_COUNT && 0 <= m.regs[EFL] < WORD && mask < WORD && Eval(value, m) == v < WORD
    requires And(m.regs[EFL], mask) <= m.regs[EFL]
    requires Or(m.regs[EFL] - And(m.regs[EFL], mask), v) < WORD
    ensures Exec1(FlagStmt(mask, value, false), m) ==
              m.(regs := m.regs[EFL := Or(m.regs[EFL] - And(m.regs[EFL], mask), v)])
  {
    hide And, Or;
    var x := m.regs[EFL];
    var kept := x - And(x, mask);
    ModSmall(x, WORD);
    ModSmall(kept, WORD);
    ModSmall(v, WORD);
    ModSmall(Or(kept, v), WORD);
    KeptEval(m, mask, x);
    assert Eval(Bin(BitOr, Bin(AndNot, RegVal(EFL), Lit(mask)), value), m) == Or(kept, v);
  }

  lemma KeptEval(m: Machine, mask: nat, x: nat)
    requires |m.regs| == REG_COUNT && m.regs[EFL] == x < WORD && mask < WORD
    ensures Eval(Bin(AndNot, RegVal(EFL), Lit(mask)), m) == x - And(x, mask)
  {
    hide And;
    ModSmall(x, WORD);
    ModSmall(mask, WORD);
  }
}
