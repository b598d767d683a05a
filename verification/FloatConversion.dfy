/** The integer-to-float conversions of compiler-rt: 128- and 64-bit to double and float, and 32-bit to float. */
module FloatConversion {
  import opened Arith
  import opened Bits
  import opened FloatRounding
  import opened ShiftDivision
  import opened SignedDivision
  import opened WideDivision
  import opened Words

  // ----- bit patterns

  /** The bits of the float nearest to the integer a: a sign bit, and a magnitude that is finite or infinity. */
  ghost predicate RoundsTo(bits: nat, a: int, M: nat, bias: nat, signBit: int)
    requires 1 <= M && 1 <= bias
  {
    var n := if a < 0 then bits - signBit else bits;
    && 0 <= n <= (2 * bias + 1) * Pow(2, M - 1) < signBit
    && Nearest(n, Mul(Abs(a), Pow(2, M - 1 + bias - 1)), M)
  }

  /** Two ways to convert an integer give the same bits if both round to nearest with ties to even. */
  lemma SameBits(x: nat, y: nat, a: int, M: nat, bias: nat, signBit: int)
    requires 1 <= M && 1 <= bias && RoundsTo(x, a, M, bias, signBit) && RoundsTo(y, a, M, bias, signBit)
    ensures x == y
  {
    hide Nearest, Pow;
    var s := if a < 0 then signBit else 0;
    NearestUnique(x - s, y - s, Mul(Abs(a), Pow(2, M - 1 + bias - 1)), M);
  }

  const SIGN32: int := 0x8000_0000
  const SIGN64: int := 0x8000_0000_0000_0000
  const IMPLICIT32: int := 0x80_0000
  const IMPLICIT64: int := 0x10_0000_0000_0000

  ghost predicate IsSingle(bits: nat, a: int) {
    RoundsTo(bits, a, 24, 127, SIGN32)
  }

  ghost predicate IsDouble(bits: nat, a: int) {
    RoundsTo(bits, a, 53, 1023, SIGN64)
  }

  lemma FieldPowers()
    ensures Pow(2, 20) == 0x10_0000 && Pow(2, 23) == IMPLICIT32 && Pow(2, 24) == 2 * IMPLICIT32
    ensures Pow(2, 31) == SIGN32 && Pow(2, 52) == IMPLICIT64 && Pow(2, 53) == 2 * IMPLICIT64
  {
    PowTwoValues();
    assert Pow(2, 4) == 16 && Pow(2, 5) == 32 && Pow(2, 7) == 128;
    PowAdd(2, 16, 4);
    PowAdd(2, 16, 7);
    assert Pow(2, 24) == 2 * Pow(2, 23) && Pow(2, 32) == 2 * Pow(2, 31);
    PowAdd(2, 32, 20);
    assert Pow(2, 53) == 2 * Pow(2, 52);
  }

  lemma ZeroRounds(M: nat, bias: nat, signBit: int)
    requires 1 <= M && 1 <= bias && (2 * bias + 1) * Pow(2, M - 1) < signBit
    ensures RoundsTo(0, 0, M, bias, signBit)
  {
    hide Nearest, InUnits;
    PowPos(2, M - 1);
    UnitsOfFields(0, 0, M);
    MulLe(0, 2 * bias + 1, Pow(2, M - 1));
    NearestExact(0, Mul(0, Pow(2, M - 1 + bias - 1)), M);
  }

  lemma ZeroIsZero()
    ensures IsSingle(0, 0) && IsDouble(0, 0)
  {
    hide Pow, RoundsTo;
    FieldPowers();
    ZeroRounds(24, 127, SIGN32);
    ZeroRounds(53, 1023, SIGN64);
  }

  /** Packing sign, exponent and fraction of a single. */
  method PackSingle(ghost a: int, s: int, e: int, m: nat) returns (bits: Half)
    requires a != 0 && s == Sign(a) && Converted(Abs(a), m, e, 24, 127)
    requires e <= 128 && (e == 128 ==> m == Pow(2, 23))
    ensures IsSingle(bits, a)
  {
    hide And, Or, Pow, Nearest, Shl, Mul;
    FieldPowers();
    ShlPow(1, 23);
    AndLowMask(1, 23, m - IMPLICIT32);
    ShlPow(e + 127, 23);
    OrDisjoint(e + 127, 23, m - IMPLICIT32);
    var n: nat := (e + 126) * IMPLICIT32 + m;
    OrSign(s, n);
    OrAssociative(Masked(SIGN32, s), (e + 127) * IMPLICIT32, m - IMPLICIT32);
    bits := Or(Or(Masked(SIGN32, s), ((e + 127) * IMPLICIT32) % H), And(m % H, IMPLICIT32 - 1));
  }

  lemma OrSign(s: int, n: nat)
    requires (s == 0 || s == -1) && n < SIGN32
    ensures Or(Masked(SIGN32, s), n) == Masked(SIGN32, s) + n
  {
    hide Or, Shl;
    FieldPowers();
    ShlPow(1, 31);
    ShlPow(0, 31);
    OrDisjoint(if s == -1 then 1 else 0, 31, n);
  }

  lemma {:induction false} OrAssociative(x: nat, y: nat, z: nat)
    ensures Or(Or(x, y), z) == Or(x, Or(y, z))
  {
    if x != 0 && y != 0 && z != 0 {
      OrAssociative(x / 2, y / 2, z / 2);
      OrHalves(x, y);
      OrHalves(y, z);
    }
  }

  lemma OrHalves(x: nat, y: nat)
    ensures Or(x, y) / 2 == Or(x / 2, y / 2) && Or(x, y) % 2 == if x % 2 + y % 2 == 0 then 0 else 1
    ensures x != 0 ==> Or(x, y) != 0
  {}

  /** Packing a double in two 32-bit halves. */
  method PackDouble(ghost a: int, s: int, e: int, m: nat) returns (bits: Word)
    requires a != 0 && s == Sign(a) && e <= 128 && Converted(Abs(a), m, e, 53, 1023)
    ensures IsDouble(bits, a)
  {
    hide And, Or, Pow, Nearest, Shl, Mul;
    FieldPowers();
    var f := m / H - 0x10_0000;
    ShlPow(1, 20);
    AndLowMask(1, 20, f);
    ShlPow(e + 1023, 20);
    OrDisjoint(e + 1023, 20, f);
    OrSign(s, (e + 1023) * 0x10_0000 + f);
    OrAssociative(Masked(SIGN32, s), (e + 1023) * 0x10_0000, f);
    var high := Or(Or(Masked(SIGN32, s), ((e + 1023) * 0x10_0000) % H), And(m / H % H, 0xF_FFFF));
    var low := m % H;
    bits := All(high, low);
  }

  // ----- 128- and 64-bit integers

  lemma Widths()
    ensures Pow(2, 128) == T && Pow(2, 64) == B
  {
    PowTwoValues();
  }

  /** __floatuntisf; the largest arguments round up to infinity. */
  method Floatuntisf(a: Tword) returns (bits: Half)
    ensures IsSingle(bits, a)
  {
    hide Pow, Converted, IsSingle;
    if a == 0 {
      ZeroIsZero();
      return 0;
    }
    Widths();
    var m, e := Convert(a, 128, 24, 127);
    bits := PackSingle(a, 0, e, m);
  }

  /** __floattisf. */
  method Floattisf(a: Stword) returns (bits: Half)
    ensures IsSingle(bits, a)
  {
    hide Pow, Converted, IsSingle, FlipSign;
    if a == 0 {
      ZeroIsZero();
      return 0;
    }
    Widths();
    var s := Sign(a);
    Magnitude(a, T);
    var m, e := Convert(FlipSign(a % T, s, T), 128, 24, 127);
    bits := PackSingle(a, s, e, m);
  }

  /** __floatuntidf. */
  method Floatuntidf(a: Tword) returns (bits: Word)
    ensures IsDouble(bits, a)
  {
    hide Pow, Converted, IsDouble;
    if a == 0 {
      ZeroIsZero();
      return 0;
    }
    Widths();
    var m, e := Convert(a, 128, 53, 1023);
    bits := PackDouble(a, 0, e, m);
  }

  /** __floattidf. */
  method Floattidf(a: Stword) returns (bits: Word)
    ensures IsDouble(bits, a)
  {
    hide Pow, Converted, IsDouble, FlipSign;
    if a == 0 {
      ZeroIsZero();
      return 0;
    }
    Widths();
    var s := Sign(a);
    Magnitude(a, T);
    var m, e := Convert(FlipSign(a % T, s, T), 128, 53, 1023);
    bits := PackDouble(a, s, e, m);
  }

  /** __floatundisf. */
  method Floatundisf(a: Word) returns (bits: Half)
    ensures IsSingle(bits, a)
  {
    hide Pow, Converted, IsSingle;
    if a == 0 {
      ZeroIsZero();
      return 0;
    }
    Widths();
    var m, e := Convert(a, 64, 24, 127);
    bits := PackSingle(a, 0, e, m);
  }

  /** __floatdisf. */
  method Floatdisf(a: Sdword) returns (bits: Half)
    ensures IsSingle(bits, a)
  {
    hide Pow, Converted, IsSingle, FlipSign;
    if a == 0 {
      ZeroIsZero();
      return 0;
    }
    Widths();
    var s := Sign(a);
    Magnitude(a, B);
    var m, e := Convert(FlipSign(a % B, s, B), 64, 24, 127);
    bits := PackSingle(a, s, e, m);
  }

  /** The single nearest to an unsigned 128-bit number is infinity exactly from 2^128 - 2^103 on. */
  lemma OverflowsToInfinity(a: Tword)
    ensures IsSingle(255 * IMPLICIT32, a) <==> a >= T - 0x80_0000_0000_0000_0000_0000_0000
  {
    hide Nearest, InUnits, Pow, Mul;
    var n0 := 255 * IMPLICIT32 - 1;
    FieldPowers();
    UnitsOfNormal(254, 2 * IMPLICIT32 - 1, 24);
    var K, A := Pow(2, 149), Mul(a, Pow(2, 149));
    TopBinade(a, K);
    if Mul(2 * IMPLICIT32 - 1, Pow(2, 253)) <= A {
      NearestOfTwo(n0, A, 24, a >= T - 0x80_0000_0000_0000_0000_0000_0000);
      if a < T - 0x80_0000_0000_0000_0000_0000_0000 && Nearest(n0 + 1, A, 24) { NearestUnique(n0, n0 + 1, A, 24); }
    } else {
      BelowTopBinade(n0, A);
    }
  }

  lemma BelowTopBinade(n: nat, A: int)
    requires A < InUnits(n, 24)
    ensures !Nearest(n + 1, A, 24)
  {
    hide InUnits;
    UnitsStep(n, 24);
  }

  /** The largest finite single is 2^128 - 2^104, and halfway from it to 2^128 lies 2^128 - 2^103. */
  lemma TopBinade(a: Tword, K: int)
    requires K == Pow(2, 149)
    ensures var top, gap := Mul(2 * IMPLICIT32 - 1, Pow(2, 253)), Pow(2, 253);
            && Mul(2 * IMPLICIT32, Pow(2, 253)) == top + gap
            && Mul(a, K) < top + gap
            && (a < T - 0x80_0000_0000_0000_0000_0000_0000 <==> 2 * Mul(a, K) < 2 * top + gap)
  {
    hide Pow;
    PowPos(2, 149);
    PowAdd(2, 104, 149);
    FieldPowers();
    assert Pow(2, 104) == 0x100_0000_0000_0000_0000_0000_0000 by {
      PowTwoValues();
      PowAdd(2, 64, 32);
      PowAdd(2, 96, 8);
    }
    var G := 0x100_0000_0000_0000_0000_0000_0000;
    assert (2 * IMPLICIT32 - 1) * (G * K) == ((2 * IMPLICIT32 - 1) * G) * K;
    MulLt(a, T, K);
    var h := T - G / 2;
    if a < h { MulLt(a, h, K); } else { MulLe(h, a, K); }
  }

  // ----- 32-bit integers: the round word

  lemma {:induction false} XorTop(k: nat, r: nat)
    requires r < Pow(2, k)
    ensures Xor(Shl(1, k) + r, Shl(1, k)) == r
  {
    if k != 0 {
      XorTop(k - 1, r / 2);
      XorEven(Shl(1, k - 1) + r / 2, r % 2, Shl(1, k - 1));
    } else {
      assert Xor(1, 1) == 2 * Xor(0, 0) + 0;
    }
  }

  lemma XorEven(x: nat, c: nat, y: nat)
    requires c < 2
    ensures Xor(2 * x + c, 2 * y) == 2 * Xor(x, y) + c
  {
    assert (2 * x + c) / 2 == x;
  }

  /** Removing the implicit bit. */
  lemma DropImplicit(m: nat)
    requires IMPLICIT32 <= m < 2 * IMPLICIT32
    ensures Xor(m, IMPLICIT32) == m - IMPLICIT32
  {
    hide Xor, Shl, Pow;
    FieldPowers();
    ShlPow(1, 23);
    XorTop(23, m - IMPLICIT32);
  }

  lemma CutByRoundWord(a: Half, t: nat)
    requires 1 <= t <= 31
    ensures 0 < Pow(2, t) && 0 < Pow(2, 32 - t)
    ensures var m, round := a / Pow(2, t), Mul(a, Pow(2, 32 - t)) % H;
            Cut(a, t, m, 4 * m + if round > SIGN32 then 3 else if round == SIGN32 then 2 else 0)
  {
    HalfPowers(t);
    Pieces(a, Pow(2, t), Pow(2, 32 - t));
    CompareHalf(a % Pow(2, t), Pow(2, t), Pow(2, 32 - t));
  }

  lemma CompareHalf(low: int, P: int, P': int)
    requires 1 <= P' && P * P' == H
    ensures Mul(low, P') > SIGN32 <==> 2 * low > P
    ensures Mul(low, P') == SIGN32 <==> 2 * low == P
  {
    assert (2 * low) * P' == 2 * (low * P');
    if 2 * low > P { MulLt(P, 2 * low, P'); }
    if 2 * low < P { MulLt(2 * low, P, P'); }
  }

  /** The magnitude of the float nearest to a > 0, with the rounding decided by one comparison of a word. */
  method RoundWord(a: Half) returns (result: Half)
    requires a != 0
    ensures result <= 255 * IMPLICIT32 && Nearest(result, Mul(a, Pow(2, 149)), 24)
  {
    hide Pow, BitLength, Xor, And, Nearest, Mul, Cut, Converted;
    PowTwoValues();
    FieldPowers();
    BitLengthHalf(a);
    BitLengthBounds(a);
    var sd := BitLength(a);
    var exponent := 31 - Clz(a);
    if exponent <= 23 {
      var shift := 23 - exponent;
      ExactConversion(a, sd, 24, 127);
      ConvertedMeans(a, Mul(a, Pow(2, shift)), exponent);
      DropImplicit(Mul(a, Pow(2, shift)));
      result := Xor(Mul(a, Pow(2, shift)) % H, IMPLICIT32);
    } else {
      var shift := exponent - 23;
      result := RoundShifted(a, shift);
    }
    result := (result + ((exponent + 127) * IMPLICIT32) % H) % H;
  }

  lemma ConvertedMeans(a: nat, m: int, e: int)
    requires Converted(a, m, e, 24, 127)
    ensures IMPLICIT32 <= m < 2 * IMPLICIT32 && 0 <= e
    ensures Nearest((e + 126) * IMPLICIT32 + m, Mul(a, Pow(2, 149)), 24)
  {
    hide Nearest;
    FieldPowers();
  }

  /** Comparing the word of dropped bits with its top bit decides the rounding. */
  lemma RoundWordDecides(a: Half, shift: nat)
    requires a != 0 && 1 <= shift <= 8 && BitLength(a) == shift + 24
    ensures 0 < Pow(2, shift) && 0 < Pow(2, 32 - shift)
    ensures var m, round := a / Pow(2, shift), Mul(a, Pow(2, 32 - shift)) % H;
            && IMPLICIT32 <= m < 2 * IMPLICIT32
            && Nearest((shift + 149) * IMPLICIT32 + m + if round > SIGN32 || (round == SIGN32 && m % 2 == 1) then 1 else 0,
                       Mul(a, Pow(2, 149)), 24)
  {
    hide Pow, BitLength, Nearest, Mul, Cut, Converted;
    FieldPowers();
    BitLengthBounds(a);
    SignificantBits(a, shift + 24, 24);
    CutByRoundWord(a, shift);
    var m, round := a / Pow(2, shift), Mul(a, Pow(2, 32 - shift)) % H;
    HalvesShrink(a, Pow(2, shift));
    var x := 4 * m + if round > SIGN32 then 3 else if round == SIGN32 then 2 else 0;
    CutBounds(a, shift + 24, 24, x);
    RoundedSignificand(a, shift, x);
  }

  lemma RoundedSignificand(a: nat, shift: nat, x: nat)
    requires 1 <= shift && Cut(a, shift, x / 4, x) && IMPLICIT32 <= x / 4 < 2 * IMPLICIT32
    ensures var m := x / 4 + if x % 4 == 3 || (x % 4 == 2 && x / 4 % 2 == 1) then 1 else 0;
            Nearest((shift + 149) * IMPLICIT32 + m, Mul(a, Pow(2, 149)), 24)
  {
    hide Pow, Nearest, Mul, Cut, Converted;
    FieldPowers();
    RoundedConversion(a, shift + 24, 24, 127, x);
    var m := x / 4 + if x % 4 == 3 || (x % 4 == 2 && x / 4 % 2 == 1) then 1 else 0;
    if m < Pow(2, 24) {
      ConvertedMeans(a, m, shift + 23);
    } else {
      ConvertedMeans(a, Pow(2, 23), shift + 24);
    }
  }

  /** The branch that drops bits; the rounded fraction may carry into the exponent field. */
  method RoundShifted(a: Half, shift: nat) returns (result: Half)
    requires a != 0 && 1 <= shift <= 8 && BitLength(a) == shift + 24
    ensures result <= IMPLICIT32
    ensures Nearest((shift + 150) * IMPLICIT32 + result, Mul(a, Pow(2, 149)), 24)
  {
    hide Pow, BitLength, Xor, And, Nearest, Mul;
    RoundWordDecides(a, shift);
    var round := Mul(a, Pow(2, 32 - shift)) % H;
    DropImplicit(a / Pow(2, shift));
    result := Xor(a / Pow(2, shift), IMPLICIT32);
    AndOne(result);
    if round > SIGN32 {
      result := (result + 1) % H;
    }
    if round == SIGN32 {
      result := (result + And(result, 1)) % H;
    }
  }

  lemma SingleSigned(bits: nat, n: nat, a: int)
    requires n <= 255 * IMPLICIT32 && Nearest(n, Mul(Abs(a), Pow(2, 149)), 24)
    requires bits == n + if a < 0 then SIGN32 else 0
    ensures IsSingle(bits, a)
  {
    hide Nearest;
    FieldPowers();
  }

  /** __floatunsisf: the same bits as the sticky-bit method gives. */
  method Floatunsisf(a: Half) returns (bits: Half)
    ensures IsSingle(bits, a)
  {
    hide IsSingle, Nearest, Pow;
    if a == 0 {
      ZeroIsZero();
      return 0;
    }
    bits := RoundWord(a);
    SingleSigned(bits, bits, a);
  }

  /** __floatsisf. */
  method Floatsisf(a: int) returns (bits: Half)
    requires -0x8000_0000 <= a < 0x8000_0000
    ensures IsSingle(bits, a)
  {
    hide IsSingle, Nearest, Pow, Or;
    if a == 0 {
      ZeroIsZero();
      return 0;
    }
    var s, u: Half := 0, a % H;
    if a < 0 {
      s := -1;
      u := (-a) % H;
    }
    var result := RoundWord(u);
    OrSign(s, result);
    OrCommutes(result, Masked(SIGN32, s));
    bits := Or(result, Masked(SIGN32, s));
    SingleSigned(bits, result, a);
  }

  /** On every 32-bit integer the round-word code and the sticky-bit code produce the same bits. */
  method ConvertSignedBothWays(a: int) returns (roundWord: Half, sticky: Half)
    requires -0x8000_0000 <= a < 0x8000_0000
    ensures roundWord == sticky && IsSingle(roundWord, a)
  {
    hide RoundsTo;
    roundWord := Floatsisf(a);
    sticky := Floatdisf(a);
    SameBits(roundWord, sticky, a, 24, 127, SIGN32);
  }

  method ConvertUnsignedBothWays(a: Half) returns (roundWord: Half, sticky: Half)
    ensures roundWord == sticky && IsSingle(roundWord, a)
  {
    hide RoundsTo;
    roundWord := Floatunsisf(a);
    sticky := Floatundisf(a);
    SameBits(roundWord, sticky, a, 24, 127, SIGN32);
  }
}
