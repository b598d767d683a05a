/** The unsigned 128-bit divider __udivmodti4 of compiler-rt: a divisor of one word, or a shift-and-subtract loop. */
module WideDivision {
  import opened Arith
  import opened Bits
  import opened KnuthDivision
  import opened Words

  const T: int := 0x1_0000_0000_0000_0000_0000_0000_0000_0000
  const HALF_T: int := 0x8000_0000_0000_0000_0000_0000_0000_0000

  type Tword = x: int | 0 <= x < 0x1_0000_0000_0000_0000_0000_0000_0000_0000

  // ----- the branch-free comparison

  /** A w-bit word shifted right arithmetically by w - 1: all ones if the top bit is set. */
  function SignMask(x: int, half: int): int {
    if x >= half then -1 else 0
  }

  /** Masking with all ones keeps a word, masking with zero clears it. */
  function Masked(x: int, s: int): int {
    if s == -1 then x else 0
  }

  /**
   The sign of d - n - 1 is the comparison n >= d.  The subtraction wraps; the sign bit is right because n is below
   2 d and reaches the top bit whenever d does.
   */
  lemma MaskCompares(d: int, n: int, half: int)
    requires 0 <= n < 2 * half && 0 <= d < 2 * half && n < 2 * d && (d >= half ==> n >= half)
    ensures SignMask((d - n - 1) % (2 * half), half) == if n >= d then -1 else 0
  {
    if n >= d {
      DivModUnique(d - n - 1, 2 * half, -1, d - n - 1 + 2 * half);
    } else {
      ModSmall(d - n - 1, 2 * half);
    }
  }

  /** One step of shift-and-subtract division. */
  lemma SubtractStep(a: int, q: int, d: int, n: int)
    requires a == Mul(q, 2 * d) + n && 0 <= n < 2 * d
    ensures n >= d ==> a == Mul(2 * q + 1, d) + (n - d)
    ensures n < d ==> a == Mul(2 * q, d) + n
  {
    assert q * (2 * d) == 2 * (q * d) && (2 * q + 1) * d == 2 * (q * d) + d && (2 * q) * d == 2 * (q * d);
  }

  // ----- __udivmodti4

  /** Two half-word divisions make one: the high quotient leaves a remainder below the divisor. */
  lemma TwoSteps(h: int, l: int, d: int, qh: int, rh: int, ql: int, r: int)
    requires h == Mul(qh, d) + rh && Join(rh, l) == Mul(ql, d) + r
    ensures Join(h, l) == Mul(Join(qh, ql), d) + r
  {
    assert (qh * B + ql) * d == (qh * d) * B + ql * d;
  }

  /** The path for a divisor of one word. */
  method DivideByWord(a: Tword, d: Word) returns (q: Tword, rem: Tword)
    requires 0 < d
    ensures a == Mul(q, d) + rem && rem < d
  {
    hide Mul;
    var high: Word, low: Word := a / B, a % B;
    var qh: Word, ql: Word, r: Word := 0, 0, 0;
    DivModIdentity(high, d);
    if high < d {
      MulZero(d);
      ql, r := Udiv128By64To64(high, low, d);
      TwoSteps(high, low, d, 0, high, ql, r);
    } else {
      QuotientIsSmall(high, d);
      qh := high / d;
      ql, r := Udiv128By64To64(high % d, low, d);
      TwoSteps(high, low, d, qh, high % d, ql, r);
    }
    q, rem := Join(qh, ql), r;
  }

  lemma QuotientIsSmall(n: Word, d: Word)
    requires 0 < d
    ensures 0 <= n / d <= n
  {
    DivModIdentity(n, d);
    MulLe(1, d, n / d);
  }

  /** Aligning the top bits: the shifted divisor fits, exceeds half the dividend, and has bit 127 only if it has. */
  lemma AlignDivisor(a: Tword, b: Tword)
    requires B <= b <= a
    ensures 0 <= BitLength(a / B) - BitLength(b / B) <= 63
    ensures var d := Mul(b, Pow(2, BitLength(a / B) - BitLength(b / B)));
            0 < d < T && a < 2 * d && (d >= HALF_T ==> a >= HALF_T)
  {
    hide Pow, BitLength;
    var K, J := AlignPowers(a / B, b / B);
    AlignBounds(a, b, K, J, Pow(2, BitLength(a / B) - BitLength(b / B)));
  }

  lemma AlignPowers(x: Word, y: Word) returns (K: int, J: int)
    requires 0 < y <= x
    ensures 0 <= BitLength(x) - BitLength(y) <= 63
    ensures 0 < J <= y < 2 * J && K <= x < 2 * K && 0 < Pow(2, BitLength(x) - BitLength(y))
    ensures J * Pow(2, BitLength(x) - BitLength(y)) == K && (K == HALF_B || 2 * K <= HALF_B)
  {
    hide BitLength;
    PowTwoValues();
    BitLengthMono(y, x);
    BitLengthAtMost(x, 64);
    BitLengthBounds(x);
    BitLengthBounds(y);
    var k, j := BitLength(x), BitLength(y);
    K, J := Pow(2, k - 1), Pow(2, j - 1);
    PowAdd(2, j - 1, k - j);
    PowPos(2, k - j);
    PowPos(2, j - 1);
    assert Pow(2, 64) == 2 * Pow(2, 63);
    if k < 64 { PowMono(2, k, 63); }
  }

  lemma AlignBounds(a: int, b: int, K: int, J: int, P: int)
    requires J <= b / B < 2 * J && K <= a / B < 2 * K && J * P == K && 0 < P && 0 < J
    ensures K * B <= b * P < 2 * K * B && K * B <= a < 2 * K * B
  {
    MulLe(J * B, b, P);
    MulLt(b, 2 * J * B, P);
    assert J * B * P == (J * P) * B && 2 * J * B * P == 2 * (J * P) * B;
  }

  lemma QuotientFits(a: Tword, q: int, D: int, n: int)
    requires a == Mul(q, D) + n && 0 <= n && 0 <= q && 2 * B <= D
    ensures 2 * q < B
  {
    MulLe(2 * B, D, q);
    assert q * (2 * B) == (2 * q) * B;
    if B <= 2 * q { MulLe(B, 2 * q, B); }
  }

  /** The quotient bit enters the place that the shift freed. */
  lemma QuotientBit(q: Word, s: int)
    requires 2 * q < B && (s == 0 || s == -1)
    ensures Or(Wrap(2 * q), Masked(1, s)) == 2 * q + Masked(1, s)
  {
    OrDouble(q, 0, Masked(1, s));
  }

  lemma ShiftUp(b: Tword, k: nat)
    requires B <= b
    ensures Mul(b, Pow(2, k + 1)) == 2 * Mul(b, Pow(2, k)) && B <= Mul(b, Pow(2, k)) && Mul(b, Pow(2, 0)) == b
  {
    PowPos(2, k);
    MulLe(1, Pow(2, k), b);
    assert b * (2 * Pow(2, k)) == 2 * (b * Pow(2, k));
  }

  /** The shift-and-subtract loop for a divisor of two words. */
  method DivideByDouble(a: Tword, b: Tword) returns (q: Tword, rem: Tword)
    requires B <= b <= a
    ensures a == Mul(q, b) + rem && rem < b
  {
    hide Mul, Pow, BitLength, Or;
    AlignDivisor(a, b);
    var shift: int := (64 - BitLength(b / B)) - (64 - BitLength(a / B));
    var dividend: Tword, divisor: Tword := a, Mul(b, Pow(2, shift)) % T;
    var low: Word := 0;
    ghost var D := 2 * divisor;
    ShiftUp(b, shift);
    MulZero(D);
    while shift >= 0
      invariant -1 <= shift && dividend < D && a == Mul(low, D) + dividend
      invariant D == Mul(b, Pow(2, shift + 1)) && B <= D
      invariant shift >= 0 ==> D == 2 * divisor && B <= divisor && (divisor >= HALF_T ==> dividend >= HALF_T)
    {
      QuotientFits(a, low, D, dividend);
      MaskCompares(divisor, dividend, HALF_T);
      SubtractStep(a, low, divisor, dividend);
      ShiftUp(b, shift);
      var s := SignMask((divisor - dividend - 1) % T, HALF_T);
      QuotientBit(low, s);
      low := Or(Wrap(2 * low), Masked(1, s));
      dividend := dividend - Masked(divisor, s);
      D := divisor;
      if shift > 0 { ShiftUp(b, shift - 1); }
      divisor := divisor / 2;
      shift := shift - 1;
    }
    ShiftUp(b, 0);
    q, rem := Join(0, low), dividend;
  }

  /** __udivmodti4: quotient and remainder of 128-bit numbers. */
  method Udivmodti4(a: Tword, b: Tword) returns (q: Tword, rem: Tword)
    requires b != 0
    ensures a == Mul(q, b) + rem && rem < b
  {
    hide Mul;
    if b > a {
      MulZero(b);
      return 0, a;
    }
    if b / B == 0 {
      q, rem := DivideByWord(a, b % B);
    } else {
      q, rem := DivideByDouble(a, b);
    }
  }
}
