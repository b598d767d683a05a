/** The binary greatest common divisors of factor.c: one word (gcd_odd) and two words (gcd2_odd). */
module BinaryGcd {
  import opened Arith
  import opened NumberTheory
  import opened Words

  /** The pairs (a, b) and (x, y) have the same common divisors. */
  ghost predicate SameDivisors(a: int, b: int, x: int, y: int) {
    forall d {:trigger CommonDivisor(d, a, b)} {:trigger CommonDivisor(d, x, y)} ::
      CommonDivisor(d, a, b) <==> CommonDivisor(d, x, y)
  }

  lemma GcdOfEqual(a: int, x: int, y: int)
    requires 0 < a && SameDivisors(a, a, x, y)
    ensures IsGcd(a, x, y)
  {
    DividesIntro(a, 1);
    assert CommonDivisor(a, a, a);
  }

  lemma GcdOfZero(b: int, x: int, y: int)
    requires 0 < b && SameDivisors(0, b, x, y)
    ensures IsGcd(b, x, y)
  {
    DividesIntro(b, 0);
    DividesIntro(b, 1);
    assert CommonDivisor(b, 0, b);
  }

  lemma GcdTransfer(g: int, a: int, b: int, x: int, y: int)
    requires IsGcd(g, a, b) && SameDivisors(a, b, x, y)
    ensures IsGcd(g, x, y)
  {}

  lemma SameDivisorsRefl(a: int, b: int)
    ensures SameDivisors(a, b, a, b)
  {}

  lemma SameDivisorsSwap(a: int, b: int, x: int, y: int)
    requires SameDivisors(a, b, x, y)
    ensures SameDivisors(b, a, x, y)
  {
    forall d ensures CommonDivisor(d, b, a) <==> CommonDivisor(d, x, y) {
      assert CommonDivisor(d, a, b) <==> CommonDivisor(d, b, a);
    }
  }

  lemma OddFactors(j: int, d: int)
    ensures Mul(j, d) % 2 == 1 <==> j % 2 == 1 && d % 2 == 1
  {
    ModMul(j, d, 2);
    assert j % 2 * (d % 2) == (if j % 2 == 0 then 0 else d % 2);
  }

  /** An odd divisor of 2x divides x. */
  lemma HalfQuotient(k: int, d: int, x: int)
    requires d % 2 == 1 && Mul(k, d) == 2 * x
    ensures Mul(k / 2, d) == x
  {
    OddFactors(k, d);
    assert 2 * x == k / 2 * 2 * d == 2 * (k / 2 * d);
  }

  lemma HalvingKeepsDivisors(a: int, b: int, x: int, y: int)
    requires b % 2 == 1 && SameDivisors(2 * a, b, x, y)
    ensures SameDivisors(a, b, x, y)
  {
    hide Divides;
    forall d ensures CommonDivisor(d, a, b) <==> CommonDivisor(d, x, y) {
      if 0 < d && Divides(d, a) { DividesMul(d, a, 2); }
      if 0 < d && Divides(d, b) && Divides(d, 2 * a) {
        var j := DividesElim(d, b);
        var k := DividesElim(d, 2 * a);
        OddFactors(j, d);
        HalfQuotient(k, d, a);
        DividesIntro(d, k / 2);
      }
      assert CommonDivisor(d, 2 * a, b) <==> CommonDivisor(d, x, y);
    }
  }

  lemma SubtractionKeepsDivisors(a: int, b: int, x: int, y: int)
    requires SameDivisors(a, b, x, y)
    ensures SameDivisors(a - b, b, x, y)
  {
    forall d ensures CommonDivisor(d, a - b, b) <==> CommonDivisor(d, x, y) {
      if 0 < d && Divides(d, b) { DividesAdd(d, b, a); }
      assert CommonDivisor(d, a, b) <==> CommonDivisor(d, x, y);
    }
  }

  // ----- gcd_odd

  /** HIGHBIT_TO_MASK: all ones when the top bit of t is set. */
  function HighBitMask(t: Word): Word {
    if HALF_B <= t then B - 1 else 0
  }

  /** t & m and t ^ m for a mask m of all zeros or all ones. */
  function AndMask(t: Word, m: Word): Word {
    if m == 0 then 0 else t
  }

  function XorMask(t: Word, m: Word): Word {
    if m == 0 then t else B - 1 - t
  }

  /** The branch-free update turns halved odd numbers a, b into min(a, b) and |a - b|. */
  lemma BranchFreeMin(a: Word, b: Word)
    requires a < HALF_B && b < HALF_B
    ensures var t := Wrap(a - b); var m := HighBitMask(t);
            && (t == 0 <==> a == b)
            && Wrap(b + AndMask(t, m)) == (if a < b then a else b)
            && Wrap(XorMask(t, m) - m) == (if a < b then b - a else a - b)
  {}

  /** gcd of two words, the second or the first of them odd. */
  method GcdOdd(a0: Word, b0: Word) returns (g: Word)
    requires a0 % 2 == 1 || b0 % 2 == 1
    ensures IsGcd(g, a0, b0)
  {
    hide SameDivisors, IsGcd, Wrap, HighBitMask, AndMask, XorMask;
    var a: Word, b: Word := a0, b0;
    SameDivisorsRefl(a0, b0);
    if b % 2 == 0 {
      a, b := b, a;
      SameDivisorsSwap(b, a, a0, b0);
    }
    if a == 0 {
      GcdOfZero(b, a0, b0);
      return b;
    }
    ghost var odd := b;              // b is kept without its lowest bit from here on
    b := b / 2;
    while true
      invariant 0 < a && b < HALF_B && odd == 2 * b + 1
      invariant SameDivisors(a, odd, a0, b0)
      decreases a + odd
    {
      ghost var start := a;
      while a % 2 == 0
        invariant 0 < a <= start
        invariant SameDivisors(a, odd, a0, b0)
        decreases a
      {
        HalvingKeepsDivisors(a / 2, odd, a0, b0);
        a := a / 2;
      }
      ghost var A := a;
      a := a / 2;
      var t: Word := Wrap(a - b);
      BranchFreeMin(a, b);
      if t == 0 {
        assert A == odd;
        GcdOfEqual(A, a0, b0);
        WrapSmall(a * 2);
        return Wrap(a * 2) + 1;
      }
      var bgta := HighBitMask(t);
      if A < odd {
        SameDivisorsSwap(A, odd, a0, b0);
        SubtractionKeepsDivisors(odd, A, a0, b0);
        HalvingKeepsDivisors((odd - A) / 2, A, a0, b0);
        odd := A;
      } else {
        SubtractionKeepsDivisors(A, odd, a0, b0);
        HalvingKeepsDivisors((A - odd) / 2, odd, a0, b0);
      }
      b := Wrap(b + AndMask(t, bgta));
      a := Wrap(XorMask(t, bgta) - bgta);
    }
  }

  // ----- gcd2_odd

  /** Drops the trailing zeros of a non-zero word pair, keeping its common divisors with an odd number. */
  method ShiftOdd(a1: Word, a0: Word, ghost b: int, ghost x: int, ghost y: int) returns (r1: Word, r0: Word)
    requires 0 < Join(a1, a0) && b % 2 == 1 && SameDivisors(Join(a1, a0), b, x, y)
    ensures 0 < Join(r1, r0) <= Join(a1, a0) && r0 % 2 == 1 && SameDivisors(Join(r1, r0), b, x, y)
  {
    hide SameDivisors, Join;
    r1, r0 := a1, a0;
    while r0 % 2 == 0
      invariant 0 < Join(r1, r0) <= Join(a1, a0)
      invariant SameDivisors(Join(r1, r0), b, x, y)
      decreases Join(r1, r0)
    {
      JoinParity(r1, r0);
      HalvingKeepsDivisors(Join(r1, r0) / 2, b, x, y);
      r1, r0 := Rsh2(r1, r0);
    }
  }

  /** gcd of two word pairs, the second of them odd. */
  method Gcd2Odd(x1: Word, x0: Word, y1: Word, y0: Word) returns (r1: Word, r0: Word)
    requires y0 % 2 == 1
    ensures IsGcd(Join(r1, r0), Join(x1, x0), Join(y1, y0))
  {
    hide SameDivisors, IsGcd, Join;
    JoinParity(x1, x0);
    JoinParity(y1, y0);
    ghost var X, Y := Join(x1, x0), Join(y1, y0);
    SameDivisorsRefl(X, Y);
    if x0 == 0 && x1 == 0 {
      GcdOfZero(Y, X, Y);
      return y1, y0;
    }
    var b1, b0 := y1, y0;
    var a1, a0 := ShiftOdd(x1, x0, Y, X, Y);
    while true
      invariant a0 % 2 == 1 && b0 % 2 == 1
      invariant SameDivisors(Join(a1, a0), Join(b1, b0), X, Y)
      decreases Join(a1, a0) + Join(b1, b0)
    {
      JoinParity(a1, a0);
      JoinParity(b1, b0);
      if b1 == 0 && a1 == 0 {
        var g := GcdOdd(b0, a0);
        SameDivisorsSwap(Join(a1, a0), Join(b1, b0), X, Y);
        GcdTransfer(g, b0, a0, X, Y);
        JoinParity(0, g);
        return 0, g;
      }
      CompareJoin(a1, a0, b1, b0);
      CompareJoin(b1, b0, a1, a0);
      if Gt2(a1, a0, b1, b0) {
        SubtractionKeepsDivisors(Join(a1, a0), Join(b1, b0), X, Y);
        a1, a0 := SubDdmmss(a1, a0, b1, b0);
        a1, a0 := ShiftOdd(a1, a0, Join(b1, b0), X, Y);
      } else if Gt2(b1, b0, a1, a0) {
        SameDivisorsSwap(Join(a1, a0), Join(b1, b0), X, Y);
        SubtractionKeepsDivisors(Join(b1, b0), Join(a1, a0), X, Y);
        b1, b0 := SubDdmmss(b1, b0, a1, a0);
        b1, b0 := ShiftOdd(b1, b0, Join(a1, a0), X, Y);
        SameDivisorsSwap(Join(b1, b0), Join(a1, a0), X, Y);
      } else {
        break;
      }
    }
    JoinParity(a1, a0);
    GcdOfEqual(Join(a1, a0), X, Y);
    return a1, a0;
  }
}
