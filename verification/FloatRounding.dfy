/**
 Binary floating-point formats with an M-bit significand, and the rounding of an N-bit integer to such a format by
 the shift-with-sticky-bit method of compiler-rt's float*ti*f and float*disf.
 */
module FloatRounding {
  import opened Arith
  import opened Bits

  // ----- the format

  /**
   The magnitude of the float whose bits without the sign are n, in units of the smallest positive float.  The
   exponent field n / 2^(M-1) is zero for subnormal numbers.  The pattern of infinity reads as the power of two that
   follows the largest finite float, which is how rounding treats overflow (IEEE 754-2008 section 4.3.1).
   */
  ghost function InUnits(n: nat, M: nat): int
    requires 1 <= M
  {
    PowPos(2, M - 1);
    var F := Pow(2, M - 1);
    if n / F <= 0 then n % F else Mul(F + n % F, Pow(2, n / F - 1))
  }

  lemma UnitsOfFields(E: nat, f: nat, M: nat)
    requires 1 <= M && f < Pow(2, M - 1)
    ensures 0 <= E * Pow(2, M - 1) + f
    ensures InUnits(E * Pow(2, M - 1) + f, M) == if E == 0 then f else Mul(Pow(2, M - 1) + f, Pow(2, E - 1))
  {
    PowPos(2, M - 1);
    MulLe(0, E, Pow(2, M - 1));
    DivModUnique(E * Pow(2, M - 1) + f, Pow(2, M - 1), E, f);
  }

  /** A normal float: the significand m times a power of two; the next pattern has the next significand. */
  lemma UnitsOfNormal(E: nat, m: nat, M: nat)
    requires 1 <= M && 1 <= E && Pow(2, M - 1) <= m < Pow(2, M)
    ensures var n := (E - 1) * Pow(2, M - 1) + m;
            0 <= n && InUnits(n, M) == Mul(m, Pow(2, E - 1)) && InUnits(n + 1, M) == Mul(m + 1, Pow(2, E - 1))
  {
    hide InUnits;
    var F := Pow(2, M - 1);
    assert (E - 1) * F + m == E * F + (m - F);
    UnitsOfFields(E, m - F, M);
    if m + 1 < Pow(2, M) {
      UnitsOfFields(E, m + 1 - F, M);
    } else {
      assert (E - 1) * F + m + 1 == (E + 1) * F + 0;
      PowPos(2, M - 1);
      UnitsOfFields(E + 1, 0, M);
      DoubleProduct(F, Pow(2, E - 1));
    }
  }

  lemma DoubleProduct(x: int, y: int)
    ensures Mul(x, 2 * y) == Mul(2 * x, y)
  {}

  lemma UnitsStep(n: nat, M: nat)
    requires 1 <= M
    ensures InUnits(n, M) < InUnits(n + 1, M)
  {
    hide InUnits;
    PowPos(2, M - 1);
    var F := Pow(2, M - 1);
    var E, f := SplitFields(n, F);
    UnitsOfFields(E, f, M);
    if E == 0 {
      if f + 1 < F { UnitsOfFields(0, f + 1, M); } else { UnitsOfFields(1, 0, M); }
    } else {
      UnitsOfNormal(E, F + f, M);
      assert (E - 1) * F + (F + f) == E * F + f;
      PowPos(2, E - 1);
      NextMultiple(F + f, Pow(2, E - 1));
    }
  }

  lemma SplitFields(n: nat, F: int) returns (E: nat, f: nat)
    requires 1 <= F
    ensures n == E * F + f && f < F
  {
    E, f := n / F, n % F;
  }

  lemma NextMultiple(m: int, P: int)
    ensures Mul(m + 1, P) == Mul(m, P) + P
  {}

  lemma {:induction false} UnitsMono(k: nat, n: nat, M: nat)
    requires 1 <= M && k <= n
    ensures InUnits(k, M) <= InUnits(n, M) && (k < n ==> InUnits(k, M) < InUnits(n, M))
    decreases n - k
  {
    hide InUnits;
    if k < n {
      UnitsStep(k, M);
      UnitsMono(k + 1, n, M);
    }
  }

  // ----- round to nearest, ties to even

  function Distance(x: int, y: int): int {
    if x < y then y - x else x - y
  }

  /** No float is nearer to A than n, and n has an even significand if another float is equally near. */
  ghost predicate Nearest(n: nat, A: int, M: nat)
    requires 1 <= M
  {
    forall k: nat ::
      && Distance(InUnits(n, M), A) <= Distance(InUnits(k, M), A)
      && (Distance(InUnits(n, M), A) == Distance(InUnits(k, M), A) && k != n ==> n % 2 == 0)
  }

  /** Rounding to nearest with ties to even has one answer. */
  lemma NearestUnique(n: nat, n': nat, A: int, M: nat)
    requires 1 <= M && Nearest(n, A, M) && Nearest(n', A, M)
    ensures n == n'
  {
    hide InUnits;
    if n < n' {
      NotBoth(n, n', A, M);
    } else if n' < n {
      NotBoth(n', n, A, M);
    }
  }

  lemma NotBoth(n: nat, n': nat, A: int, M: nat)
    requires 1 <= M && n < n'
    ensures !(Nearest(n, A, M) && Nearest(n', A, M))
  {
    hide InUnits;
    if Nearest(n, A, M) && Nearest(n', A, M) {
      assert Distance(InUnits(n, M), A) == Distance(InUnits(n', M), A);
      UnitsMono(n, n + 1, M);
      UnitsMono(n + 1, n', M);
    }
  }

  lemma NearestExact(n: nat, A: int, M: nat)
    requires 1 <= M && InUnits(n, M) == A
    ensures Nearest(n, A, M)
  {
    hide InUnits;
    forall k: nat
      ensures Distance(InUnits(n, M), A) <= Distance(InUnits(k, M), A)
      ensures Distance(InUnits(n, M), A) == Distance(InUnits(k, M), A) && k != n ==> n % 2 == 0
    {
      if k < n { UnitsMono(k, n, M); } else { UnitsMono(n, k, M); }
    }
  }

  /** Between two neighbours the nearer one, or the even one in the middle, is the nearest of all floats. */
  lemma NearestOfTwo(n0: nat, A: int, M: nat, up: bool)
    requires 1 <= M && InUnits(n0, M) <= A < InUnits(n0 + 1, M)
    requires var low, gap := A - InUnits(n0, M), InUnits(n0 + 1, M) - InUnits(n0, M);
             up <==> 2 * low > gap || (2 * low == gap && n0 % 2 == 1)
    ensures Nearest(if up then n0 + 1 else n0, A, M)
  {
    hide InUnits;
    var n := if up then n0 + 1 else n0;
    forall k: nat
      ensures Distance(InUnits(n, M), A) <= Distance(InUnits(k, M), A)
      ensures Distance(InUnits(n, M), A) == Distance(InUnits(k, M), A) && k != n ==> n % 2 == 0
    {
      if k <= n0 { UnitsMono(k, n0, M); } else { UnitsMono(n0 + 1, k, M); }
    }
  }

  // ----- single bits

  lemma OrOne(x: nat)
    ensures Or(x, 1) == x - x % 2 + 1 && Or(x, 0) == x
  {}

  /** The bit of weight four. */
  lemma AndFour(x: nat)
    ensures And(x, 4) != 0 <==> x / 4 % 2 == 1
  {
    hide And;
    assert Pow(2, 2) == 4 && Shl(1, 2) == 4;
    ShlPow(x / 4, 2);
    AndBit(x / 4, 2, x % 4);
    assert Shl(1, 2) == 4 && Shl(0, 2) == 0;
  }

  /** Bit M of a number of at most M + 1 bits. */
  lemma AndTop(x: nat, M: nat)
    requires x < 2 * Pow(2, M)
    ensures 0 < Pow(2, M) && (And(x, Pow(2, M)) != 0 <==> Pow(2, M) <= x)
  {
    hide And, Shl;
    PowPos(2, M);
    ShlPow(1, M);
    ShlPow(0, M);
    if Pow(2, M) <= x {
      AndBit(1, M, x - Pow(2, M));
    } else {
      AndBit(0, M, x);
    }
  }

  // ----- the conversion

  /** x is a cut to its leading significand m, two more bits Q and R, where R stands for everything below. */
  ghost predicate Cut(a: int, t: nat, m: int, x: int)
    requires 1 <= t
  {
    var low := a - Mul(m, Pow(2, t));
    && 0 <= low < Pow(2, t) && x / 4 == m
    && (x % 4 == 3 <==> 2 * low > Pow(2, t)) && (x % 4 == 2 <==> 2 * low == Pow(2, t))
  }

  lemma CutSmall(a: nat)
    ensures Cut(a, 1, a / 2, 2 * a) && Cut(a, 2, a / 4, a)
  {
    assert Pow(2, 1) == 2 && Pow(2, 2) == 4;
  }

  lemma CutSticky(a: nat, j: nat, y: nat, z: nat)
    requires 1 <= j && a == Mul(y, Pow(2, j)) + z && z < Pow(2, j)
    ensures Cut(a, j + 2, y / 4, if z != 0 then y - y % 2 + 1 else y)
  {
    hide Mul, Pow;
    var J := Pow(2, j);
    QuadruplePower(j);
    SplitQuarter(y / 4, y % 4, J);
    CutCases(y % 4, J, z);
  }

  lemma QuadruplePower(j: nat)
    ensures Pow(2, j + 2) == 4 * Pow(2, j)
  {}

  lemma SplitQuarter(m: int, c: int, J: int)
    ensures Mul(4 * m + c, J) == Mul(m, 4 * J) + Mul(c, J)
  {
    assert (4 * m + c) * J == m * (4 * J) + c * J;
  }

  lemma CutCases(c: nat, J: int, z: int)
    requires c < 4 && 0 <= z < J
    ensures 0 <= Mul(c, J) + z < 4 * J
    ensures 2 * (Mul(c, J) + z) > 4 * J <==> c == 3 || (c == 2 && z != 0)
    ensures 2 * (Mul(c, J) + z) == 4 * J <==> c == 2 && z == 0
  {}

  /** Shifts right by j and ors the bits that are lost into the last one. */
  method StickyShift(a: nat, j: nat, N: nat) returns (x: nat)
    requires 1 <= j <= N
    ensures Cut(a, j + 2, x / 4, x)
  {
    hide Pow, And, Or, Cut, Shl, Mul;
    MaskValue(N, j);
    var y, z := Shifted(a, j);
    var mask: nat := (Pow(2, N) - 1) / Pow(2, N - j);
    AndLowMask(y, j, z);
    OrOne(y);
    CutSticky(a, j, y, z);
    x := Or(a / Pow(2, j), if And(a, mask) != 0 then 1 else 0);
  }

  /** The switch: brings a of sd > M bits to M + 2 bits, the last one sticky. */
  method Sticky(a: nat, sd: nat, N: nat, M: nat) returns (x: nat)
    requires 1 <= M < sd <= N && M + 3 <= N && Pow(2, sd - 1) <= a < Pow(2, sd)
    ensures Cut(a, sd - M, x / 4, x) && Pow(2, M - 1) <= x / 4 < Pow(2, M)
  {
    hide Pow, Cut, Mul;
    SignificantBits(a, sd, M);
    CutSmall(a);
    if sd == M + 1 {
      NoWrap(2 * a, M + 2, N);
      x := (2 * a) % Pow(2, N);
    } else if sd == M + 2 {
      x := a;
    } else {
      x := StickyShift(a, sd - (M + 2), N);
    }
    CutBounds(a, sd, M, x);
  }

  /** A number of fewer than N bits is its own remainder modulo 2^N. */
  lemma NoWrap(x: nat, k: nat, N: nat)
    requires k <= N && (x < Pow(2, k) || (1 <= k && x < 2 * Pow(2, k - 1)))
    ensures 0 < Pow(2, N) && x % Pow(2, N) == x
  {
    PowPos(2, N);
    PowMono(2, k, N);
    ModSmall(x, Pow(2, N));
  }

  lemma Shifted(a: nat, j: nat) returns (y: nat, z: nat)
    ensures 0 < Pow(2, j) && y == a / Pow(2, j) && a == Mul(y, Pow(2, j)) + z && z < Pow(2, j) && Shl(y, j) + z == a
  {
    hide Shl;
    PowPos(2, j);
    y, z := a / Pow(2, j), a % Pow(2, j);
    ShlPow(y, j);
  }

  /** All ones shifted right by N - j leaves j ones. */
  lemma MaskValue(N: nat, j: nat)
    requires j <= N
    ensures 0 < Pow(2, N - j) && (Pow(2, N) - 1) / Pow(2, N - j) == Pow(2, j) - 1
  {
    PowPos(2, N - j);
    PowAdd(2, j, N - j);
    DivModUnique(Pow(2, N) - 1, Pow(2, N - j), Pow(2, j) - 1, Pow(2, N - j) - 1);
  }

  /** Dropping sd - M bits leaves M bits. */
  lemma SignificantBits(a: nat, sd: nat, M: nat)
    requires 1 <= M < sd && Pow(2, sd - 1) <= a < Pow(2, sd)
    ensures Mul(Pow(2, M - 1), Pow(2, sd - M)) <= a < Mul(Pow(2, M), Pow(2, sd - M)) && 0 < Pow(2, sd - M)
  {
    PowPos(2, sd - M);
    PowAdd(2, M - 1, sd - M);
    PowAdd(2, M, sd - M);
  }

  lemma CutBounds(a: nat, sd: nat, M: nat, x: nat)
    requires 1 <= M < sd && Cut(a, sd - M, x / 4, x) && 0 < Pow(2, sd - M)
    requires Mul(Pow(2, M - 1), Pow(2, sd - M)) <= a < Mul(Pow(2, M), Pow(2, sd - M))
    ensures Pow(2, M - 1) <= x / 4 < Pow(2, M)
  {
    hide Pow;
    Between(a, x / 4, Pow(2, sd - M), Pow(2, M - 1), Pow(2, M));
  }

  lemma Between(a: int, m: int, P: int, lo: int, hi: int)
    requires 0 <= a - Mul(m, P) < P && Mul(lo, P) <= a < Mul(hi, P)
    ensures lo <= m < hi
  {
    if m < lo { MulLe(m + 1, lo, P); }
    if hi <= m { MulLe(hi, m, P); }
  }

  /** Or P into R, increment, drop Q and R: adds one exactly if the cut part is over half, or half and m odd. */
  method RoundUp(x: nat, N: nat) returns (m: nat)
    requires x + 2 < Pow(2, N)
    ensures m == x / 4 + if x % 4 == 3 || (x % 4 == 2 && x / 4 % 2 == 1) then 1 else 0
  {
    hide Pow, And, Or;
    AndFour(x);
    OrOne(x);
    m := Or(x, if And(x, 4) != 0 then 1 else 0);
    NoWrap(m + 1, N, N);
    m := (m + 1) % Pow(2, N);
    m := m / 4;
  }

  /** What the significand and exponent found by a conversion of a > 0 stand for: the float nearest to a. */
  ghost predicate Converted(a: nat, m: int, e: int, M: nat, bias: nat)
    requires 1 <= M
  {
    && Pow(2, M - 1) <= m < Pow(2, M) && 0 <= e && 1 <= bias
    && 0 <= (e + bias - 1) * Pow(2, M - 1) + m
    && Nearest((e + bias - 1) * Pow(2, M - 1) + m, Mul(a, Pow(2, M - 1 + bias - 1)), M)
  }

  lemma ProductOfPowers(m: int, i: nat, j: nat)
    ensures Mul(Mul(m, Pow(2, i)), Pow(2, j)) == Mul(m, Pow(2, i + j))
  {
    PowAdd(2, i, j);
    assert m * Pow(2, i) * Pow(2, j) == m * (Pow(2, i) * Pow(2, j));
  }

  lemma ExactConversion(a: nat, sd: nat, M: nat, bias: nat)
    requires 1 <= sd <= M && Pow(2, sd - 1) <= a < Pow(2, sd) && 1 <= bias
    ensures Converted(a, Mul(a, Pow(2, M - sd)), sd - 1, M, bias)
  {
    hide Nearest, InUnits;
    var m := Mul(a, Pow(2, M - sd));
    PowPos(2, M - sd);
    PowAdd(2, sd - 1, M - sd);
    PowAdd(2, sd, M - sd);
    MulLe(Pow(2, sd - 1), a, Pow(2, M - sd));
    MulLt(a, Pow(2, sd), Pow(2, M - sd));
    var E := sd - 1 + bias;
    UnitsOfNormal(E, m, M);
    ProductOfPowers(a, M - sd, E - 1);
    NearestExact((E - 1) * Pow(2, M - 1) + m, Mul(a, Pow(2, M - 1 + bias - 1)), M);
  }

  /** The rounded significand is the nearest float; a carry out of it goes to the exponent. */
  lemma RoundedConversion(a: nat, sd: nat, M: nat, bias: nat, x: nat)
    requires 2 <= M < sd && 1 <= bias && Cut(a, sd - M, x / 4, x) && Pow(2, M - 1) <= x / 4 < Pow(2, M)
    ensures var m := x / 4 + if x % 4 == 3 || (x % 4 == 2 && x / 4 % 2 == 1) then 1 else 0;
            && m <= Pow(2, M)
            && (m < Pow(2, M) ==> Converted(a, m, sd - 1, M, bias))
            && (m == Pow(2, M) ==> Converted(a, Pow(2, M - 1), sd, M, bias))
  {
    hide Nearest, InUnits;
    var up := x % 4 == 3 || (x % 4 == 2 && x / 4 % 2 == 1);
    var m0, E, t := x / 4, sd - 1 + bias, sd - M;
    var n0 := (E - 1) * Pow(2, M - 1) + m0;
    UnitsOfNormal(E, m0, M);
    var A, K := Mul(a, Pow(2, M - 1 + bias - 1)), Pow(2, M - 1 + bias - 1);
    PowPos(2, M - 1 + bias - 1);
    NextMultiple(m0, Pow(2, E - 1));
    PowAdd(2, t, M - 1 + bias - 1);
    ScaleCut(a, m0, Pow(2, t), K);
    SameParity(E - 1, m0, M);
    NearestOfTwo(n0, A, M, up);
    CarryIntoExponent(E - 1, M);
    PowPos(2, M - 1);
  }

  /** Scaling the part that was cut off keeps its order relative to one half. */
  lemma ScaleCut(a: int, m: int, P: int, K: int)
    requires 0 <= a - Mul(m, P) < P && 1 <= K
    ensures Mul(m, P * K) <= Mul(a, K) < Mul(m, P * K) + P * K
    ensures 2 * (a - Mul(m, P)) > P <==> 2 * (Mul(a, K) - Mul(m, P * K)) > P * K
    ensures 2 * (a - Mul(m, P)) == P <==> 2 * (Mul(a, K) - Mul(m, P * K)) == P * K
  {
    var low := a - m * P;
    assert m * (P * K) == (m * P) * K;
    assert a * K - (m * P) * K == low * K;
    assert (2 * low) * K == 2 * (low * K);
    MulLt(low, P, K);
    MulLe(0, low, K);
    if 2 * low > P { MulLt(P, 2 * low, K); }
    if 2 * low < P { MulLt(2 * low, P, K); }
  }

  lemma SameParity(E: int, m: int, M: nat)
    requires 2 <= M
    ensures (E * Pow(2, M - 1) + m) % 2 == m % 2
  {
    assert E * (2 * Pow(2, M - 2)) == 2 * (E * Pow(2, M - 2));
  }

  lemma CarryIntoExponent(E: int, M: nat)
    requires 1 <= M
    ensures E * Pow(2, M - 1) + Pow(2, M) == (E + 1) * Pow(2, M - 1) + Pow(2, M - 1)
  {
    assert (E + 1) * Pow(2, M - 1) == E * Pow(2, M - 1) + Pow(2, M - 1);
  }

  /** The common body of the conversions: significand and exponent of the float nearest to a > 0. */
  method Convert(a: nat, N: nat, M: nat, ghost bias: nat) returns (m: nat, e: int)
    requires 0 < a < Pow(2, N) && 2 <= M && M + 3 <= N && 1 <= bias
    ensures Converted(a, m, e, M, bias) && e <= N && (e == N ==> m == Pow(2, M - 1))
  {
    hide BitLength, Pow, Converted, Cut, And;
    BitLengthAtMost(a, N);
    BitLengthBounds(a);
    var sd := BitLength(a);
    e := sd - 1;
    if sd > M {
      var x := Sticky(a, sd, N, M);
      RoundedConversion(a, sd, M, bias, x);
      RoomToRound(x, M, N);
      m := RoundUp(x, N);
      AndCarry(m, M);
      if And(m, Pow(2, M)) != 0 {
        m := m / 2;
        e := e + 1;
      }
    } else {
      ExactConversion(a, sd, M, bias);
      ConvertedPositive(a, Mul(a, Pow(2, M - sd)), sd - 1, M, bias);
      NoWrap(Mul(a, Pow(2, M - sd)), M, N);
      m := Mul(a, Pow(2, M - sd)) % Pow(2, N);
    }
  }

  /** N bits hold the significand, Q, R and the carry. */
  lemma RoomToRound(x: nat, M: nat, N: nat)
    requires x / 4 < Pow(2, M) && M + 3 <= N
    ensures x + 2 < Pow(2, N)
  {
    PowMono(2, M + 3, N);
    PowAdd(2, M, 3);
    PowPos(2, M);
    assert Pow(2, 3) == 8;
  }

  lemma AndCarry(m: nat, M: nat)
    requires 1 <= M && m <= Pow(2, M)
    ensures 0 < Pow(2, M) && (And(m, Pow(2, M)) != 0 <==> m == Pow(2, M)) && Pow(2, M) / 2 == Pow(2, M - 1)
  {
    hide And;
    PowPos(2, M);
    AndTop(m, M);
  }

  lemma ConvertedPositive(a: nat, m: int, e: int, M: nat, bias: nat)
    requires 1 <= M && Converted(a, m, e, M, bias)
    ensures 0 <= m < Pow(2, M)
  {
    PowPos(2, M - 1);
  }
}
