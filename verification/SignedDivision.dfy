/** __divmodti4 and __divmoddi4 of compiler-rt: signed division on top of the unsigned dividers. */
module SignedDivision {
  import opened Arith
  import opened ShiftDivision
  import opened WideDivision
  import opened Words

  type Sdword = x: int | -0x8000_0000_0000_0000 <= x < 0x8000_0000_0000_0000
  type Stword = x: int
    | -0x8000_0000_0000_0000_0000_0000_0000_0000 <= x < 0x8000_0000_0000_0000_0000_0000_0000_0000

  /** A signed word shifted right arithmetically until only the sign is left. */
  function Sign(x: int): int {
    if x < 0 then -1 else 0
  }

  /** (x ^ s) - s in unsigned arithmetic modulo m: x with all bits complemented if s is all ones, minus s. */
  function FlipSign(x: int, s: int, m: int): int
    requires 0 < m
  {
    ((if s == -1 then m - 1 - x else x) - s) % m
  }

  /** The signed number with the same bits. */
  function Signed(x: int, m: int): int {
    if 2 * x < m then x else x - m
  }

  /** Truncated division: the remainder is smaller than the divisor and takes the sign of the dividend. */
  ghost predicate Truncated(a: int, b: int, q: int, r: int) {
    a == Mul(q, b) + r && RemainderOf(a, b, r)
  }

  ghost predicate RemainderOf(a: int, b: int, r: int) {
    -Abs(b) < r < Abs(b) && (r == 0 || (r < 0 <==> a < 0))
  }

  function Abs(x: int): int {
    if x < 0 then -x else x
  }

  /** The absolute value of every signed word, the most negative included, as an unsigned word. */
  lemma Magnitude(a: int, m: int)
    requires -m <= 2 * a < m && 0 < m
    ensures FlipSign(a % m, Sign(a), m) == Abs(a)
  {
    if a < 0 {
      DivModUnique(a, m, -1, a + m);
      ModSmall(-a, m);
    } else {
      ModSmall(a, m);
    }
  }

  /** Giving a magnitude its sign back is exact unless it is 2^(w-1) and positive. */
  lemma Resign(x: int, s: int, m: int)
    requires 0 <= 2 * x <= m && 0 < m && m % 2 == 0 && (s == 0 || s == -1)
    ensures Signed(FlipSign(x, s, m), m) == if s == -1 then -x else if 2 * x == m then -x else x
  {
    if s == -1 {
      if x == 0 { ModOfMultiple(1, m); } else { ModSmall(m - x, m); }
    } else {
      ModSmall(x, m);
    }
  }

  lemma ProductSigns(q: int, b: int)
    ensures Mul(q, -b) == -Mul(q, b) && Mul(-q, b) == -Mul(q, b)
  {}

  lemma QuotientAtMost(a: int, b: int, q: int, r: int, m: int)
    requires -m <= 2 * a < m && -m <= 2 * b < m && b != 0
    requires Abs(a) == Mul(q, Abs(b)) + r && 0 <= r < Abs(b) && 0 <= q
    ensures 2 * q <= m && 2 * r < m
  {
    MulLe(1, Abs(b), q);
  }

  /** The quotient of the magnitudes, with the signs put back, is the truncated quotient except for MIN / -1. */
  lemma SignedQuotient(a: int, b: int, q: int, r: int, m: int)
    requires 0 < m && m % 2 == 0 && -m <= 2 * a < m && -m <= 2 * b < m && b != 0
    requires Abs(a) == Mul(q, Abs(b)) + r && 0 <= r < Abs(b) && 0 <= q
    ensures var s := if Sign(a) == Sign(b) then 0 else -1;
            var quo, rem := Signed(FlipSign(q, s, m), m), Signed(FlipSign(r, Sign(a), m), m);
            RemainderOf(a, b, rem) && (a == Mul(quo, b) + rem <==> !(2 * a == -m && b == -1))
  {
    hide Mul, FlipSign, Signed;
    QuotientAtMost(a, b, q, r, m);
    Resign(q, if Sign(a) == Sign(b) then 0 else -1, m);
    Resign(r, Sign(a), m);
    ProductSigns(q, b);
    MulZero(q);
    if 2 * q == m { LargestQuotient(a, b, q, r, m); }
  }

  /** A quotient of 2^(w-1) only comes from the most negative dividend and a divisor of 1 or -1. */
  lemma LargestQuotient(a: int, b: int, q: int, r: int, m: int)
    requires 0 < m && -m <= 2 * a < m && b != 0 && 2 * q == m
    requires Abs(a) == Mul(q, Abs(b)) + r && 0 <= r < Abs(b)
    ensures 2 * a == -m && Abs(b) == 1 && r == 0
  {
    if 2 <= Abs(b) { MulLe(2, Abs(b), q); }
  }

  /** __divmoddi4. */
  method Divmoddi4(a: Sdword, b: Sdword) returns (q: Sdword, rem: Sdword)
    requires b != 0
    ensures Truncated(a, b, q, rem) <==> !(a == -HALF_B && b == -1)
    ensures RemainderOf(a, b, rem)
  {
    hide Mul, FlipSign, Signed, Truncated, RemainderOf;
    var sa, sb := Sign(a), Sign(b);
    Magnitude(a, B);
    Magnitude(b, B);
    var ua: Word, ub: Word := FlipSign(a % B, sa, B), FlipSign(b % B, sb, B);
    sb := if sa == sb then 0 else -1;
    var x, y := Udivmoddi4(ua, ub);
    SignedQuotient(a, b, x, y, B);
    SignedRange(x, sb, B);
    SignedRange(y, sa, B);
    q := Signed(FlipSign(x, sb, B), B);
    rem := Signed(FlipSign(y, sa, B), B);
    TruncatedIff(a, b, q, rem);
  }

  lemma TruncatedIff(a: int, b: int, q: int, r: int)
    requires RemainderOf(a, b, r)
    ensures Truncated(a, b, q, r) <==> a == Mul(q, b) + r
  {}

  lemma SignedRange(x: int, s: int, m: int)
    requires 0 < m
    ensures -m <= 2 * Signed(FlipSign(x, s, m), m) < m
  {
    DivRange(if s == -1 then m - 1 - x - s else x - s, m);
  }

  lemma DivRange(x: int, m: int)
    requires 0 < m
    ensures 0 <= x % m < m
  {}

  /** __divmodti4. */
  method Divmodti4(a: Stword, b: Stword) returns (q: Stword, rem: Stword)
    requires b != 0
    ensures Truncated(a, b, q, rem) <==> !(a == -HALF_T && b == -1)
    ensures RemainderOf(a, b, rem)
  {
    hide Mul, FlipSign, Signed, Truncated, RemainderOf;
    var sa, sb := Sign(a), Sign(b);
    Magnitude(a, T);
    Magnitude(b, T);
    var ua: Tword, ub: Tword := FlipSign(a % T, sa, T), FlipSign(b % T, sb, T);
    sb := if sa == sb then 0 else -1;
    var x, y := Udivmodti4(ua, ub);
    SignedQuotient(a, b, x, y, T);
    SignedRange(x, sb, T);
    SignedRange(y, sa, T);
    q := Signed(FlipSign(x, sb, T), T);
    rem := Signed(FlipSign(y, sa, T), T);
    TruncatedIff(a, b, q, rem);
  }
}
