/** Elementary facts about products, quotients and remainders of integers. */
module Arith {

  /** A product that a proof can treat as a black box by hiding this definition. */
  function Mul(a: int, b: int): int {
    a * b
  }

  lemma MulLe(a: int, b: int, c: int)
    requires a <= b && 0 <= c
    ensures a * c <= b * c
  {}

  lemma MulLt(a: int, b: int, c: int)
    requires a < b && 0 < c
    ensures a * c < b * c
  {}

  lemma MulPos(a: int, b: int)
    requires 0 < a && 0 < b
    ensures 0 < a * b && a <= a * b && b <= a * b
  {}

  lemma MulBound(a: int, b: int, m: int, n: int)
    requires 0 <= a <= m && 0 <= b <= n
    ensures 0 <= a * b <= m * n
  {
    MulLe(a, m, b);
    MulLe(b, n, m);
  }

  /** Quotient and remainder are determined by the division identity. */
  lemma DivModUnique(x: int, d: int, q: int, r: int)
    requires 0 <= r < d && x == q * d + r
    ensures x / d == q && x % d == r
  {
    var q', r' := x / d, x % d;
    assert x == q' * d + r' && 0 <= r' < d;
    assert (q - q') * d == r' - r;
    if q > q' {
      MulLe(1, q - q', d);
      assert false;
    } else if q < q' {
      MulLe(1, q' - q, d);
      assert false;
    }
  }

  lemma DivModMul(x: int, d: int, q: int, r: int)
    requires 0 <= r < d && x == Mul(q, d) + r
    ensures x / d == q && x % d == r
  {
    DivModUnique(x, d, q, r);
  }

  lemma MulZero(x: int)
    ensures Mul(0, x) == 0 && Mul(x, 0) == 0 && Mul(1, x) == x && Mul(x, 1) == x
  {}

  lemma ModOfMultiple(k: int, m: int)
    requires 0 < m
    ensures (k * m) % m == 0 && (k * m) / m == k
  {
    DivModUnique(k * m, m, k, 0);
  }

  lemma ModSmall(x: int, m: int)
    requires 0 <= x < m
    ensures x % m == x && x / m == 0
  {
    DivModUnique(x, m, 0, x);
  }

  /** Adding a multiple of the modulus does not change the residue. */
  lemma ModShift(x: int, k: int, m: int)
    requires 0 < m
    ensures (x + k * m) % m == x % m
    ensures (x + k * m) / m == x / m + k
  {
    assert x + k * m == (x / m + k) * m + x % m;
    DivModUnique(x + k * m, m, x / m + k, x % m);
  }

  /** Congruent numbers differ by a multiple of the modulus. */
  lemma ModDifference(x: int, y: int, m: int) returns (k: int)
    requires 0 < m && x % m == y % m
    ensures x == y + k * m
  {
    k := x / m - y / m;
    assert x == x / m * m + x % m && y == y / m * m + y % m;
  }

  lemma ModAdd(x: int, y: int, m: int)
    requires 0 < m
    ensures (x % m + y) % m == (x + y) % m
    ensures (x + y % m) % m == (x + y) % m
    ensures (x % m + y % m) % m == (x + y) % m
  {
    ModAddLeft(x, y, m);
    ModAddLeft(y, x, m);
    ModAddLeft(x, y % m, m);
  }

  lemma ModAddLeft(x: int, y: int, m: int)
    requires 0 < m
    ensures (x % m + y) % m == (x + y) % m
  {
    assert x == x % m + x / m * m;
    ModShift(x % m + y, x / m, m);
  }

  lemma ModSub(x: int, y: int, m: int)
    requires 0 < m
    ensures (x - y % m) % m == (x - y) % m
  {
    assert y == y % m + y / m * m;
    assert x - y % m == x - y + y / m * m;
    ModShift(x - y, y / m, m);
  }

  lemma ModMul(x: int, y: int, m: int)
    requires 0 < m
    ensures (x % m * y) % m == (x * y) % m
    ensures (x * (y % m)) % m == (x * y) % m
    ensures (x % m * (y % m)) % m == (x * y) % m
  {
    ModMulLeft(x, y, m);
    ModMulLeft(y, x, m);
    ModMulLeft(x, y % m, m);
    assert x * (y % m) == y % m * x && x * y == y * x;
  }

  lemma ModMulLeft(x: int, y: int, m: int)
    requires 0 < m
    ensures (x % m * y) % m == (x * y) % m
  {
    var a := x / m;
    assert x == a * m + x % m;
    assert x * y == x % m * y + (a * y) * m by {
      assert (a * m + x % m) * y == a * m * y + x % m * y;
      assert a * m * y == a * y * m;
    }
    ModShift(x % m * y, a * y, m);
  }

  /** Multiplying two congruent numbers by the same factor keeps them congruent. */
  lemma CongMul(x: int, x': int, y: int, m: int)
    requires 0 < m && x % m == x' % m
    ensures (x * y) % m == (x' * y) % m
  {
    ModMulLeft(x, y, m);
    ModMulLeft(x', y, m);
  }

  /** x and y are congruent modulo m. */
  predicate Cong(x: int, y: int, m: int)
    requires 0 < m
  {
    x % m == y % m
  }

  lemma CongSub(x: int, y: int, m: int)
    requires 0 < m
    ensures x % m == y % m <==> (x - y) % m == 0
  {
    if x % m == y % m {
      var k := ModDifference(x, y, m);
      ModOfMultiple(k, m);
      assert x - y == k * m;
    }
    if (x - y) % m == 0 {
      var k := (x - y) / m;
      assert x == y + k * m;
      ModShift(y, k, m);
    }
  }

  /** Powers with a natural exponent. */
  function Pow(b: int, e: nat): int
  {
    if e == 0 then 1 else b * Pow(b, e - 1)
  }

  lemma {:induction false} PowAdd(b: int, i: nat, j: nat)
    ensures Pow(b, i + j) == Pow(b, i) * Pow(b, j)
  {
    if i != 0 {
      PowAdd(b, i - 1, j);
      assert b * (Pow(b, i - 1) * Pow(b, j)) == b * Pow(b, i - 1) * Pow(b, j);
    }
  }

  lemma {:induction false} PowMul(b: int, i: nat, j: nat)
    ensures 0 <= i * j && Pow(b, i * j) == Pow(Pow(b, i), j)
  {
    if j != 0 {
      PowMul(b, i, j - 1);
      assert i * j == i + i * (j - 1);
      PowAdd(b, i, i * (j - 1));
    }
  }

  lemma {:induction false} PowPos(b: int, e: nat)
    requires 1 <= b
    ensures 1 <= Pow(b, e)
  {
    if e != 0 {
      PowPos(b, e - 1);
      MulPos(b, Pow(b, e - 1));
    }
  }

  lemma {:induction false} PowCong(b: int, b': int, e: nat, m: int)
    requires 0 < m && b % m == b' % m
    ensures Pow(b, e) % m == Pow(b', e) % m
  {
    if e != 0 {
      PowCong(b, b', e - 1, m);
      CongMul(b, b', Pow(b, e - 1), m);
      CongMul(Pow(b, e - 1), Pow(b', e - 1), b', m);
      assert b' * Pow(b, e - 1) == Pow(b, e - 1) * b';
      assert b' * Pow(b', e - 1) == Pow(b', e - 1) * b';
    }
  }

  lemma {:induction false} PowOne(e: nat)
    ensures Pow(1, e) == 1
  {
    if e != 0 { PowOne(e - 1); }
  }

  lemma Rearrange(a: int, b: int, x: int, y: int)
    ensures (a * b) * (x * y) == (a * x) * (b * y)
  {}

  /** The powers of two that are word sizes. */
  lemma PowTwoValues()
    ensures Pow(2, 8) == 0x100 && Pow(2, 16) == 0x1_0000 && Pow(2, 32) == 0x1_0000_0000
    ensures Pow(2, 64) == 0x1_0000_0000_0000_0000
    ensures Pow(2, 128) == 0x1_0000_0000_0000_0000_0000_0000_0000_0000
  {
    assert Pow(2, 4) == 16;
    PowAdd(2, 4, 4);
    PowAdd(2, 8, 8);
    PowAdd(2, 16, 16);
    PowAdd(2, 32, 32);
    PowAdd(2, 64, 64);
  }

  lemma {:induction false} PowMono(b: int, i: nat, j: nat)
    requires 1 <= b && i <= j
    ensures Pow(b, i) <= Pow(b, j)
  {
    PowAdd(b, i, j - i);
    PowPos(b, i);
    PowPos(b, j - i);
    MulLe(1, Pow(b, j - i), Pow(b, i));
  }
}
