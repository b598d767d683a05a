/** The one-word Miller-Rabin test of factor.c: it never rejects a prime, and what it accepts passes Fermat's test. */
module MillerRabin {
  import opened Arith
  import opened NumberTheory
  import opened Words
  import opened Montgomery

  /** n - one is the redc form of -1. */
  lemma MontMinusOne(n: int, ni: int, x: int)
    requires 2 <= n && IsInverse(ni, n, B)
    ensures 0 < Mont(1, n) < n
    ensures Mont(x, n) == Mont(1, n) <==> x % n == 1
    ensures Mont(x, n) == n - Mont(1, n) <==> x % n == n - 1
  {
    ModSmall(1, n);
    ModSmall(0, n);
    MontInjective(x, 1, n, ni);
    MontInjective(0, 1, n, ni);
    assert Mont(0, n) == 0;
    var one := Mont(1, n);
    assert B == B / n * n + one;
    assert -1 * B == (n - one) + (-1 - B / n) * n by { assert (-1 - B / n) * n == -n - B / n * n; }
    ModShift(n - one, -1 - B / n, n);
    ModSmall(n - one, n);
    assert Mont(-1, n) == n - one;
    MontInjective(x, -1, n, ni);
    ModShift(-1, 1, n);
    ModSmall(n - 1, n);
  }

  lemma SquareOfRoot(y: int, n: int)
    requires 2 <= n && (y % n == 1 || y % n == n - 1)
    ensures (y * y) % n == 1
  {
    ModMul(y, y, n);
    if y % n == n - 1 {
      assert (n - 1) * (n - 1) == 1 + (n - 2) * n;
      ModShift(1, n - 2, n);
    }
    ModSmall(1, n);
  }

  lemma PowDouble(x: int, c: nat)
    ensures Pow(x, 2 * c) == Pow(x, c) * Pow(x, c)
  {
    PowAdd(x, c, c);
  }

  /** If x^c is 1 or -1 then x^(2c h) is 1. */
  lemma FromSquareRoot(x: int, c: nat, h: nat, n: int)
    requires 2 <= n && (Pow(x, c) % n == 1 || Pow(x, c) % n == n - 1)
    ensures 0 <= (2 * c) * h && PowIsOne(x, (2 * c) * h, n)
  {
    PowDouble(x, c);
    SquareOfRoot(Pow(x, c), n);
    assert PowIsOne(x, 2 * c, n);
    hide Pow, PowIsOne;
    PowMultipleIsOne(x, n, 2 * c, h);
  }

  /** The exponent of the i-th squaring, and how it divides n - 1. */
  lemma Exponent(q: nat, k: nat, i: nat)
    requires i < k
    ensures 0 <= Mul(q, Pow(2, i)) && 0 <= Pow(2, k - 1 - i)
    ensures Mul(q, Pow(2, k)) == (2 * Mul(q, Pow(2, i))) * Pow(2, k - 1 - i)
    ensures Mul(q, Pow(2, i + 1)) == 2 * Mul(q, Pow(2, i))
  {
    PowPos(2, i);
    PowPos(2, k - 1 - i);
    PowAdd(2, i, k - i);
    var u, v := Pow(2, i), Pow(2, k - 1 - i);
    assert Pow(2, k - i) == 2 * v;
    assert q * (u * (2 * v)) == (2 * (q * u)) * v;
    assert q * (2 * u) == 2 * (q * u);
  }

  /** Modulo a prime, a number that is neither 1 nor -1 does not square to 1. */
  lemma NoNewRoot(n: int, y: int)
    requires IsPrime(n) && y % n != 1 && y % n != n - 1
    ensures (y * y) % n != 1
  {
    ModMul(y, y, n);
    if (y * y) % n == 1 { SquareRootOfOne(n, y % n); }
  }

  /** x^c is neither 1 nor -1 modulo n. */
  ghost predicate NotYetRoot(x: int, c: nat, n: int)
    requires 0 < n
  {
    Pow(x, c) % n != 1 && Pow(x, c) % n != n - 1
  }

  /** millerrabin, for n - 1 = q 2^k with k > 0 and a base x given in redc form. */
  method Millerrabin(n: Word, ni: Word, b: Word, q: Word, k: nat, one: Word, ghost x: nat) returns (r: bool)
    requires 3 <= n && IsInverse(ni, n, B) && 0 < k && n - 1 == Mul(q, Pow(2, k))
    requires one == Mont(1, n) && b == Mont(x, n)
    ensures r ==> PowIsOne(x, n - 1, n)
    ensures IsPrime(n) && !Divides(n, x) ==> r
  {
    hide IsInverse, Mont, IsPrime, Mul, Divides, Pow;
    var y := Powm(b, q, n, ni, one, x);
    MontMinusOne(n, ni, Pow(x, q));
    var nm1 := n - one;
    ghost var c: nat := q;         // y is the redc form of x^c
    Start(q);
    if y == one || y == nm1 {
      Accept(x, q, k, 0, n);
      return true;
    }
    var i := 1;
    while i < k
      invariant 1 <= i <= k && c == Mul(q, Pow(2, i - 1))
      invariant y == Mont(Pow(x, c), n) && NotYetRoot(x, c, n)
    {
      Exponent(q, k, i - 1);
      PowDouble(x, c);
      ghost var Y := Pow(x, c);
      y := MontMul(y, y, n, ni, Y, Y);
      c := 2 * c;
      MontMinusOne(n, ni, Pow(x, c));
      if y == nm1 {
        Accept(x, q, k, i, n);
        return true;
      }
      if y == one {
        if IsPrime(n) { NoNewRoot(n, Y); }
        return false;
      }
      i := i + 1;
    }
    if IsPrime(n) && !Divides(n, x) {
      Reject(x, q, k, c, n);
    }
    return false;
  }

  lemma Start(q: nat)
    ensures Mul(q, Pow(2, 0)) == q
  {}

  lemma Accept(x: int, q: nat, k: nat, i: nat, n: int)
    requires 2 <= n && i < k && n - 1 == Mul(q, Pow(2, k)) && 0 <= Mul(q, Pow(2, i))
    requires !NotYetRoot(x, Mul(q, Pow(2, i)), n)
    ensures PowIsOne(x, n - 1, n)
  {
    Exponent(q, k, i);
    FromSquareRoot(x, Mul(q, Pow(2, i)), Pow(2, k - 1 - i), n);
  }

  /** A prime cannot reach the end of the loop. */
  lemma Reject(x: nat, q: nat, k: nat, c: nat, n: int)
    requires IsPrime(n) && !Divides(n, x) && 0 < k && n - 1 == Mul(q, Pow(2, k)) && c == Mul(q, Pow(2, k - 1))
    ensures !NotYetRoot(x, c, n)
  {
    Fermat(x, n);
    Exponent(q, k, k - 1);
    PowDouble(x, c);
    if NotYetRoot(x, c, n) { NoNewRoot(n, Pow(x, c)); }
  }
}
