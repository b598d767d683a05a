/** Divisibility, primes, Fermat's little theorem and Lucas' converse of it. */
module NumberTheory {
  import opened Arith

  predicate Divides(d: int, n: int) {
    d != 0 && n % d == 0
  }

  ghost predicate IsPrime(p: int) {
    2 <= p && forall d :: 2 <= d < p ==> !Divides(d, p)
  }

  lemma DividesIntro(d: int, k: int)
    requires 0 < d
    ensures Divides(d, k * d) && Divides(d, d * k)
  {
    ModOfMultiple(k, d);
  }

  lemma DividesElim(d: int, n: int) returns (k: int)
    requires 0 < d && Divides(d, n)
    ensures n == k * d && k == n / d
  {
    k := n / d;
  }

  lemma DividesAdd(d: int, a: int, b: int)
    requires 0 < d && Divides(d, a)
    ensures Divides(d, b) <==> Divides(d, a + b)
    ensures Divides(d, b) <==> Divides(d, b - a)
  {
    var k := DividesElim(d, a);
    ModShift(b, k, d);
    ModShift(b - a, k, d);
  }

  lemma DividesMul(d: int, a: int, b: int)
    requires 0 < d && Divides(d, a)
    ensures Divides(d, a * b) && Divides(d, b * a)
  {
    var k := DividesElim(d, a);
    assert a * b == (k * b) * d;
    DividesIntro(d, k * b);
  }

  lemma DividesLe(d: int, n: int)
    requires 0 < d && 0 < n && Divides(d, n)
    ensures d <= n
  {
    var k := DividesElim(d, n);
    if k <= 0 {
      MulLe(k, 0, d);
      assert false;
    }
    MulLe(1, k, d);
  }

  lemma DividesTrans(a: int, b: int, c: int)
    requires 0 < a && 0 < b && Divides(a, b) && Divides(b, c)
    ensures Divides(a, c)
  {
    var k := DividesElim(b, c);
    DividesMul(a, b, k);
  }

  /** The exact quotient of n by one of its divisors d. */
  lemma ExactQuotient(d: int, n: int)
    requires 1 <= d && 1 <= n && Divides(d, n)
    ensures n == d * (n / d) && 1 <= n / d <= n && Divides(n / d, n)
    ensures 2 <= d ==> n / d < n
    ensures d < n ==> 2 <= n / d
  {
    var k := DividesElim(d, n);
    if k <= 0 { MulLe(k, 0, d); assert false; }
    DividesIntro(k, d);
    DividesLe(k, n);
    if 2 <= d { MulLe(2, d, k); }
  }

  /** Every number above 1 has a prime divisor. */
  lemma {:induction false} PrimeDivisor(n: int) returns (p: int)
    requires 2 <= n
    ensures IsPrime(p) && Divides(p, n) && p <= n
    decreases n
  {
    if IsPrime(n) {
      DividesIntro(n, 1);
      p := n;
    } else {
      var d :| 2 <= d < n && Divides(d, n);
      p := PrimeDivisor(d);
      DividesTrans(p, d, n);
    }
  }

  /** A number without a prime divisor below b is prime if it is below b squared. */
  lemma NoSmallDivisor(n: int, b: int)
    requires 2 <= n < b * b && 1 <= b
    requires forall p :: IsPrime(p) && p < b ==> !Divides(p, n)
    ensures IsPrime(n)
  {
    forall d | 2 <= d < n
      ensures !Divides(d, n)
    {
      if Divides(d, n) {
        ExactQuotient(d, n);
        var e := n / d;
        var f := if d < e then d else e;
        if b <= f {
          MulBound(b, b, d, e);
          assert false;
        }
        var p := PrimeDivisor(f);
        DividesTrans(p, f, n);
        assert false;
      }
    }
  }

  // ----- greatest common divisors

  ghost predicate CommonDivisor(d: int, a: int, b: int) {
    0 < d && Divides(d, a) && Divides(d, b)
  }

  /** g is a common divisor of a and b that every common divisor divides. */
  ghost predicate IsGcd(g: int, a: int, b: int) {
    && CommonDivisor(g, a, b)
    && forall d :: CommonDivisor(d, a, b) ==> Divides(d, g)
  }

  lemma GcdUnique(g: int, h: int, a: int, b: int)
    requires IsGcd(g, a, b) && IsGcd(h, a, b)
    ensures g == h
  {
    DividesLe(g, h);
    DividesLe(h, g);
  }

  /** Bezout: the greatest common divisor is an integer combination. */
  lemma {:induction false} Bezout(a: nat, b: nat) returns (g: int, x: int, y: int)
    requires 0 < a || 0 < b
    ensures IsGcd(g, a, b) && g == a * x + b * y
    decreases b
  {
    if b == 0 {
      g, x, y := a, 1, 0;
      DividesIntro(a, 1);
      DividesIntro(a, 0);
    } else {
      var x', y';
      g, x', y' := Bezout(b, a % b);
      var q := a / b;
      assert a == q * b + a % b;
      x, y := y', x' - q * y';
      assert g == a * x + b * y by {
        assert b * (x' - q * y') == b * x' - b * q * y';
        assert (a - q * b) * y' == a * y' - q * b * y';
      }
      forall d | 0 < d
        ensures CommonDivisor(d, a, b) <==> CommonDivisor(d, b, a % b)
      {
        if Divides(d, b) {
          DividesMul(d, b, q);
          DividesAdd(d, q * b, a % b);
        }
      }
    }
  }

  /** Euclid's lemma. */
  lemma EuclidLemma(p: int, a: nat, b: nat)
    requires IsPrime(p) && Divides(p, a * b)
    ensures Divides(p, a) || Divides(p, b)
  {
    var g, x, y := Bezout(p, a);
    DividesLe(g, p);
    if g == p {
    } else {
      assert g == 1;
      assert b == (p * x + a * y) * b == (x * b) * p + (a * b) * y;
      DividesIntro(p, x * b);
      DividesMul(p, a * b, y);
      DividesAdd(p, (x * b) * p, (a * b) * y);
    }
  }

  /** Multiplication by a number that the prime p does not divide can be cancelled modulo p. */
  lemma CancelModPrime(p: int, c: nat, x: int, y: int)
    requires IsPrime(p) && !Divides(p, c) && (c * x) % p == (c * y) % p
    ensures x % p == y % p
  {
    var u, v := x % p, y % p;
    ModMul(c, x, p);
    ModMul(c, y, p);
    CongSub(c * u, c * v, p);
    CongSub(c * v, c * u, p);
    var d := if u >= v then u - v else v - u;
    assert c * d == if u >= v then c * u - c * v else c * v - c * u;
    EuclidLemma(p, c, d);
    if d != 0 { DividesLe(p, d); }
  }

  // ----- Fermat's little theorem

  function Product(s: seq<int>): int {
    if s == [] then 1 else s[0] * Product(s[1..])
  }

  lemma {:induction false} ProductRemove(s: seq<int>, i: nat)
    requires i < |s|
    ensures Product(s) == s[i] * Product(s[..i] + s[i + 1..])
  {
    if i == 0 {
      assert s[..0] + s[1..] == s[1..];
    } else {
      ProductRemove(s[1..], i - 1);
      var t := s[..i] + s[i + 1..];
      assert t[1..] == s[1..][..i - 1] + s[1..][i..];
      var r := Product(t[1..]);
      assert s[0] * (s[i] * r) == s[i] * (s[0] * r);
    }
  }

  /** [f(1), ..., f(k)] for f(i) = a*i mod p. */
  function Residues(a: nat, k: nat, p: nat): (r: seq<int>)
    requires 0 < p
    ensures |r| == k && forall i :: 0 <= i < k ==> r[i] == (a * (i + 1)) % p
  {
    if k == 0 then [] else Residues(a, k - 1, p) + [(a * k) % p]
  }

  lemma {:induction false} ProductSnoc(s: seq<int>, x: int)
    ensures Product(s + [x]) == Product(s) * x
  {
    if s == [] {
      assert Product([x]) == x * Product([]);
    } else {
      assert (s + [x])[1..] == s[1..] + [x];
      ProductSnoc(s[1..], x);
      assert s[0] * (Product(s[1..]) * x) == s[0] * Product(s[1..]) * x;
    }
  }

  lemma ResidueStep(A: int, P: int, F: int, a: int, k: int, p: int)
    requires 0 < p && A % p == (P * F) % p
    ensures (A * ((a * k) % p)) % p == (a * P * (F * k)) % p
  {
    ModMul(A, a * k, p);
    CongMul(A, P * F, a * k, p);
    Rearrange(P, F, a, k);
    assert P * a == a * P;
  }

  lemma {:induction false} ResiduesProduct(a: nat, k: nat, p: nat)
    requires IsPrime(p) && k < p
    ensures Product(Residues(a, k, p)) % p == (Pow(a, k) * Product(Residues(1, k, p))) % p
    ensures !Divides(p, Product(Residues(1, k, p))) && 0 <= Product(Residues(1, k, p))
  {
    if k != 0 {
      ResiduesProduct(a, k - 1, p);
      var s, t := Residues(a, k - 1, p), Residues(1, k - 1, p);
      var A, F, P := Product(s), Product(t), Pow(a, k - 1);
      ProductSnoc(s, (a * k) % p);
      ModSmall(k, p);
      ProductSnoc(t, k);
      ResidueStep(A, P, F, a, k, p);
      if Divides(p, F * k) { EuclidLemma(p, F, k); }
    } else {
      ModSmall(1, p);
    }
  }

  ghost predicate Distinct(s: seq<int>) {
    forall i, j :: 0 <= i < j < |s| ==> s[i] != s[j]
  }

  lemma RemoveAt(t: seq<int>, i: nat) returns (t': seq<int>)
    requires i < |t| && Distinct(t)
    ensures |t'| == |t| - 1 && Distinct(t') && Product(t) == t[i] * Product(t')
    ensures forall x :: x in t && x != t[i] ==> x in t'
  {
    t' := t[..i] + t[i + 1..];
    ProductRemove(t, i);
  }

  /** Sequences of the same length without repetitions, one inside the other, have the same product. */
  lemma {:induction false} ProductPermutation(s: seq<int>, t: seq<int>)
    requires |s| == |t| && Distinct(s) && Distinct(t)
    requires forall x :: x in s ==> x in t
    ensures Product(s) == Product(t)
    decreases |s|
  {
    if s != [] {
      var x := s[0];
      assert x in s;
      var i :| 0 <= i < |t| && t[i] == x;
      var t' := RemoveAt(t, i);
      forall y | y in s[1..]
        ensures y in t'
      {
        assert y in s && y != x;
      }
      ProductPermutation(s[1..], t');
    }
  }

  lemma ResiduesDistinct(a: nat, p: nat, i: nat, j: nat)
    requires IsPrime(p) && !Divides(p, a) && 1 <= i < j < p
    ensures (a * i) % p != (a * j) % p
  {
    ModSmall(i, p);
    ModSmall(j, p);
    if (a * i) % p == (a * j) % p {
      CancelModPrime(p, a, i, j);
    }
  }

  lemma ResidueNonzero(a: nat, p: nat, i: nat)
    requires IsPrime(p) && !Divides(p, a) && 1 <= i < p
    ensures 1 <= (a * i) % p < p
  {
    ModSmall(i, p);
    if (a * i) % p == 0 {
      EuclidLemma(p, a, i);
    }
  }

  /** Multiplication by a permutes the non-zero residues modulo a prime. */
  lemma ResiduesPermuted(a: nat, p: nat)
    requires IsPrime(p) && !Divides(p, a)
    ensures Product(Residues(a, p - 1, p)) == Product(Residues(1, p - 1, p))
  {
    var s, t := Residues(a, p - 1, p), Residues(1, p - 1, p);
    forall i, j | 0 <= i < j < p - 1
      ensures s[i] != s[j]
    {
      ResiduesDistinct(a, p, i + 1, j + 1);
    }
    forall i | 0 <= i < p - 1
      ensures t[i] == i + 1
    {
      ModSmall(i + 1, p);
    }
    forall x | x in s
      ensures x in t
    {
      var i :| 0 <= i < |s| && s[i] == x;
      ResidueNonzero(a, p, i + 1);
      assert t[x - 1] == x;
    }
    ProductPermutation(s, t);
  }

  /** Fermat's little theorem. */
  lemma Fermat(a: nat, p: nat)
    requires IsPrime(p) && !Divides(p, a)
    ensures Pow(a, p - 1) % p == 1
  {
    var F := Product(Residues(1, p - 1, p));
    ResiduesProduct(a, p - 1, p);
    ResiduesPermuted(a, p);
    assert F * Pow(a, p - 1) == Pow(a, p - 1) * F;
    CancelModPrime(p, F, 1, Pow(a, p - 1));
    ModSmall(1, p);
  }

  /** Modulo a prime, 1 has only the square roots 1 and -1. */
  lemma SquareRootOfOne(p: int, y: int)
    requires IsPrime(p) && 0 <= y < p && (y * y) % p == 1
    ensures y == 1 || y == p - 1
  {
    ModSmall(1, p);
    CongSub(y * y, 1, p);
    if y == 0 { ModSmall(0, p); }
    assert y * y - 1 == (y - 1) * (y + 1);
    EuclidLemma(p, y - 1, y + 1);
    if Divides(p, y - 1) {
      if y != 1 { DividesLe(p, y - 1); }
    } else {
      DividesLe(p, y + 1);
    }
  }

  // ----- Lucas' theorem

  /** a^m is 1 modulo n. */
  predicate PowIsOne(a: int, m: nat, n: int)
    requires 0 < n
  {
    Pow(a, m) % n == 1
  }

  /** The least positive exponent that gives 1. */
  lemma LeastOrder(a: int, n: int, m: nat) returns (o: nat)
    requires 2 <= n && 1 <= m && PowIsOne(a, m, n)
    ensures 1 <= o <= m && PowIsOne(a, o, n)
    ensures forall i :: 1 <= i < o ==> !PowIsOne(a, i, n)
  {
    o := 1;
    while !PowIsOne(a, o, n)
      invariant 1 <= o <= m
      invariant forall i :: 1 <= i < o ==> !PowIsOne(a, i, n)
      decreases m - o
    {
      o := o + 1;
    }
  }

  /** If a^o = 1 then a^(o*k) = 1. */
  lemma PowMultipleIsOne(a: int, n: int, o: nat, k: nat)
    requires 2 <= n && PowIsOne(a, o, n)
    ensures 0 <= o * k && PowIsOne(a, o * k, n)
  {
    PowMul(a, o, k);
    ModSmall(1, n);
    PowCong(Pow(a, o), 1, k, n);
    PowOne(k);
  }

  lemma PowDropOne(a: int, n: int, k: nat, r: nat)
    requires 2 <= n && PowIsOne(a, k, n)
    ensures PowIsOne(a, k + r, n) <==> PowIsOne(a, r, n)
  {
    PowAdd(a, k, r);
    ModSmall(1, n);
    CongMul(Pow(a, k), 1, Pow(a, r), n);
  }

  /** If a^m = 1 and a^o = 1 with o least, then o divides m. */
  lemma OrderDivides(a: int, n: int, o: nat, m: nat)
    requires 2 <= n && 1 <= o && PowIsOne(a, o, n) && PowIsOne(a, m, n)
    requires forall i :: 1 <= i < o ==> !PowIsOne(a, i, n)
    ensures Divides(o, m)
  {
    var q, r := m / o, m % o;
    assert 0 <= q;
    PowMultipleIsOne(a, n, o, q);
    PowDropOne(a, n, o * q, r);
    assert m == o * q + r;
  }

  /** A proper divisor o of m divides m / p for some prime divisor p of m. */
  lemma ProperDivisor(o: nat, m: nat) returns (p: int, k: nat)
    requires 1 <= o < m && Divides(o, m)
    ensures IsPrime(p) && Divides(p, m) && m / p == o * k
  {
    ExactQuotient(o, m);
    var c := m / o;
    p := PrimeDivisor(c);
    DividesTrans(p, c, m);
    ExactQuotient(p, c);
    k := c / p;
    assert m == o * (p * k) == (o * k) * p;
    ModOfMultiple(o * k, p);
  }

  /** Under the hypotheses of Lucas' theorem, a has order n - 1 modulo n. */
  lemma FullOrder(n: int, a: int)
    requires 2 <= n && PowIsOne(a, n - 1, n)
    requires forall p :: IsPrime(p) && Divides(p, n - 1) ==> !PowIsOne(a, (n - 1) / p, n)
    ensures forall i :: 1 <= i < n - 1 ==> !PowIsOne(a, i, n)
  {
    var o := LeastOrder(a, n, n - 1);
    if o < n - 1 {
      OrderDivides(a, n, o, n - 1);
      var p, k := ProperDivisor(o, n - 1);
      PowMultipleIsOne(a, n, o, k);
      assert false;
    }
  }

  /** The set of the first k powers of a modulo n. */
  ghost function PowerSet(a: int, n: int, k: nat): set<int>
    requires 0 < n
  {
    set i | 0 <= i < k :: Pow(a, i) % n
  }

  lemma PowersDistinct(a: int, n: int, i: nat, j: nat)
    requires 2 <= n && i < j < n - 1 && PowIsOne(a, n - 1, n)
    requires forall m :: 1 <= m < n - 1 ==> !PowIsOne(a, m, n)
    ensures Pow(a, i) % n != Pow(a, j) % n
  {
    if Pow(a, i) % n == Pow(a, j) % n {
      PowCancel(a, n, i, j);
      assert false;
    }
  }

  lemma PowShift(a: int, n: int, i: nat, j: nat, c: nat)
    requires 0 < n && Pow(a, i) % n == Pow(a, j) % n
    ensures Pow(a, i + c) % n == Pow(a, j + c) % n
  {
    PowAdd(a, i, c);
    PowAdd(a, j, c);
    CongMul(Pow(a, i), Pow(a, j), Pow(a, c), n);
  }

  /** Equal powers of a unit differ by a multiple of its order. */
  lemma PowCancel(a: int, n: int, i: nat, j: nat)
    requires 2 <= n && i <= j && i <= n - 1 && PowIsOne(a, n - 1, n)
    requires Pow(a, i) % n == Pow(a, j) % n
    ensures PowIsOne(a, j - i, n)
  {
    hide Pow;
    PowShift(a, n, i, j, n - 1 - i);
    assert i + (n - 1 - i) == n - 1 && j + (n - 1 - i) == n - 1 + (j - i);
    PowDropOne(a, n, n - 1, j - i);
  }

  lemma {:induction false} PowerSetSize(a: int, n: int, k: nat)
    requires 2 <= n && k <= n - 1 && PowIsOne(a, n - 1, n)
    requires forall m :: 1 <= m < n - 1 ==> !PowIsOne(a, m, n)
    ensures |PowerSet(a, n, k)| == k
  {
    if k != 0 {
      PowerSetSize(a, n, k - 1);
      var x := Pow(a, k - 1) % n;
      assert PowerSet(a, n, k) == PowerSet(a, n, k - 1) + {x};
      if x in PowerSet(a, n, k - 1) {
        var i :| 0 <= i < k - 1 && Pow(a, i) % n == x;
        PowersDistinct(a, n, i, k - 1);
        assert false;
      }
    } else {
      assert PowerSet(a, n, 0) == {};
    }
  }

  /** The set of the numbers from 1 to k. */
  ghost function UpTo(k: nat): (s: set<int>)
    ensures |s| == k && forall x :: x in s <==> 1 <= x <= k
  {
    if k == 0 then {} else UpTo(k - 1) + {k}
  }

  /** The powers of a unit are units: none of them is a proper divisor of n. */
  lemma PowerNotDivisor(a: int, n: int, i: nat, d: int)
    requires 2 <= n && 0 <= i <= n - 1 && PowIsOne(a, n - 1, n)
    requires d == Pow(a, i) % n && Divides(d, n) && 0 <= d
    ensures d == 1
  {
    PowAdd(a, i, n - 1 - i);
    var c := Pow(a, n - 1 - i);
    ModMul(Pow(a, i), c, n);
    assert (d * c) % n == 1;
    var k := (d * c) / n;
    assert d * c == k * n + 1;
    DividesIntro(d, c);
    DividesMul(d, n, k);
    DividesAdd(d, k * n, 1);
    DividesLe(d, 1);
  }

  /** Lucas: a number a of order n - 1 modulo n proves n prime. */
  lemma Lucas(n: int, a: int)
    requires 2 <= n && PowIsOne(a, n - 1, n)
    requires forall p :: IsPrime(p) && Divides(p, n - 1) ==> !PowIsOne(a, (n - 1) / p, n)
    ensures IsPrime(n)
  {
    FullOrder(n, a);
    PowerSetSize(a, n, n - 1);
    var S, T := PowerSet(a, n, n - 1), UpTo(n - 1);
    forall x | x in S ensures x in T {
      var i :| 0 <= i < n - 1 && x == Pow(a, i) % n;
      if x == 0 {
        PowAdd(a, i, n - 1 - i);
        ModMul(Pow(a, i), Pow(a, n - 1 - i), n);
        ModSmall(0, n);
      }
    }
    assert S + (T - S) == T;
    assert |T - S| == 0;
    forall d | 2 <= d < n
      ensures !Divides(d, n)
    {
      if Divides(d, n) {
        assert d in S;
        var i :| 0 <= i < n - 1 && d == Pow(a, i) % n;
        PowerNotDivisor(a, n, i, d);
        assert false;
      }
    }
  }
}
