/**
 The primality proof and the factorisation of factor.c, which call each other: prime_p proves a number prime from the
 factors of its predecessor, and the factorisation asks prime_p about every factor it finds.
 */
module Factoring {
  import opened Arith
  import opened NumberTheory
  import opened Words
  import opened BinaryGcd
  import opened Montgomery
  import opened MillerRabin
  import opened FactorList
  import opened TrialDivision

  /** How a call ends: it returns, it stops in an assertion or abort, or a search loop uses up its fuel. */
  datatype Outcome = Returned | Aborted | OutOfFuel

  // ----- facts about numbers without small prime divisors

  lemma RoughOdd(n: int)
    requires Rough(n) || (IsPrime(n) && 2 < n)
    ensures n % 2 == 1
  {
    TwoIsPrime();
    assert !Divides(2, n);
  }

  lemma RoughDivisor(n: int, g: int)
    requires Rough(n) && 1 <= g && Divides(g, n)
    ensures Rough(g)
  {
    forall q | IsPrime(q) && q < FIRST_OMITTED_PRIME ensures !Divides(q, g) {
      if Divides(q, g) { DividesTrans(q, g, n); }
    }
  }

  lemma BelowSquareIsPrime(n: int)
    requires 2 <= n < FIRST_OMITTED_PRIME * FIRST_OMITTED_PRIME && (IsPrime(n) || Rough(n))
    ensures IsPrime(n)
  {
    if Rough(n) { NoSmallDivisor(n, FIRST_OMITTED_PRIME); }
  }

  // ----- the redc form of the bases

  lemma RedcOfOne(n: int, q: int, r: int)
    requires 2 <= n && 0 <= r < n && Join(1, 0) == Mul(q, n) + r
    ensures r == Mont(1, n)
  {
    DivModMul(B, n, q, r);
  }

  lemma RedcOfTwo(n: int, one: int)
    requires 2 <= n && one == Mont(1, n)
    ensures (one + one) % n == Mont(2, n)
  {
    ModAdd(B, B, n);
  }

  lemma RedcOfBase(n: int, one: int, a: int)
    requires 2 <= n && one == Mont(1, n)
    ensures Mul(one, a) % n == Mont(a, n)
  {
    ModMulLeft(B, a, n);
  }

  /** The redc form of the base a, computed from that of 1. */
  method Redcify(n: Word, one: Word, a: Word) returns (r: Word)
    requires 2 <= n && one == Mont(1, n)
    ensures r == Mont(a, n)
  {
    hide Mont, Mul;
    RedcOfBase(n, one, a);
    MontSmall(1, n);
    var s1: Word, s0: Word := UmulPpmm(one, a);
    HighBelow(one, a, n, s1, s0);
    if s1 == 0 {
      JoinParity(s1, s0);
      r := s0 % n;
    } else {
      var q;
      q, r := UdivQrnnd(s1, s0, n);
      DivModMul(Join(s1, s0), n, q, r);
    }
  }

  lemma HighBelow(one: Word, a: Word, n: Word, s1: Word, s0: Word)
    requires one < n && Join(s1, s0) == Mul(one, a)
    ensures s1 < n
  {
    MulBound(one, a, n - 1, B);
  }

  // ----- Lucas' test

  /** a^((n-1)/p) differs from 1 for the listed prime factors p of n - 1. */
  ghost predicate LucasHolds(s: seq<Entry>, a: int, n: int)
    requires 2 <= n && PrimePowers(s)
  {
    forall i :: 0 <= i < |s| ==> s[i].p != 0 && 0 <= (n - 1) / s[i].p && !PowIsOne(a, (n - 1) / s[i].p, n)
  }

  lemma LucasProves(s: seq<Entry>, a: int, n: int)
    requires 2 <= n && PrimePowers(s) && EntriesProduct(s) == n - 1
    requires PowIsOne(a, n - 1, n) && LucasHolds(s, a, n)
    ensures IsPrime(n)
  {
    forall p | IsPrime(p) && Divides(p, n - 1) ensures !PowIsOne(a, (n - 1) / p, n) {
      PrimeIsListed(s, p);
    }
    Lucas(n, a);
  }

  lemma PowerIsOne(n: int, ni: int, a: int, e: nat)
    requires 2 <= n && IsInverse(ni, n, B)
    ensures Mont(Pow(a, e), n) == Mont(1, n) <==> PowIsOne(a, e, n)
  {
    MontInjective(Pow(a, e), 1, n, ni);
    ModSmall(1, n);
  }

  /** The inner loop of prime_p: the Lucas condition for all recorded factors. */
  method LucasTest(n: Word, ni: Word, one: Word, b: Word, factors: Factors, ghost a: int) returns (isPrime: bool)
    requires 2 <= n && IsInverse(ni, n, B) && one == Mont(1, n) && b == Mont(a, n) && factors.Valid()
    ensures isPrime <==> LucasHolds(factors.Entries(), a, n)
  {
    hide IsInverse, Mont, IsPrime, Pow, PowIsOne, Increasing;
    isPrime := true;
    var i := 0;
    while i < factors.nfactors && isPrime
      invariant 0 <= i <= factors.nfactors
      invariant isPrime <==> LucasHolds(factors.Entries()[..i], a, n)
    {
      var p := factors.entry[i].p;
      PrimeAtLeastTwo(p);
      assert factors.Entries()[i].p == p;
      assert factors.Entries()[..i + 1] == factors.Entries()[..i] + [factors.Entries()[i]];
      QuotientIsWord(n - 1, p);
      var y := Powm(b, (n - 1) / p, n, ni, one, a);
      PowerIsOne(n, ni, a, (n - 1) / p);
      isPrime := y != one;
      i := i + 1;
    }
    assert factors.Entries()[..factors.nfactors] == factors.Entries();
    if !isPrime { LucasPrefix(factors.Entries(), i, a, n); }
  }

  lemma LucasPrefix(s: seq<Entry>, i: nat, a: int, n: int)
    requires 2 <= n && i <= |s| && PrimePowers(s)
    ensures PrimePowers(s[..i]) && (LucasHolds(s, a, n) ==> LucasHolds(s[..i], a, n))
  {}

  lemma QuotientIsWord(m: Word, p: int)
    requires 2 <= p
    ensures 0 <= m / p <= m
  {
    var k := m / p;
    assert m == k * p + m % p;
    if k < 0 { MulLe(k, -1, p); assert false; }
    MulLe(1, p, k);
  }

  /** A recorded value below the word base uses no two-word factor. */
  lemma NoLargeFactor(s: seq<Entry>, large: int)
    requires PrimePowers(s) && (large == 1 || B <= large) && Mul(EntriesProduct(s), large) < B
    ensures large == 1
  {
    ProductPositive(s);
    MulLe(1, EntriesProduct(s), large);
  }

  // ----- prime_p

  lemma LucasConclusion(f: Factors, a: int, n: Word)
    requires 2 <= n && f.Valid() && f.Value() == n - 1 && LucasHolds(f.Entries(), a, n) && PowIsOne(a, n - 1, n)
    ensures IsPrime(n)
  {
    NoLargeFactor(f.Entries(), f.Large());
    LucasProves(f.Entries(), a, n);
  }

  lemma SmallBase(n: int, a: int)
    requires 0 < a < n
    ensures !Divides(n, a)
  {
    ModSmall(a, n);
  }

  /** The outer loop of prime_p: new bases until Lucas proves n prime or Miller-Rabin proves it composite. */
  method LucasLoop(tab: PrimeTable, n: Word, ni: Word, one: Word, b0: Word, q: Word, k: nat, factors: Factors)
    returns (o: Outcome, r: bool)
    requires tab.Valid() && FIRST_OMITTED_PRIME < n && IsInverse(ni, n, B) && 0 < k && n - 1 == Mul(q, Pow(2, k))
    requires one == Mont(1, n) && b0 == Mont(2, n) && PowIsOne(2, n - 1, n)
    requires factors.Valid() && factors.Value() == n - 1
    ensures o.Returned? ==> (r <==> IsPrime(n))
  {
    hide IsPrime, PrimeTable.Valid, PrimeTable.Prime, IsInverse, Mont, Mul, Pow, PowIsOne, LucasHolds, Divides, Factors.Valid, Factors.Value, Wrap;
    TableSize(tab);
    var a: Word, b: Word := 2, b0;
    for i := 0 to tab.Size()
      invariant b == Mont(a, n) && PowIsOne(a, n - 1, n)
      invariant a == if i == 0 then 2 else tab.Prime(i - 1)
    {
      var isPrime := LucasTest(n, ni, one, b, factors, a);
      if isPrime {
        LucasConclusion(factors, a, n);
        return Returned, true;
      }
      TableEntry(tab, i);
      NextBase(tab, i);
      WrapSmall(a + tab.diff[i]);
      a := Wrap(a + tab.diff[i]);
      b := Redcify(n, one, a);
      SmallBase(n, a);
      var mr := Millerrabin(n, ni, b, q, k, one, a);
      if !mr {
        return Returned, false;
      }
    }
    return Aborted, false;
  }

  /** 1 and 2 in redc form. */
  method RedcOneTwo(n: Word) returns (one: Word, b: Word)
    requires 3 <= n
    ensures one == Mont(1, n) && b == Mont(2, n)
  {
    hide Mont;
    var dummy;
    dummy, one := UdivQrnnd(1, 0, n);
    RedcOfOne(n, dummy, one);
    RedcOfTwo(n, one);
    b := Addmod(one, one, n);
  }

  /** The precomputation of prime_p: n - 1 = q 2^k, the inverse of n, and 1 and 2 in redc form. */
  method Precompute(n: Word) returns (q: Word, k: nat, ni: Word, one: Word, b: Word)
    requires 3 <= n && n % 2 == 1
    ensures IsInverse(ni, n, B) && 0 < k && n - 1 == Mul(q, Pow(2, k))
    ensures one == Mont(1, n) && b == Mont(2, n)
  {
    hide IsInverse, Mont, Mul, Pow;
    q, k := StripTwos(n - 1);
    PowersOfTwo(n, q, k);
    ni := Binv(n);
    one, b := RedcOneTwo(n);
  }

  /** prime_p, with primality proving on: it answers true exactly for the primes. */
  method PrimeP(tab: PrimeTable, n: Word, fuel: nat) returns (o: Outcome, r: bool)
    requires tab.Valid() && (n <= 1 || IsPrime(n) || Rough(n))
    ensures o.Returned? ==> (r <==> IsPrime(n))
    decreases n, 0, 0, fuel
  {
    hide IsPrime, Rough, PrimeTable.Valid, IsInverse, Mont, Mul, Pow, PowIsOne, Divides, Factors.Value;
    if n <= 1 {
      NotPrime(n);
      return Returned, false;
    }
    if n < FIRST_OMITTED_PRIME * FIRST_OMITTED_PRIME {
      BelowSquareIsPrime(n);
      return Returned, true;
    }
    RoughOdd(n);
    var q, k, ni, one, b := Precompute(n);
    SmallBase(n, 2);
    var mr := Millerrabin(n, ni, b, q, k, one, 2);
    if !mr {
      return Returned, false;
    }
    var factors := new Factors();
    JoinParity(0, n - 1);
    o := Factor(tab, 0, n - 1, factors, fuel);
    if !o.Returned? {
      return o, false;
    }
    o, r := LucasLoop(tab, n, ni, one, b, q, k, factors);
  }

  lemma NotPrime(n: int)
    requires n <= 1
    ensures !IsPrime(n)
  {}

  lemma PowersOfTwo(n: int, q: int, k: nat)
    requires n % 2 == 1 && n - 1 == q * Pow(2, k)
    ensures n - 1 == Mul(q, Pow(2, k))
  {}

  lemma NextBase(tab: PrimeTable, i: nat)
    requires tab.Valid() && i < tab.Size()
    ensures tab.Prime(i) == (if i == 0 then 2 else tab.Prime(i - 1)) + tab.diff[i]
  {}

  /** prime2_p: exact on one word; on two words the model lets the answer be anything. */
  method Prime2P(tab: PrimeTable, n1: Word, n0: Word, fuel: nat) returns (o: Outcome, r: bool)
    requires tab.Valid() && (n1 == 0 ==> n0 <= 1 || IsPrime(n0) || Rough(n0))
    ensures o.Returned? && n1 == 0 ==> (r <==> IsPrime(n0))
    decreases Join(n1, n0), 1, 0, fuel
  {
    if n1 == 0 {
      o, r := PrimeP(tab, n0, fuel);
    } else {
      o := *;
      r := *;
    }
  }

  // ----- Pollard's rho, one word

  /** x^2 + a modulo n in the residue domain. */
  method RhoStep(x: Word, a: Word, n: Word, ni: Word) returns (r: Word)
    requires x < n && a < n && IsInverse(ni, n, B)
    ensures r < n && Cong((r - a) * B, Mul(x, x), n)
  {
    hide IsInverse, Mul, Cong;
    ProductFits(x, x, n);
    var t := Mulredc(x, x, n, ni);
    r := Addmod(t, a, n);
    StepCong(t, a, r, Mul(x, x), n);
  }

  lemma StepCong(t: int, a: int, r: int, square: int, n: int)
    requires 0 < n && r == (t + a) % n && Cong(t * B, square, n)
    ensures Cong((r - a) * B, square, n)
  {
    ModAddLeft(t + a, -a, n);
    CongMul(r - a, t, B, n);
  }

  lemma ProductFits(x: Word, y: Word, n: Word)
    requires x < n
    ensures Mul(x, y) < n * B && Mul(y, x) < n * B
  {
    MulBound(x, y, n - 1, B);
  }

  /** The search loop: it ends when the accumulated product P shares a factor with n. */
  method RhoSearch(n: Word, ni: Word, a: Word, x0: Word, z0: Word, y0: Word, P0: Word, k0: Word, l0: Word, fuel: nat)
    returns (found: bool, x: Word, z: Word, y: Word, P: Word, k: Word, l: Word)
    requires n % 2 == 1 && IsInverse(ni, n, B) && a < n && x0 < n && z0 < n && y0 < n
    ensures x < n && z < n && y < n && (found ==> !IsGcd(1, P, n))
  {
    hide IsInverse, IsGcd, Mul, Cong;
    x, z, y, P, k, l := x0, z0, y0, P0, k0, l0;
    var steps := fuel;
    while steps > 0
      invariant x < n && z < n && y < n
      decreases steps
    {
      var more := true;
      ghost var before := steps;
      while more && steps > 0
        invariant x < n && z < n && y < n && 0 <= steps <= before && (steps == before ==> more)
        decreases steps
      {
        steps := steps - 1;
        x := RhoStep(x, a, n, ni);
        var t := Submod(z, x, n);
        ProductFits(t, P, n);
        P := Mulredc(P, t, n, ni);
        if k % 32 == 1 {
          var g := GcdOdd(P, n);
          if g != 1 {
            if IsGcd(1, P, n) { GcdUnique(1, g, P, n); }
            found := true;
            return;
          }
          y := x;
        }
        k := Wrap(k - 1);
        more := k != 0;
      }
      if more { break; }
      z := x;
      k := l;
      l := Wrap(2 * l);
      var i := 0;
      while i < k
        invariant x < n && 0 <= i
      {
        x := RhoStep(x, a, n, ni);
        i := i + 1;
      }
      y := x;
    }
    found := false;
  }

  /** The loop at factor_found: replays the steps one at a time until one of them gives a factor above 1. */
  method RhoReplay(n: Word, ni: Word, a: Word, y0: Word, z: Word, fuel: nat) returns (found: bool, y: Word, g: Word)
    requires 1 < n && n % 2 == 1 && IsInverse(ni, n, B) && a < n && y0 < n && z < n
    ensures y < n && (found ==> 1 < g <= n && Divides(g, n))
  {
    hide IsInverse, Divides, Mul, Cong;
    y, g := y0, 1;
    DividesIntro(1, n);
    var steps := fuel;
    while g == 1 && steps > 0
      invariant y < n && 1 <= g <= n && Divides(g, n)
      decreases steps
    {
      steps := steps - 1;
      y := RhoStep(y, a, n, ni);
      var t := Submod(z, y, n);
      g := GcdOdd(t, n);
      GcdBounds(g, t, n);
    }
    found := g != 1;
  }

  lemma GcdBounds(g: int, t: int, n: int)
    requires 1 <= n && IsGcd(g, t, n)
    ensures 1 <= g <= n && Divides(g, n)
  {
    DividesLe(g, n);
  }

  // ----- moving factors

  /** Splitting the cofactor n = g m: after the part g is recorded, m is left. */
  lemma SplitWhole(v: int, g: int, m: int, n: int, whole: int)
    requires 1 <= v && 1 <= m && 1 <= g && n == Mul(m, g) && Mul(v, n) == whole
    ensures Mul(v, g) <= whole && Mul(Mul(v, g), m) == whole
  {
    MulPos(v, g);
    MulLe(1, m, v * g);
    assert v * (m * g) == v * g * m;
  }

  lemma WholeDone(f: Factors, whole: int)
    requires f.Valid() && f.Value() == whole < LIMIT
    ensures Balanced(f, 1, whole)
  {
    f.ValuePositive();
  }

  lemma BalancedParts(f: Factors, g: int, m: int, n: int, whole: int)
    requires Balanced(f, n, whole) && 1 <= m && 1 <= g && n == Mul(m, g)
    ensures Balanced(f, g, Mul(f.Value(), g)) && Mul(Mul(f.Value(), g), m) == whole && whole < LIMIT
  {
    f.ValuePositive();
    SplitWhole(f.Value(), g, m, n, whole);
  }

  lemma BalancedJoin(f: Factors, part: int, m: int, whole: int)
    requires Balanced(f, 1, part) && Mul(part, m) == whole < LIMIT && 1 <= m
    ensures Balanced(f, m, whole)
  {}

  lemma BalancedBound(f: Factors, n: int, whole: int)
    requires Balanced(f, n, whole)
    ensures 1 <= n <= whole
  {
    f.ValuePositive();
    MulLe(1, f.Value(), n);
  }

  lemma RoughQuotient(n: Word, g: Word)
    requires Rough(n) && 1 < g < n && Divides(g, n)
    ensures Rough(g) && Rough(n / g) && n == Mul(n / g, g) && 2 <= n / g < n
  {
    hide Rough, IsPrime, Divides;
    ExactQuotient(g, n);
    RoughDivisor(n, g);
    RoughDivisor(n, n / g);
  }

  /** Records a found factor g of n = g m: directly when it is prime, otherwise by factoring it. */
  method RecordFactor(tab: PrimeTable, g: Word, a: Word, f: Factors, fuel: nat, ghost m: int, ghost n: int, ghost whole: int)
    returns (o: Outcome)
    requires tab.Valid() && Rough(g) && 2 <= g && 1 <= m && n == Mul(m, g) && Balanced(f, n, whole)
    modifies f, f.entry
    ensures f.Shape()
    ensures o.Returned? ==> Balanced(f, m, whole)
    decreases g, 3, 0, fuel
  {
    hide IsPrime, Rough, PrimeTable.Valid, Mul, Balanced;
    ShapeOf(f, n, whole);
    var prime;
    o, prime := PrimeP(tab, g, fuel);
    if !o.Returned? { return; }
    if !prime {
      BalancedParts(f, g, m, n, whole);
      ghost var part := Mul(f.Value(), g);
      o := FactorUsingPollardRho(tab, g, a, f, fuel, part);
      if o.Returned? { BalancedJoin(f, part, m, whole); }
    } else {
      TakeFactor(f, g, m, n, whole);
      ShapeOf(f, m, whole);
    }
  }

  lemma ShapeOf(f: Factors, n: int, whole: int)
    requires Balanced(f, n, whole)
    ensures f.Shape()
  {}

  method FactorUsingPollardRho(tab: PrimeTable, n0: Word, a: Word, f: Factors, fuel: nat, ghost whole: int)
    returns (o: Outcome)
    requires tab.Valid() && Rough(n0) && 2 <= n0 && Balanced(f, n0, whole)
    modifies f, f.entry
    ensures f.Shape()
    ensures o.Returned? ==> Balanced(f, 1, whole)
    decreases n0, 2, if a < n0 then n0 - a else 0, fuel
  {
    hide IsPrime, Rough, PrimeTable.Valid, Mul, Balanced, IsInverse, Divides;
    ShapeOf(f, n0, whole);
    var n: Word := n0;
    RoughOdd(n);
    var k: Word, l: Word := 1, 1;
    var dummy, P := UdivQrnnd(1, 0, n);
    var x: Word := Addmod(P, P, n);
    var y: Word, z: Word := x, x;
    while n != 1
      invariant 1 <= n <= n0 && Rough(n) && Balanced(f, n, whole)
      invariant x < n && y < n && z < n && f.Shape()
      decreases n
    {
      if a >= n {
        return Aborted;              // assert (a < n)
      }
      RoughOdd(n);
      var ni := Binv(n);
      var found, g;
      found, x, z, y, P, k, l := RhoSearch(n, ni, a, x, z, y, P, k, l, fuel);
      if !found { return OutOfFuel; }
      found, y, g := RhoReplay(n, ni, a, y, z, fuel);
      if !found { return OutOfFuel; }
      if n == g {
        o := FactorUsingPollardRho(tab, n, a + 1, f, fuel, whole);
        return;
      }
      RoughQuotient(n, g);
      ghost var N := n;
      n := n / g;
      o := RecordFactor(tab, g, a + 1, f, fuel, n, N, whole);
      if !o.Returned? { return; }
      var prime;
      o, prime := PrimeP(tab, n, fuel);
      if !o.Returned? { return; }
      if prime {
        MulZero(n);
        TakeFactor(f, n, 1, n, whole);
        ShapeOf(f, 1, whole);
        return;
      }
      x, z, y := x % n, z % n, y % n;
      ShapeOf(f, n, whole);
    }
    return Returned;
  }

  // ----- Pollard's rho, two words

  /**
   The search of factor_using_pollard_rho2 for a divisor above 1.  The two-word residues that it takes the gcd of
   are arbitrary here: what is found is a divisor of n whatever they are.
   */
  method Rho2Search(n1: Word, n0: Word, fuel: nat) returns (found: bool, g1: Word, g0: Word)
    requires n0 % 2 == 1
    ensures found ==> var g, n := Join(g1, g0), Join(n1, n0); 1 < g <= n && Divides(g, n)
  {
    hide Divides, Join, IsGcd;
    JoinParity(n1, n0);
    g1, g0 := 0, 1;
    JoinParity(0, 1);
    DividesIntro(1, Join(n1, n0));
    var steps := fuel;
    while g1 == 0 && g0 == 1 && steps > 0
      invariant 1 <= Join(g1, g0) <= Join(n1, n0) && Divides(Join(g1, g0), Join(n1, n0))
      decreases steps
    {
      steps := steps - 1;
      var t1: Word, t0: Word := *, *;
      g1, g0 := Gcd2Odd(t1, t0, n1, n0);
      GcdBounds(Join(g1, g0), Join(t1, t0), Join(n1, n0));
    }
    found := g1 != 0 || g0 != 1;
    JoinIsOne(g1, g0);
  }

  lemma JoinIsOne(h: Word, l: Word)
    ensures Join(h, l) == 1 <==> h == 0 && l == 1
  {}

  lemma RoughQuotient2(n: int, g: int, m: int)
    requires Rough(n) && 1 < g < n && Divides(g, n) && n == Mul(m, g)
    ensures Rough(g) && Rough(m) && 2 <= m < n && g % 2 == 1
  {
    ModOfMultiple(m, g);
    ExactQuotient(g, n);
    RoughDivisor(n, g);
    RoughDivisor(n, m);
    RoughOdd(g);
  }

  lemma QuotientFits(m: int, g: int, n: int)
    requires B <= g && 0 <= n < B * B && n == m * g
    ensures 0 <= m < B
  {
    if m < 0 { MulLe(m, -1, g); assert false; }
    if B <= m { MulBound(B, B, m, g); assert false; }
  }

  /** The quotient of n by a two-word divisor g fits a word and is found from the low words alone. */
  lemma LowQuotient(n1: Word, n0: Word, g1: Word, g0: Word, ginv: Word)
    requires 0 < g1 && Divides(Join(g1, g0), Join(n1, n0)) && IsInverse(ginv, g0, B)
    ensures Join(n1, n0) == Mul(Wrap(Mul(ginv, n0)), Join(g1, g0))
  {
    var n, g := Join(n1, n0), Join(g1, g0);
    var m := DividesElim(g, n);
    QuotientFits(m, g, n);
    LowProduct(g1, g0, m);
    assert g0 * m == m * g0 && Mul(g, m) == m * g == Mul(m, g) && Mul(ginv, n0) == Mul(n0, ginv);
    hide Mul, IsInverse, Divides;
    assert n % B == n0;
    ExactLowWord(m, g0, ginv, n0);
  }

  /** Records a found two-word factor g of n = g m: as the large factor if it is taken for prime. */
  method RecordLarge(tab: PrimeTable, g1: Word, g0: Word, a: Word, f: Factors, fuel: nat, ghost m: int, ghost n: int, ghost whole: int)
    returns (o: Outcome)
    requires tab.Valid() && 0 < g1 && Rough(Join(g1, g0)) && 1 <= m && n == Mul(m, Join(g1, g0)) && Balanced(f, n, whole)
    modifies f, f.entry
    ensures f.Shape()
    ensures o.Returned? ==> Balanced(f, m, whole)
    decreases Join(g1, g0), 6, 0, fuel
  {
    hide IsPrime, Rough, PrimeTable.Valid, Mul, Balanced, Join;
    ShapeOf(f, n, whole);
    JoinParity(g1, g0);
    var prime;
    o, prime := Prime2P(tab, g1, g0, fuel);
    if !o.Returned? { return; }
    BalancedParts(f, Join(g1, g0), m, n, whole);
    ghost var part := Mul(f.Value(), Join(g1, g0));
    if !prime {
      o := FactorUsingPollardRho2(tab, g1, g0, a, f, fuel, part);
      if o.Returned? { BalancedJoin(f, part, m, whole); }
    } else {
      TakeLarge(f, g1, g0, part);
      BalancedJoin(f, part, m, whole);
      ShapeOf(f, m, whole);
    }
  }

  method TakeLarge(f: Factors, g1: Word, g0: Word, ghost whole: int)
    requires Balanced(f, Join(g1, g0), whole) && (g1 == 0 ==> IsPrime(g0))
    modifies f, f.entry
    ensures Balanced(f, 1, whole)
  {
    hide IsPrime, Mul, Join;
    f.InsertLarge(g1, g0);
    WholeDone(f, whole);
  }

  method FactorUsingPollardRho2(tab: PrimeTable, x1: Word, x0: Word, a: Word, f: Factors, fuel: nat, ghost whole: int)
    returns (o: Outcome)
    requires tab.Valid() && 0 < x1 && Rough(Join(x1, x0)) && Balanced(f, Join(x1, x0), whole)
    modifies f, f.entry
    ensures f.Shape()
    ensures o.Returned? ==> Balanced(f, 1, whole)
    decreases Join(x1, x0), 5, 0, fuel
  {
    hide IsPrime, Rough, PrimeTable.Valid, Mul, Balanced, IsInverse, Divides, Join, Wrap;
    ShapeOf(f, Join(x1, x0), whole);
    if fuel == 0 { return OutOfFuel; }
    var n1, n0 := x1, x0;
    while true
      invariant 0 < n1 && Join(n1, n0) <= Join(x1, x0) && Rough(Join(n1, n0)) && Balanced(f, Join(n1, n0), whole)
      invariant f.Shape()
      decreases Join(n1, n0)
    {
      RoughOdd(Join(n1, n0));
      JoinParity(n1, n0);
      var found, g1, g0 := Rho2Search(n1, n0, fuel);
      if !found { return OutOfFuel; }
      JoinParity(g1, g0);
      ghost var N, G := Join(n1, n0), Join(g1, g0);
      if g1 == 0 {
        LowBelow(g0, n1, n0);
        RoughDivisor(N, G);
        RoughOdd(G);
        n1, n0 := Divexact21(n1, n0, g0);
        RoughQuotient2(N, G, Join(n1, n0));
        o := RecordFactor(tab, g0, Wrap(a + 1), f, fuel, Join(n1, n0), N, whole);
        if !o.Returned? { return; }
      } else {
        if n1 == g1 && n0 == g0 {
          o := FactorUsingPollardRho2(tab, n1, n0, Wrap(a + 1), f, fuel - 1, whole);
          return;
        }
        JoinDistinct(g1, g0, n1, n0);
        RoughDivisor(N, G);
        RoughOdd(G);
        var ginv := Binv(g0);
        LowQuotient(n1, n0, g1, g0, ginv);
        n0 := Wrap(Mul(ginv, n0));
        n1 := 0;
        JoinParity(n1, n0);
        RoughQuotient2(N, G, Join(n1, n0));
        o := RecordLarge(tab, g1, g0, Wrap(a + 1), f, fuel, Join(n1, n0), N, whole);
        if !o.Returned? { return; }
      }
      JoinParity(n1, n0);
      ShapeOf(f, Join(n1, n0), whole);
      var prime;
      if n1 == 0 {
        o, prime := PrimeP(tab, n0, fuel);
        if !o.Returned? { return; }
        if prime {
          MulZero(n0);
          TakeFactor(f, n0, 1, n0, whole);
          ShapeOf(f, 1, whole);
          return;
        }
        o := FactorUsingPollardRho(tab, n0, a, f, fuel, whole);
        return;
      }
      o, prime := Prime2P(tab, n1, n0, fuel);
      if !o.Returned? { return; }
      if prime {
        TakeLarge(f, n1, n0, whole);
        ShapeOf(f, 1, whole);
        return;
      }
    }
  }

  lemma LowBelow(g: Word, n1: Word, n0: Word)
    requires 0 < n1
    ensures g < Join(n1, n0)
  {}

  lemma JoinDistinct(g1: Word, g0: Word, n1: Word, n0: Word)
    requires !(n1 == g1 && n0 == g0)
    ensures Join(g1, g0) != Join(n1, n0)
  {}

  // ----- factor

  /** factor: the recorded factors multiply to the given number, and those of one word are prime. */
  method Factor(tab: PrimeTable, x1: Word, x0: Word, f: Factors, fuel: nat) returns (o: Outcome)
    requires tab.Valid() && f.Shape()
    modifies f, f.entry
    ensures f.Shape()
    ensures o.Returned? ==> f.Valid() && f.Value() == if Join(x1, x0) == 0 then 1 else Join(x1, x0)
    decreases Join(x1, x0), 7, 0, fuel
  {
    hide IsPrime, Rough, PrimeTable.Valid, Mul, Balanced, Join, Factors.Valid, Factors.Value;
    JoinParity(x1, x0);
    f.Clear();
    if x1 == 0 && x0 < 2 {
      return Returned;
    }
    ghost var whole := Join(x1, x0);
    StartBalance(f, x1, x0);
    var t1, t0 := FactorUsingDivision(tab, x1, x0, f, whole);
    JoinParity(t1, t0);
    ShapeOf(f, Join(t1, t0), whole);
    BalancedBound(f, Join(t1, t0), whole);
    if t1 == 0 && t0 < 2 {
      AllRecorded(f, whole);
      return Returned;
    }
    var prime;
    o, prime := Prime2P(tab, t1, t0, fuel);
    if !o.Returned? { return; }
    if prime {
      TakeLarge(f, t1, t0, whole);
      ShapeOf(f, 1, whole);
    } else if t1 == 0 {
      o := FactorUsingPollardRho(tab, t0, 1, f, fuel, whole);
    } else {
      o := FactorUsingPollardRho2(tab, t1, t0, 1, f, fuel, whole);
    }
    if o.Returned? { AllRecorded(f, whole); }
  }

  lemma StartBalance(f: Factors, x1: Word, x0: Word)
    requires f.Valid() && f.Value() == 1 && 1 <= Join(x1, x0)
    ensures Balanced(f, Join(x1, x0), Join(x1, x0))
  {}

  lemma AllRecorded(f: Factors, whole: int)
    requires Balanced(f, 1, whole)
    ensures f.Valid() && f.Value() == whole
  {}
}
