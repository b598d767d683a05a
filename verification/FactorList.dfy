/**
 The factor record of factor.c: prime factors in increasing order with their multiplicities in two fixed-size arrays,
 and one slot for a factor of two words.
 */
module FactorList {
  import opened Arith
  import opened NumberTheory
  import opened Words

  const MAX_NFACTS: int := 26
  const LIMIT: int := 0x1_0000_0000_0000_0000_0000_0000_0000_0000  // 2^128

  datatype Entry = Entry(p: int, e: int)

  /** A list whose entries all have non-negative multiplicities. */
  ghost predicate HasProduct(s: seq<Entry>) {
    forall i :: 0 <= i < |s| ==> 0 <= s[i].e
  }

  /** The number that a list of prime powers stands for. */
  ghost function EntriesProduct(s: seq<Entry>): int
    requires HasProduct(s)
  {
    if s == [] then 1 else
      var t := s[|s| - 1];
      Mul(EntriesProduct(s[..|s| - 1]), Pow(t.p, t.e))
  }

  ghost predicate Increasing(s: seq<Entry>) {
    forall i, j :: 0 <= i < j < |s| ==> s[i].p < s[j].p
  }

  ghost predicate PrimePowers(s: seq<Entry>) {
    forall i :: 0 <= i < |s| ==> IsPrime(s[i].p) && s[i].p < B && 1 <= s[i].e
  }

  /** The list with m more factors q. */
  function Insert(s: seq<Entry>, q: int, m: int): seq<Entry> {
    if s == [] then [Entry(q, m)]
    else
      var rest, last := s[..|s| - 1], s[|s| - 1];
      if last.p < q then s + [Entry(q, m)]
      else if last.p == q then rest + [Entry(q, last.e + m)]
      else Insert(rest, q, m) + [last]
  }

  // ----- what insertion keeps

  lemma {:induction false} InsertMembers(s: seq<Entry>, q: int, m: int, x: Entry)
    requires x in Insert(s, q, m)
    ensures x in s || x == Entry(q, m) || exists y :: y in s && y.p == q && x == Entry(q, y.e + m)
  {
    if s != [] && q < s[|s| - 1].p && x != s[|s| - 1] {
      InsertMembers(s[..|s| - 1], q, m, x);
    }
  }

  lemma {:induction false} InsertWellFormed(s: seq<Entry>, q: int, m: int)
    requires Increasing(s) && PrimePowers(s) && IsPrime(q) && q < B && 1 <= m
    ensures Increasing(Insert(s, q, m)) && PrimePowers(Insert(s, q, m))
  {
    hide IsPrime;
    if s != [] && q < s[|s| - 1].p {
      var rest := s[..|s| - 1];
      InsertWellFormed(rest, q, m);
      var t := Insert(rest, q, m);
      forall i | 0 <= i < |t| ensures t[i].p < s[|s| - 1].p {
        InsertMembers(rest, q, m, t[i]);
      }
    }
  }

  lemma ProductSnoc(s: seq<Entry>, t: Entry)
    requires HasProduct(s) && 0 <= t.e
    ensures HasProduct(s + [t]) && EntriesProduct(s + [t]) == Mul(EntriesProduct(s), Pow(t.p, t.e))
  {
    assert (s + [t])[..|s|] == s;
  }

  lemma {:induction false} InsertProduct(s: seq<Entry>, q: int, m: nat)
    requires HasProduct(s)
    ensures HasProduct(Insert(s, q, m))
    ensures EntriesProduct(Insert(s, q, m)) == Mul(EntriesProduct(s), Pow(q, m))
  {
    if s == [] {
      ProductSnoc([], Entry(q, m));
    } else {
      var rest, last := s[..|s| - 1], s[|s| - 1];
      var v := EntriesProduct(rest);
      assert s == rest + [last];
      ProductSnoc(rest, last);
      if last.p < q {
        ProductSnoc(s, Entry(q, m));
      } else if last.p == q {
        ProductSnoc(rest, Entry(q, last.e + m));
        PowAdd(q, last.e, m);
        MulAssoc(v, Pow(q, last.e), Pow(q, m));
      } else {
        InsertProduct(rest, q, m);
        ProductSnoc(Insert(rest, q, m), last);
        MulAssoc(v, Pow(q, m), Pow(last.p, last.e));
        MulAssoc(v, Pow(last.p, last.e), Pow(q, m));
      }
    }
  }

  lemma MulAssoc(a: int, b: int, c: int)
    ensures Mul(Mul(a, b), c) == Mul(a, b * c) && b * c == c * b
  {}

  /** Insertion of a new prime between the entries below it and those above it. */
  lemma {:induction false} InsertBetween(a: seq<Entry>, b: seq<Entry>, q: int, m: int)
    requires a != [] ==> a[|a| - 1].p < q
    requires forall j :: 0 <= j < |b| ==> q < b[j].p
    ensures Insert(a + b, q, m) == a + [Entry(q, m)] + b
    decreases |b|
  {
    var s := a + b;
    if b == [] {
      assert s == a;
    } else {
      var c := b[..|b| - 1];
      assert s[..|s| - 1] == a + c;
      InsertBetween(a, c, q, m);
    }
  }

  /** Insertion of a prime that is there already, at position i. */
  lemma {:induction false} InsertMore(s: seq<Entry>, q: int, m: int, i: nat)
    requires i < |s| && s[i].p == q
    requires forall j :: i < j < |s| ==> q < s[j].p
    ensures Insert(s, q, m) == s[i := Entry(q, s[i].e + m)]
  {
    if i < |s| - 1 {
      InsertMore(s[..|s| - 1], q, m, i);
    }
  }

  // ----- the number of factors

  /** The first 27 primes. */
  function SmallPrime(k: nat): int
    requires k <= 26
  {
    match k
    case 0 => 2 case 1 => 3 case 2 => 5 case 3 => 7 case 4 => 11 case 5 => 13 case 6 => 17 case 7 => 19 case 8 => 23
    case 9 => 29 case 10 => 31 case 11 => 37 case 12 => 41 case 13 => 43 case 14 => 47 case 15 => 53 case 16 => 59
    case 17 => 61 case 18 => 67 case 19 => 71 case 20 => 73 case 21 => 79 case 22 => 83 case 23 => 89 case 24 => 97
    case 25 => 101 case _ => 103
  }

  /** There is no prime strictly between neighbours of that list. */
  lemma NextPrime(k: nat, q: int)
    requires k < 26 && IsPrime(q) && SmallPrime(k) < q
    ensures SmallPrime(k + 1) <= q
  {
    assert 2 < q ==> !Divides(2, q);
    assert 3 < q ==> !Divides(3, q);
    assert 5 < q ==> !Divides(5, q);
    assert 7 < q ==> !Divides(7, q);
    hide IsPrime;
    if k < 4 {
    } else if k < 9 {
      NextPrimeBelow30(k, q);
    } else if k < 18 {
      NextPrimeBelow70(k, q);
    } else {
      NextPrimeBelow104(k, q);
    }
  }

  lemma NextPrimeBelow30(k: nat, q: int)
    requires 4 <= k < 9 && SmallPrime(k) < q && q % 2 != 0 && q % 3 != 0 && q % 5 != 0
    ensures SmallPrime(k + 1) <= q
  {}

  lemma NextPrimeBelow70(k: nat, q: int)
    requires 9 <= k < 18 && SmallPrime(k) < q && q % 2 != 0 && q % 3 != 0 && q % 5 != 0 && q % 7 != 0
    ensures SmallPrime(k + 1) <= q
  {}

  lemma NextPrimeBelow104(k: nat, q: int)
    requires 18 <= k < 26 && SmallPrime(k) < q && q % 2 != 0 && q % 3 != 0 && q % 5 != 0 && q % 7 != 0
    ensures SmallPrime(k + 1) <= q
  {}

  function Primorial(k: nat): int
    requires k <= 27
  {
    if k == 0 then 1 else Primorial(k - 1) * SmallPrime(k - 1)
  }

  lemma PrimorialValue()
    ensures LIMIT <= Primorial(27)
  {
    assert Primorial(9) == 223092870;
    assert Primorial(18) == 117288381359406970983270;
    assert Primorial(27) == 23984823528925228172706521638692258396210;
  }

  lemma {:induction false} NthPrimeBound(s: seq<Entry>, i: nat)
    requires Increasing(s) && PrimePowers(s) && i < |s| && i <= 26
    ensures SmallPrime(i) <= s[i].p
  {
    if i != 0 {
      NthPrimeBound(s, i - 1);
      NextPrime(i - 1, s[i].p);
    }
  }

  lemma PrimorialStep(k: nat, v: int, w: int)
    requires 0 < k <= 27 && 1 <= Primorial(k - 1) <= v && SmallPrime(k - 1) <= w
    ensures 1 <= Primorial(k) <= Mul(v, w)
  {
    MulPos(Primorial(k - 1), SmallPrime(k - 1));
    MulBound(Primorial(k - 1), SmallPrime(k - 1), v, w);
  }

  lemma PowerAtLeastBase(p: int, e: nat)
    requires 2 <= p && 1 <= e
    ensures p <= Pow(p, e)
  {
    PowPos(p, e - 1);
    MulLe(1, Pow(p, e - 1), p);
  }

  lemma {:induction false} ProductBound(s: seq<Entry>, k: nat)
    requires Increasing(s) && PrimePowers(s) && k <= |s| && k <= 27
    ensures 1 <= Primorial(k) <= EntriesProduct(s)
  {
    if s != [] {
      var rest, last := s[..|s| - 1], s[|s| - 1];
      var v, w := EntriesProduct(rest), Pow(last.p, last.e);
      assert EntriesProduct(s) == Mul(v, w);
      PrimeAtLeastTwo(last.p);
      PowerAtLeastBase(last.p, last.e);
      if k < |s| {
        ProductBound(rest, k);
        MulLe(1, w, v);
      } else {
        ProductBound(rest, k - 1);
        NthPrimeBound(s, k - 1);
        hide Mul, Primorial, SmallPrime, IsPrime, EntriesProduct, Pow;
        PrimorialStep(k, v, w);
      }
    }
  }

  /** Distinct primes with a product below 2^128 number at most 26. */
  lemma CountBound(s: seq<Entry>)
    requires Increasing(s) && PrimePowers(s) && EntriesProduct(s) < LIMIT
    ensures |s| <= MAX_NFACTS
  {
    if 27 <= |s| {
      ProductBound(s, 27);
      PrimorialValue();
    }
  }

  // ----- single entries

  lemma {:induction false} EntryBound(s: seq<Entry>, i: nat)
    requires PrimePowers(s) && i < |s|
    ensures 1 <= Pow(s[i].p, s[i].e) <= EntriesProduct(s) && 1 <= EntriesProduct(s[..|s| - 1])
  {
    hide IsPrime;
    var rest, last := s[..|s| - 1], s[|s| - 1];
    assert 2 <= last.p && 2 <= s[i].p by { PrimeAtLeastTwo(last.p); PrimeAtLeastTwo(s[i].p); }
    PowPos(last.p, last.e);
    PowPos(s[i].p, s[i].e);
    ProductPositive(rest);
    if i < |s| - 1 {
      EntryBound(rest, i);
      MulLe(1, Pow(last.p, last.e), EntriesProduct(rest));
    } else {
      MulLe(1, EntriesProduct(rest), Pow(last.p, last.e));
    }
  }

  lemma PrimeAtLeastTwo(p: int)
    requires IsPrime(p)
    ensures 2 <= p
  {}

  lemma {:induction false} ProductPositive(s: seq<Entry>)
    requires PrimePowers(s)
    ensures 1 <= EntriesProduct(s)
  {
    if s != [] { EntryBound(s, |s| - 1); }
  }

  lemma {:induction false} PowTwoLe(p: int, e: nat)
    requires 2 <= p
    ensures Pow(2, e) <= Pow(p, e)
  {
    if e != 0 {
      PowTwoLe(p, e - 1);
      PowPos(2, e - 1);
      MulBound(2, Pow(2, e - 1), p, Pow(p, e - 1));
    }
  }

  /** A multiplicity always fits its byte. */
  lemma ExponentBound(s: seq<Entry>, i: nat)
    requires PrimePowers(s) && i < |s| && EntriesProduct(s) < LIMIT
    ensures s[i].e < 128
  {
    EntryBound(s, i);
    PowTwoLe(s[i].p, s[i].e);
    PowTwoValues();
    if 128 <= s[i].e { PowMono(2, 128, s[i].e); }
  }

  /** After an insertion there are at most 26 entries, still increasing, and the multiplicities fit a byte. */
  lemma InsertFits(s: seq<Entry>, q: int, m: int)
    requires Increasing(s) && PrimePowers(s) && IsPrime(q) && q < B && 1 <= m
    requires Mul(EntriesProduct(s), Pow(q, m)) < LIMIT
    ensures var r := Insert(s, q, m);
            && Increasing(r) && PrimePowers(r) && |r| <= MAX_NFACTS
            && forall i :: 0 <= i < |r| ==> 0 <= r[i].e < 128
  {
    var r := Insert(s, q, m);
    InsertWellFormed(s, q, m);
    InsertProduct(s, q, m);
    CountBound(r);
    forall i | 0 <= i < |r| ensures r[i].e < 128 { ExponentBound(r, i); }
  }

  /** A prime that divides the product is one of the listed primes. */
  lemma {:induction false} PrimeIsListed(s: seq<Entry>, q: int)
    requires PrimePowers(s) && IsPrime(q) && Divides(q, EntriesProduct(s))
    ensures exists i :: 0 <= i < |s| && s[i].p == q
  {
    if s == [] {
      DividesLe(q, 1);
      assert false;
    } else {
      var rest, last := s[..|s| - 1], s[|s| - 1];
      ProductPositive(rest);
      PowPos(last.p, last.e);
      EuclidLemma(q, EntriesProduct(rest), Pow(last.p, last.e));
      if Divides(q, EntriesProduct(rest)) {
        PrimeIsListed(rest, q);
      } else {
        PrimeDividesPower(q, last.p, last.e);
      }
    }
  }

  lemma {:induction false} PrimeDividesPower(q: int, p: int, e: nat)
    requires IsPrime(q) && IsPrime(p) && Divides(q, Pow(p, e))
    ensures q == p
  {
    if e == 0 {
      DividesLe(q, 1);
      assert false;
    } else {
      PowPos(p, e - 1);
      EuclidLemma(q, p, Pow(p, e - 1));
      if Divides(q, p) {
        DividesLe(q, p);
      } else {
        PrimeDividesPower(q, p, e - 1);
      }
    }
  }

  lemma PowOneIs(x: int)
    ensures Pow(x, 1) == x
  {
    assert Pow(x, 0) == 1;
  }

  lemma PrimePowersHaveProduct(s: seq<Entry>)
    requires PrimePowers(s)
    ensures HasProduct(s)
  {}

  /** The listed part of a value v = product * large below 2^128 is below 2^128 as well. */
  lemma ValueBounds(s: seq<Entry>, large: int, q: int, m: nat)
    requires PrimePowers(s) && 1 <= large && IsPrime(q) && Mul(Mul(EntriesProduct(s), large), Pow(q, m)) < LIMIT
    ensures Mul(EntriesProduct(s), Pow(q, m)) < LIMIT
  {
    ProductPositive(s);
    PowPos(q, m);
    var v := EntriesProduct(s);
    MulLe(1, large, v);
    MulLe(v, v * large, Pow(q, m));
  }

  lemma InsertValue(s: seq<Entry>, large: int, q: int, m: nat)
    requires HasProduct(s)
    ensures HasProduct(Insert(s, q, m))
    ensures Mul(EntriesProduct(Insert(s, q, m)), large) == Mul(Mul(EntriesProduct(s), large), Pow(q, m))
  {
    InsertProduct(s, q, m);
    MulAssoc(EntriesProduct(s), Pow(q, m), large);
    MulAssoc(EntriesProduct(s), large, Pow(q, m));
  }

  /** Two factors of two words each do not fit below 2^128. */
  lemma SlotIsFree(s: seq<Entry>, large: int, w: int)
    requires PrimePowers(s) && 1 <= large && B <= w && Mul(Mul(EntriesProduct(s), large), w) < LIMIT
    ensures large < B
  {
    ProductPositive(s);
    if B <= large {
      MulLe(1, EntriesProduct(s), large);
      MulBound(B, B, Mul(EntriesProduct(s), large), w);
    }
  }

  class Factors {
    const entry: array<Entry>    // p[i] and e[i] of the source, as pairs
    var nfactors: nat
    var plarge1: Word
    var plarge0: Word

    constructor ()
      ensures Shape() && nfactors == 0 && plarge1 == 0 && fresh(entry)
    {
      entry := new Entry[26](_ => Entry(0, 0));
      nfactors := 0;
      plarge1, plarge0 := 0, 0;
    }

    ghost predicate Shape()
      reads this
    {
      entry.Length == MAX_NFACTS && nfactors <= MAX_NFACTS
    }

    ghost function Entries(): seq<Entry>
      requires Shape()
      reads this, entry
    {
      entry[..nfactors]
    }

    ghost predicate Valid()
      reads this, entry
    {
      Shape() && Increasing(Entries()) && PrimePowers(Entries())
    }

    /** The two-word factor, or 1 while its slot is empty. */
    ghost function Large(): int
      reads this
    {
      if plarge1 == 0 then 1 else Join(plarge1, plarge0)
    }

    /** The product of everything recorded. */
    ghost function Value(): int
      requires Valid()
      reads this, entry
    {
      Mul(EntriesProduct(Entries()), Large())
    }

    lemma ValuePositive()
      requires Valid()
      ensures 1 <= Value()
    {
      ProductPositive(Entries());
      MulPos(EntriesProduct(Entries()), Large());
    }

    /** factor's initialisation: nothing recorded. */
    method Clear()
      requires Shape()
      modifies this
      ensures Valid() && Value() == 1
    {
      nfactors := 0;
      plarge1 := 0;
    }

    /** Puts a new entry behind position i, moving the entries above it up by one place. */
    method InsertBehind(i: int, x: Entry)
      requires Shape() && -1 <= i < nfactors < MAX_NFACTS
      modifies this`nfactors, entry
      ensures Shape() && nfactors == old(nfactors) + 1
      ensures Entries() == old(Entries())[..i + 1] + [x] + old(Entries())[i + 1..]
    {
      ghost var s := Entries();
      var j := nfactors - 1;
      while j > i
        invariant i <= j < nfactors == |s|
        invariant entry[..j + 1] == s[..j + 1]
        invariant entry[j + 2..nfactors + 1] == s[j + 1..]
      {
        entry[j + 1] := entry[j];
        j := j - 1;
      }
      entry[i + 1] := x;
      nfactors := nfactors + 1;
    }

    /** The position of the last entry that is not above prime, or -1. */
    method Locate(prime: Word) returns (i: int)
      requires Shape()
      ensures -1 <= i < nfactors && (0 <= i ==> entry[i].p <= prime)
      ensures forall j :: i < j < nfactors ==> prime < entry[j].p
    {
      i := nfactors - 1;
      while 0 <= i && entry[i].p > prime
        invariant -1 <= i < nfactors
        invariant forall j :: i < j < nfactors ==> prime < entry[j].p
      {
        i := i - 1;
      }
    }

    /** factor_insert_multiplicity: m more factors prime. */
    method InsertMultiplicity(prime: Word, m: nat)
      requires Valid() && IsPrime(prime) && 1 <= m && Mul(Value(), Pow(prime, m)) < LIMIT
      modifies this`nfactors, entry
      ensures Valid() && Entries() == Insert(old(Entries()), prime, m)
      ensures Value() == Mul(old(Value()), Pow(prime, m))
    {
      hide IsPrime, Insert, EntriesProduct, Mul, Pow, Increasing, PrimePowers;
      ghost var s := Entries();
      PrimePowersHaveProduct(s);
      ValueBounds(s, Large(), prime, m);
      InsertValue(s, Large(), prime, m);
      InsertFits(s, prime, m);
      var i := Locate(prime);
      if i < 0 || entry[i].p != prime {
        assert s == s[..i + 1] + s[i + 1..];
        InsertBetween(s[..i + 1], s[i + 1..], prime, m);
        InsertBehind(i, Entry(prime, m));
      } else {
        InsertMore(s, prime, m, i);
        assert Insert(s, prime, m)[i].e == s[i].e + m;
        entry[i] := Entry(prime, (entry[i].e + m) % 256);
      }
    }

    /** factor_insert_large; the slot for a two-word factor is always still free. */
    method InsertLarge(p1: Word, p0: Word)
      requires Valid() && Mul(Value(), Join(p1, p0)) < LIMIT && (p1 == 0 ==> IsPrime(p0))
      modifies this, entry
      ensures Valid() && Value() == Mul(old(Value()), Join(p1, p0))
    {
      hide IsPrime, EntriesProduct, Mul, Pow, Increasing, PrimePowers;
      PrimePowersHaveProduct(Entries());
      if p1 > 0 {
        SlotIsFree(Entries(), Large(), Join(p1, p0));
        assert plarge1 == 0;
        MulAssoc(EntriesProduct(Entries()), 1, Join(p1, p0));
        plarge0 := p0;
        plarge1 := p1;
      } else {
        PowOneIs(p0);
        InsertMultiplicity(p0, 1);
      }
    }
  }
}
