/** Trial division by a table of primes with their inverses modulo the word base (factor_using_division of factor.c). */
module TrialDivision {
  import opened Arith
  import opened NumberTheory
  import opened Words
  import opened Montgomery
  import opened FactorList

  const FIRST_OMITTED_PRIME: int := 5003

  datatype DivEntry = DivEntry(binv: Word, lim: Word)

  /** The tables made from primes.h; each ends with seven sentinels. */
  datatype PrimeTable = PrimeTable(diff: seq<int>, diff8: seq<int>, dtab: seq<DivEntry>) {
    /** PRIMES_PTAB_ENTRIES */
    function Size(): int {
      |dtab| - 7
    }

    /** The prime of entry i, as the differences add up from 2. */
    ghost function Prime(i: nat): int
      requires i < |diff|
    {
      if i == 0 then 2 + diff[0] else Prime(i - 1) + diff[i]
    }

    /** The entries are the odd primes below FIRST_OMITTED_PRIME, in order, with inverse and quotient limit. */
    ghost predicate Valid() {
      && 1 <= Size() && |diff| == |dtab| && |diff8| == |dtab|
      && (forall i {:trigger Prime(i)} :: 0 <= i < Size() ==>
            && IsPrime(Prime(i)) && 3 <= Prime(i) < FIRST_OMITTED_PRIME
            && IsInverse(dtab[i].binv, Prime(i), B) && dtab[i].lim == (B - 1) / Prime(i))
      && (forall i, j {:trigger Prime(i), Prime(j)} :: 0 <= i < j < Size() ==> Prime(i) < Prime(j))
      && (forall q {:trigger IsPrime(q)} :: IsPrime(q) && 2 < q < FIRST_OMITTED_PRIME ==>
            exists i :: 0 <= i < Size() && Prime(i) == q)
      && (forall i :: 0 <= i < |dtab| ==> 0 <= diff[i] < 256 && 0 <= diff8[i] < 256)
      && (forall i :: 0 <= i && i + 8 < Size() ==> diff8[i] == Prime(i + 8) - Prime(i))
      && (forall i :: Size() <= i < |dtab| ==> diff[i] == 0 && dtab[i] == DivEntry(1, 0))
    }
  }

  /** No prime below FIRST_OMITTED_PRIME divides n. */
  ghost predicate Rough(n: int) {
    1 <= n && forall q :: IsPrime(q) && q < FIRST_OMITTED_PRIME ==> !Divides(q, n)
  }

  /** n is odd and not divisible by any of the first k table primes. */
  ghost predicate Cleared(n: int, tab: PrimeTable, k: nat)
    requires k <= |tab.diff|
  {
    n % 2 == 1 && forall i :: 0 <= i < k ==> !Divides(tab.Prime(i), n)
  }

  // ----- the divisibility tests

  /** The quotient of a multiple of p is at most lim, and it is what the multiplication gives. */
  lemma MultiplePasses(t: Word, p: int, binv: Word, lim: Word)
    requires 1 <= p < B && IsInverse(binv, p, B) && lim == (B - 1) / p && Divides(p, t)
    ensures Wrap(Mul(t, binv)) <= lim && t == Mul(Wrap(Mul(t, binv)), p)
  {
    var k := DividesElim(p, t);
    if k < 0 { MulLe(k, -1, p); assert false; }
    assert k <= t by { MulLe(1, p, k); }
    ExactLowWord(k, p, binv, t);
    LimitProduct(p);
    if lim < k { MulLe(lim + 1, k, p); assert false; }
  }

  /** Conversely, a result up to lim is an exact quotient. */
  lemma PassingIsMultiple(t: Word, p: int, binv: Word, lim: Word)
    requires 1 <= p < B && IsInverse(binv, p, B) && lim == (B - 1) / p && Wrap(Mul(t, binv)) <= lim
    ensures Divides(p, t)
  {
    hide IsInverse, Wrap;
    InverseTimes(t, binv, p);
    SmallProduct(t, Wrap(Mul(t, binv)), p, lim);
  }

  lemma SmallProduct(t: Word, q: Word, p: int, lim: int)
    requires 1 <= p && q <= lim == (B - 1) / p && Mul(q, p) % B == t
    ensures Divides(p, t)
  {
    MulLe(q, lim, p);
    LimitProduct(p);
    ModSmall(q * p, B);
    DividesIntro(p, q);
  }

  /** t * binv modulo B is at most lim exactly for the multiples of p, and then it is the quotient. */
  lemma OneWordTest(t: Word, p: int, binv: Word, lim: Word)
    requires 1 <= p < B && IsInverse(binv, p, B) && lim == (B - 1) / p
    ensures Wrap(Mul(t, binv)) <= lim <==> Divides(p, t)
    ensures Divides(p, t) ==> t == Mul(Wrap(Mul(t, binv)), p)
  {
    hide IsInverse, Mul, Divides, Wrap;
    if Divides(p, t) { MultiplePasses(t, p, binv, lim); }
    if Wrap(Mul(t, binv)) <= lim { PassingIsMultiple(t, p, binv, lim); }
  }

  lemma LimitProduct(p: int)
    requires 1 <= p
    ensures (B - 1) / p * p <= B - 1 < ((B - 1) / p + 1) * p
  {}

  /** An invertible p divides x exactly when it divides x B. */
  lemma BaseIsCoprime(x: int, p: int, binv: int)
    requires 1 <= p && IsInverse(binv, p, B)
    ensures Divides(p, x * B) <==> Divides(p, x)
  {
    if Divides(p, x) { DividesMul(p, x, B); }
    if Divides(p, x * B) {
      ModSmall(0, p);
      CancelBase(x, 0, p, binv);
    }
  }

  /** Adding a multiple of p does not change divisibility by p. */
  lemma MultipleAdded(d: int, y: int, q0: int, p: int)
    requires 1 <= p && d == y + Mul(q0, p)
    ensures Divides(p, d) <==> Divides(p, y)
  {
    ModShift(y, q0, p);
  }

  /** A negative high part cannot be divisible, because the quotient would be negative. */
  lemma NoNegativeQuotient(t1: Word, hi: Word, t0: Word, p: int, q0: Word)
    requires 1 <= p && t1 < hi && Join(hi, t0) == Mul(q0, p)
    ensures !Divides(p, t1 - hi)
  {
    if Divides(p, t1 - hi) {
      var k := DividesElim(p, t1 - hi);
      if 0 <= k { MulLe(0, k, p); assert false; }
      assert (q0 + k * B) * p == q0 * p + k * p * B == Join(t1, t0);
      MulLe(q0 + k * B, -1, p);
      assert false;
    }
  }

  /** The two-word test: what the source computes from <t1, t0>, with hi the high word of q0 * p. */
  lemma TwoWordTest(t1: Word, t0: Word, p: int, binv: Word, lim: Word, q0: Word, hi: Word, lo: Word)
    requires 1 <= p < B && IsInverse(binv, p, B) && lim == (B - 1) / p
    requires q0 == Wrap(Mul(t0, binv)) && Join(hi, lo) == Mul(q0, p)
    ensures Divides(p, Join(t1, t0)) <==> hi <= t1 && Wrap(Mul(t1 - hi, binv)) <= lim
    ensures Divides(p, Join(t1, t0)) ==> Join(t1, t0) == Mul(Join(Wrap(Mul(t1 - hi, binv)), q0), p)
  {
    hide IsInverse, Mul, Divides, Wrap;
    LowWordAgrees(t0, p, binv, hi, lo);
    MultipleAdded(Join(t1, t0), (t1 - hi) * B, q0, p);
    BaseIsCoprime(t1 - hi, p, binv);
    if hi <= t1 {
      OneWordTest(t1 - hi, p, binv, lim);
      if Divides(p, t1 - hi) {
        JoinTimes(Wrap(Mul(t1 - hi, binv)), q0, p);
      }
    } else {
      NoNegativeQuotient(t1, hi, t0, p, q0);
    }
  }

  lemma JoinTimes(q1: int, q0: int, p: int)
    ensures Mul(Join(q1, q0), p) == Mul(q1, p) * B + Mul(q0, p)
  {}

  // ----- dividing out

  /** Moving one factor p from the cofactor t to the recorded value v. */
  lemma MoveFactor(v: int, p: int, q: int, t: int)
    requires 1 <= v && 2 <= p && 1 <= t && t == Mul(q, p)
    ensures 1 <= q < t && Divides(q, t) && Pow(p, 1) == p
    ensures Mul(v, p) <= Mul(v, t) == Mul(Mul(v, p), q)
  {
    if q < 1 { MulLe(q, 0, p); assert false; }
    MulLt(1, p, q);
    DividesIntro(q, p);
    PowOneIs(p);
    assert v * (q * p) == v * p * q;
    MulPos(v, p);
    MulLe(1, q, v * p);
  }

  /** The state of a factorisation: recorded factors times the cofactor t make up the whole. */
  ghost predicate Balanced(f: Factors, t: int, whole: int)
    reads f, f.entry
  {
    f.Valid() && 1 <= t && Mul(f.Value(), t) == whole < LIMIT
  }

  /** Records the factor p of t = p q. */
  method TakeFactor(f: Factors, p: Word, ghost q: int, ghost t: int, ghost whole: int)
    requires Balanced(f, t, whole) && IsPrime(p) && t == Mul(q, p)
    modifies f`nfactors, f.entry
    ensures Balanced(f, q, whole) && 1 <= q < t && Divides(q, t)
  {
    f.ValuePositive();
    PrimeAtLeastTwo(p);
    MoveFactor(f.Value(), p, q, t);
    hide Mul, IsPrime, Pow, Divides;
    f.InsertMultiplicity(p, 1);
  }

  /** Takes all factors p out of a two-word number. */
  method DivideOut2(x1: Word, x0: Word, p: Word, d: DivEntry, f: Factors, ghost whole: int) returns (t1: Word, t0: Word)
    requires Balanced(f, Join(x1, x0), whole)
    requires IsPrime(p) && IsInverse(d.binv, p, B) && d.lim == (B - 1) / p
    modifies f`nfactors, f.entry
    ensures Balanced(f, Join(t1, t0), whole) && Divides(Join(t1, t0), Join(x1, x0)) && !Divides(p, Join(t1, t0))
  {
    PrimeAtLeastTwo(p);
    hide Mul, IsPrime, IsInverse, Divides, Wrap, Join, Balanced;
    t1, t0 := x1, x0;
    DividesSelf(f, Join(x1, x0), whole);
    while true
      invariant Balanced(f, Join(t1, t0), whole) && Divides(Join(t1, t0), Join(x1, x0))
      decreases Join(t1, t0)
    {
      var q0 := Wrap(Mul(t0, d.binv));
      var hi: Word, lo: Word := UmulPpmm(q0, p);
      TwoWordTest(t1, t0, p, d.binv, d.lim, q0, hi, lo);
      if hi > t1 { break; }
      hi := t1 - hi;
      var q1 := Wrap(Mul(hi, d.binv));
      if q1 > d.lim { break; }
      TakeFactor(f, p, Join(q1, q0), Join(t1, t0), whole);
      Descend(f, Join(q1, q0), Join(t1, t0), Join(x1, x0), whole);
      t1, t0 := q1, q0;
    }
  }

  lemma DividesSelf(f: Factors, t: int, whole: int)
    requires Balanced(f, t, whole)
    ensures Divides(t, t) && 1 <= t
  {
    DividesIntro(t, 1);
  }

  lemma Descend(f: Factors, q: int, t: int, x: int, whole: int)
    requires Balanced(f, q, whole) && q < t && Divides(q, t) && Divides(t, x)
    ensures Divides(q, x) && 0 <= q
  {
    DividesTrans(q, t, x);
  }

  // ----- factors of two

  lemma TwoIsPrime()
    ensures IsPrime(2)
  {}

  /** Recording m factors p of t = q p^m. */
  method TakePower(f: Factors, p: Word, m: nat, ghost q: int, ghost t: int, ghost whole: int)
    requires Balanced(f, t, whole) && IsPrime(p) && 1 <= m && t == Mul(q, Pow(p, m))
    modifies f`nfactors, f.entry
    ensures Balanced(f, q, whole)
  {
    f.ValuePositive();
    PrimeAtLeastTwo(p);
    PowPos(p, m);
    MovePower(f.Value(), Pow(p, m), q, t);
    hide Mul, IsPrime, Pow;
    f.InsertMultiplicity(p, m);
  }

  lemma MovePower(v: int, w: int, q: int, t: int)
    requires 1 <= v && 1 <= w && 1 <= t && t == Mul(q, w)
    ensures 1 <= q && Mul(v, w) <= Mul(v, t) == Mul(Mul(v, w), q)
  {
    if q < 1 { MulLe(q, 0, w); assert false; }
    assert v * (q * w) == v * w * q;
    MulPos(v, w);
    MulLe(1, q, v * w);
  }

  lemma HighTwos(x1: Word, odd: int, cnt: nat)
    requires x1 == odd * Pow(2, cnt)
    ensures Join(x1, 0) == Mul(odd, Pow(2, cnt + 64))
  {
    PowTwoValues();
    PowAdd(2, cnt, 64);
    assert odd * (Pow(2, cnt) * B) == odd * Pow(2, cnt) * B;
  }

  lemma LowTwosQuotient(x1: int, odd: int, P: int, h: int)
    requires P * (2 * h) == B && 0 < P && odd % 2 == 1
    ensures var x := Join(x1, odd * P);
            x == Mul(x / P, P) && (x / P) % 2 == 1
  {
    assert x1 * (P * (2 * h)) == (2 * (x1 * h)) * P;
    var k := 2 * (x1 * h) + odd;
    assert Join(x1, odd * P) == k * P;
    ModOfMultiple(k, P);
  }

  lemma LowTwos(x1: Word, x0: Word, odd: int, cnt: nat)
    requires 0 < cnt < 64 && x0 == odd * Pow(2, cnt) && odd % 2 == 1 && 0 < Pow(2, cnt)
    ensures Join(x1, x0) == Mul(Join(x1, x0) / Pow(2, cnt), Pow(2, cnt))
    ensures (Join(x1, x0) / Pow(2, cnt)) % 2 == 1
  {
    assert Pow(2, cnt) * (2 * Pow(2, 63 - cnt)) == B by {
      PowTwoValues();
      PowAdd(2, cnt, 64 - cnt);
    }
    hide Mul, Pow, Join;
    LowTwosQuotient(x1, odd, Pow(2, cnt), Pow(2, 63 - cnt));
  }

  /** Takes all factors of two out of a two-word number. */
  method CastOutTwos(x1: Word, x0: Word, f: Factors, ghost whole: int) returns (t1: Word, t0: Word)
    requires Balanced(f, Join(x1, x0), whole)
    modifies f`nfactors, f.entry
    ensures Balanced(f, Join(t1, t0), whole) && t0 % 2 == 1
  {
    hide Mul, Pow, Balanced, IsPrime, Join;
    DividesSelf(f, Join(x1, x0), whole);
    JoinParity(x1, x0);
    TwoIsPrime();
    t1, t0 := x1, x0;
    if t0 % 2 == 0 {
      var cnt;
      t1, t0, cnt := ShiftTwos(x1, x0);
      TakePower(f, 2, cnt, Join(t1, t0), Join(x1, x0), whole);
    }
  }

  /** The shift that removes all trailing zeros of an even two-word number. */
  method ShiftTwos(x1: Word, x0: Word) returns (t1: Word, t0: Word, cnt: nat)
    requires (x1 != 0 || x0 != 0) && x0 % 2 == 0
    ensures Join(x1, x0) == Mul(Join(t1, t0), Pow(2, cnt)) && t0 % 2 == 1 && 1 <= cnt
  {
    hide Mul, Pow, Join;
    var odd;
    if x0 == 0 {
      odd, cnt := StripTwos(x1);
      HighTwos(x1, odd, cnt);
      t1, t0 := 0, odd;
      cnt := cnt + 64;
    } else {
      odd, cnt := StripTwos(x0);
      t1, t0 := Rsh2By(x1, x0, cnt);
      LowTwos(x1, x0, odd, cnt);
    }
    JoinParity(t1, t0);
  }

  // ----- the whole of trial division

  lemma TableSize(tab: PrimeTable)
    requires tab.Valid()
    ensures 1 <= tab.Size() && tab.Size() + 7 == |tab.diff| == |tab.diff8| == |tab.dtab|
  {}

  lemma TableEntry(tab: PrimeTable, i: nat)
    requires tab.Valid() && i < tab.Size()
    ensures i < |tab.diff| && i < |tab.dtab| && IsPrime(tab.Prime(i)) && 3 <= tab.Prime(i) < FIRST_OMITTED_PRIME
    ensures IsInverse(tab.dtab[i].binv, tab.Prime(i), B) && tab.dtab[i].lim == (B - 1) / tab.Prime(i)
  {}

  /** The prime of the next entry, or the same number again before a sentinel. */
  lemma NextEntry(tab: PrimeTable, i: nat)
    requires tab.Valid() && i < tab.Size()
    ensures i + 1 < |tab.diff| && tab.Prime(i + 1) == tab.Prime(i) + tab.diff[i + 1]
    ensures 0 <= tab.Prime(i + 1) < B
  {
    assert 0 <= tab.diff[i + 1] < 256;
  }

  lemma Diff8(tab: PrimeTable, i: nat)
    requires tab.Valid() && i < tab.Size()
    ensures i < |tab.diff8| && 0 <= tab.diff8[i] < 256
    ensures i + 8 < tab.Size() ==> tab.Prime(i + 8) == tab.Prime(i) + tab.diff8[i]
  {}

  lemma ClearedStart(n: int, tab: PrimeTable)
    requires n % 2 == 1
    ensures Cleared(n, tab, 0)
  {}

  /** Removing more factors keeps what is cleared, and adds the prime just divided out. */
  lemma ClearedNext(x: int, t: int, tab: PrimeTable, i: nat)
    requires tab.Valid() && i < tab.Size() && Cleared(x, tab, i) && 1 <= t && Divides(t, x)
    requires !Divides(tab.Prime(i), t)
    ensures Cleared(t, tab, i + 1)
  {
    ClearedDivisor(x, t, tab, i);
  }

  lemma ClearedDivisor(x: int, t: int, tab: PrimeTable, i: nat)
    requires tab.Valid() && i <= tab.Size() && Cleared(x, tab, i) && 1 <= t && Divides(t, x)
    ensures Cleared(t, tab, i)
  {
    forall j | 0 <= j < i ensures !Divides(tab.Prime(j), t) {
      TableEntry(tab, j);
      if Divides(tab.Prime(j), t) { DividesTrans(tab.Prime(j), t, x); }
    }
    if t % 2 == 0 {
      DividesTrans(2, t, x);
    }
  }

  /** With the whole table cleared, nothing below FIRST_OMITTED_PRIME is left. */
  lemma ClearedAll(t: int, tab: PrimeTable)
    requires tab.Valid() && 1 <= t && Cleared(t, tab, tab.Size())
    ensures Rough(t)
  {
    forall q | IsPrime(q) && q < FIRST_OMITTED_PRIME ensures !Divides(q, t) {
      if q != 2 {
        var i :| 0 <= i < tab.Size() && tab.Prime(i) == q;
      }
    }
  }

  /** With all primes below p cleared, a cofactor below p squared is 1 or prime. */
  lemma ClearedUpTo(t: int, tab: PrimeTable, k: nat)
    requires tab.Valid() && k < tab.Size() && 1 <= t && Cleared(t, tab, k)
    requires t < Mul(tab.Prime(k), tab.Prime(k))
    ensures t == 1 || IsPrime(t)
  {
    if t != 1 {
      TableEntry(tab, k);
      forall q | IsPrime(q) && q < tab.Prime(k) ensures !Divides(q, t) {
        if q != 2 {
          var i :| 0 <= i < tab.Size() && tab.Prime(i) == q;
          assert i < k;
        }
      }
      NoSmallDivisor(t, tab.Prime(k));
    }
  }

  /** factor_insert_refind: finds the prime of entry i + off again from that of entry i. */
  method Refind(tab: PrimeTable, p0: Word, i: nat, off: nat) returns (p: Word)
    requires tab.Valid() && i + off < tab.Size() && p0 == tab.Prime(i)
    ensures p == tab.Prime(i + off)
  {
    hide PrimeTable.Valid, PrimeTable.Prime, Wrap;
    TableSize(tab);
    p := p0;
    for j := 0 to off
      invariant p == tab.Prime(i + j)
    {
      NextEntry(tab, i + j);
      WrapSmall(p + tab.diff[i + 1 + j]);
      assert i + j + 1 == i + 1 + j == i + (j + 1);
      p := Wrap(p + tab.diff[i + 1 + j]);
    }
  }

  /** A sentinel never passes the divisibility test. */
  lemma SentinelFails(tab: PrimeTable, i: nat, t: Word)
    requires tab.Valid() && tab.Size() <= i < tab.Size() + 7 && 1 <= t
    ensures i < |tab.dtab| && Wrap(Mul(t, tab.dtab[i].binv)) > tab.dtab[i].lim
  {}

  /** The number of table primes that are cleared when the entries below i are done. */
  function Capped(tab: PrimeTable, i: nat): int {
    if i < tab.Size() then i else tab.Size()
  }

  /** DIVBLOCK: division by the entry i + off, which may be a sentinel. */
  method DivBlock(tab: PrimeTable, x: Word, p: Word, i: nat, off: nat, f: Factors, ghost whole: int) returns (t: Word)
    requires tab.Valid() && off < 8 && i < tab.Size() && p == tab.Prime(i) && Balanced(f, x, whole)
    requires Cleared(x, tab, Capped(tab, i + off))
    modifies f`nfactors, f.entry
    ensures Balanced(f, t, whole) && Cleared(t, tab, Capped(tab, i + off + 1))
  {
    hide Cleared, IsPrime, IsInverse, Divides, Balanced, PrimeTable.Valid, PrimeTable.Prime, Mul, Wrap;
    TableSize(tab);
    var d := tab.dtab[i + off];
    t := x;
    DividesSelf(f, x, whole);
    while true
      invariant Balanced(f, t, whole) && Divides(t, x)
      decreases t
    {
      var q := Wrap(Mul(t, d.binv));
      DividesSelf(f, t, whole);
      if i + off < tab.Size() {
        TableEntry(tab, i + off);
        OneWordTest(t, tab.Prime(i + off), d.binv, d.lim);
      } else {
        SentinelFails(tab, i + off, t);
      }
      if q > d.lim { break; }
      var r := Refind(tab, p, i, off);
      TakeFactor(f, r, q, t, whole);
      Descend(f, q, t, x, whole);
      t := q;
    }
    DividesSelf(f, t, whole);
    if i + off < tab.Size() {
      ClearedNext(x, t, tab, i + off);
    } else {
      ClearedDivisor(x, t, tab, tab.Size());
    }
  }

  /** The first loop of factor_using_division: division of a two-word number until one word is left. */
  method DivideTwoWords(tab: PrimeTable, x1: Word, x0: Word, f: Factors, ghost whole: int)
    returns (t1: Word, t0: Word, p: Word, i: nat)
    requires tab.Valid() && Balanced(f, Join(x1, x0), whole) && x0 % 2 == 1
    modifies f`nfactors, f.entry
    ensures i <= tab.Size() <= |tab.diff| && (i < tab.Size() ==> t1 == 0 && p == tab.Prime(i))
    ensures Balanced(f, Join(t1, t0), whole) && Cleared(Join(t1, t0), tab, i)
  {
    hide Cleared, IsPrime, IsInverse, Divides, Balanced, PrimeTable.Valid, PrimeTable.Prime, Mul, Wrap, Join;
    TableSize(tab);
    TableStart(tab);
    t1, t0, p, i := x1, x0, 3, 0;
    JoinParity(t1, t0);
    ClearedStart(Join(t1, t0), tab);
    while t1 > 0 && i < tab.Size()
      invariant 0 <= i <= tab.Size()
      invariant i < tab.Size() ==> p == tab.Prime(i)
      invariant Balanced(f, Join(t1, t0), whole) && Cleared(Join(t1, t0), tab, i)
      decreases tab.Size() - i
    {
      TableEntry(tab, i);
      NextEntry(tab, i);
      ghost var t := Join(t1, t0);
      t1, t0 := DivideOut2(t1, t0, p, tab.dtab[i], f, whole);
      DividesSelf(f, Join(t1, t0), whole);
      ClearedNext(t, Join(t1, t0), tab, i);
      WrapSmall(p + tab.diff[i + 1]);
      p := Wrap(p + tab.diff[i + 1]);
      i := i + 1;
    }
  }

  /** The second loop: division of a one-word number by eight entries at a time. */
  method DivideOneWord(tab: PrimeTable, x: Word, p0: Word, i0: nat, f: Factors, ghost whole: int) returns (t: Word)
    requires tab.Valid() && Balanced(f, x, whole)
    requires i0 <= tab.Size() && (i0 < tab.Size() ==> p0 == tab.Prime(i0)) && Cleared(x, tab, i0)
    modifies f`nfactors, f.entry
    ensures Balanced(f, t, whole) && (t == 1 || IsPrime(t) || Rough(t))
  {
    hide Cleared, IsPrime, IsInverse, Divides, Balanced, PrimeTable.Valid, PrimeTable.Prime, Mul, Rough, Wrap;
    TableSize(tab);
    t := x;
    var p: Word, i := p0, i0;
    while i < tab.Size()
      invariant 0 <= i && (i < tab.Size() ==> p == tab.Prime(i))
      invariant Balanced(f, t, whole) && Cleared(t, tab, Capped(tab, i))
    {
      for I := 0 to 8
        invariant Balanced(f, t, whole) && Cleared(t, tab, Capped(tab, i + I))
      {
        t := DivBlock(tab, t, p, i, I, f, whole);
      }
      Diff8(tab, i);
      TableEntry(tab, i);
      WrapSmall(p + tab.diff8[i]);
      p := Wrap(p + tab.diff8[i]);
      if Mul(p, p) > t {
        DividesSelf(f, t, whole);
        if i + 8 < tab.Size() {
          ClearedUpTo(t, tab, i + 8);
        } else {
          ClearedAll(t, tab);
        }
        return;
      }
      i := i + 8;
    }
    DividesSelf(f, t, whole);
    ClearedAll(t, tab);
  }

  /** factor_using_division: what is left is 1, prime, or without any prime divisor below FIRST_OMITTED_PRIME. */
  method FactorUsingDivision(tab: PrimeTable, x1: Word, x0: Word, f: Factors, ghost whole: int)
    returns (t1: Word, t0: Word)
    requires tab.Valid() && Balanced(f, Join(x1, x0), whole)
    modifies f`nfactors, f.entry
    ensures Balanced(f, Join(t1, t0), whole)
    ensures t1 == 0 ==> t0 == 1 || IsPrime(t0) || Rough(t0)
    ensures t1 != 0 ==> Rough(Join(t1, t0))
  {
    hide Cleared, IsPrime, Balanced, PrimeTable.Valid, PrimeTable.Prime, Rough, Join;
    t1, t0 := CastOutTwos(x1, x0, f, whole);
    var p, i;
    t1, t0, p, i := DivideTwoWords(tab, t1, t0, f, whole);
    if t1 == 0 {
      JoinParity(t1, t0);
      t0 := DivideOneWord(tab, t0, p, i, f, whole);
      JoinParity(t1, t0);
    } else {
      // every entry is used up, so the second loop has nothing left to do
      DividesSelf(f, Join(t1, t0), whole);
      ClearedAll(Join(t1, t0), tab);
    }
  }

  lemma TableStart(tab: PrimeTable)
    requires tab.Valid()
    ensures tab.Prime(0) == 3
  {
    assert IsPrime(3) by { assert !Divides(2, 3); }
    var i :| 0 <= i < tab.Size() && tab.Prime(i) == 3;
  }
}
