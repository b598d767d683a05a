/** cksum: the CRC of a file is a remainder of polynomial division over GF(2) (IEEE Std 1003.1, cksum utility). */
module Cksum {
  import opened Arith
  import opened Bits
  import opened CrcTable

  // ----- polynomials over GF(2): a natural number stands for the polynomial with its bits as coefficients

  /** The polynomial product. */
  function Product(q: nat, g: nat): nat {
    if q == 0 then 0 else Xor(2 * Product(q / 2, g), if q % 2 == 1 then g else 0)
  }

  /** The coefficients p followed by the n top bits of w. */
  function Append(p: nat, w: bv32, n: nat): nat
    decreases n
  {
    if n == 0 then p else Append(2 * p + if Top(w) then 1 else 0, Double(w), n - 1)
  }

  /** The polynomial of degree below 32 that a register holds. */
  function Register(c: bv32): nat {
    Append(0, c, 32)
  }

  /** The generating polynomial. */
  function Generator(): nat {
    0x1_0000_0000 + Register(0x04C1_1DB7)
  }

  /** v is the remainder of p(x) x^32 by the generating polynomial. */
  ghost predicate IsRemainder(p: nat, v: nat) {
    v < Pow(2, 32) && exists q: nat :: Xor(Shl(p, 32), v) == Product(q, Generator())
  }

  // ----- division has one remainder

  lemma {:induction false} ProductSum(a: nat, b: nat, g: nat)
    ensures Xor(Product(a, g), Product(b, g)) == Product(Xor(a, b), g)
    decreases a + b
  {
    hide Xor;
    XorSelf(Product(a, g));
    XorSelf(Product(b, g));
    XorSelf(a);
    XorSelf(b);
    if a != 0 && b != 0 {
      ProductSum(a / 2, b / 2, g);
      SumOfSteps(Product(a / 2, g), Product(b / 2, g), if a % 2 == 1 then g else 0, if b % 2 == 1 then g else 0);
      XorHalves(a, b);
      XorSelf(g);
      XorSelf(0);
      ProductStep(Xor(a, b), g);
    }
  }

  lemma ProductStep(q: nat, g: nat)
    ensures Product(q, g) == Xor(2 * Product(q / 2, g), if q % 2 == 1 then g else 0)
  {
    XorSelf(0);
  }

  lemma SumOfSteps(x: nat, y: nat, c: nat, d: nat)
    ensures Xor(Xor(2 * x, c), Xor(2 * y, d)) == Xor(2 * Xor(x, y), Xor(c, d))
  {
    hide Xor;
    XorDouble(x, 0, y, 0);
    Exchange(2 * x, c, 2 * y, d);
  }

  lemma Exchange(a: nat, b: nat, c: nat, d: nat)
    ensures Xor(Xor(a, b), Xor(c, d)) == Xor(Xor(a, c), Xor(b, d))
  {
    hide Xor;
    XorAssociative(Xor(a, b), c, d);
    XorAssociative(a, b, c);
    XorCommutes(b, c);
    XorAssociative(a, c, b);
    XorAssociative(Xor(a, c), b, d);
  }

  /** A multiple of a polynomial with its leading bit k is zero or at least 2^k. */
  lemma {:induction false} MultipleIsLarge(q: nat, g: nat, k: nat)
    requires Pow(2, k) <= g < 2 * Pow(2, k) && q != 0
    ensures Pow(2, k) <= Product(q, g)
  {
    if q == 1 {
      XorSelf(g);
    } else {
      MultipleIsLarge(q / 2, g, k);
      HighBitStays(2 * Product(q / 2, g), if q % 2 == 1 then g else 0, k);
    }
  }

  /** Adding a polynomial of degree at most k does not lower a degree above k. */
  lemma {:induction false} HighBitStays(x: nat, y: nat, k: nat)
    requires 2 * Pow(2, k) <= x && y < 2 * Pow(2, k)
    ensures Pow(2, k) <= Xor(x, y)
  {
    XorHalves(x, y);
    if k == 0 {
      assert 1 <= x / 2 && y / 2 == 0;
      XorSelf(x / 2);
    } else {
      HighBitStays(x / 2, y / 2, k - 1);
    }
  }

  /** The remainder is unique. */
  lemma RemainderUnique(p: nat, v: nat, v': nat)
    requires IsRemainder(p, v) && IsRemainder(p, v')
    ensures v == v'
  {
    hide Xor, Product, Generator, Pow;
    var g, x := Generator(), Shl(p, 32);
    var q: nat :| Xor(x, v) == Product(q, g);
    var q': nat :| Xor(x, v') == Product(q', g);
    ProductSum(q, q', g);
    XorCommutes(x, v);
    XorCommutes(x, v');
    Exchange(x, v, x, v');
    XorSelf(x);
    XorSelf(Xor(v, v'));
    XorBound(v, v', 32);
    GeneratorDegree();
    if Xor(q, q') != 0 { MultipleIsLarge(Xor(q, q'), g, 32); }
    ProductZero(g);
    EqualIfSumZero(v, v');
  }

  lemma ProductZero(g: nat)
    ensures Product(0, g) == 0
  {}

  lemma EqualIfSumZero(x: nat, y: nat)
    requires Xor(x, y) == 0
    ensures x == y
  {
    hide Xor;
    XorAssociative(x, y, y);
    XorSelf(y);
    XorSelf(x);
  }

  lemma GeneratorDegree()
    ensures Pow(2, 32) <= Generator() < 2 * Pow(2, 32)
  {
    hide Pow, Append;
    PowTwoValues();
    AppendScale(0, 0x04C1_1DB7, 32);
  }

  // ----- registers as polynomials

  lemma {:induction false} AppendScale(p: nat, w: bv32, n: nat)
    ensures Append(p, w, n) == Shl(p, n) + Append(0, w, n) && Append(0, w, n) < Pow(2, n)
    decreases n
  {
    hide Top, Double;
    if n != 0 {
      var t := if Top(w) then 1 else 0;
      AppendScale(2 * p + t, Double(w), n - 1);
      AppendScale(t, Double(w), n - 1);
      ShlSum(2 * p, t, n - 1);
      ShlSum(p, p, n - 1);
      ShlPow(1, n - 1);
      if t == 0 { ShlPow(0, n - 1); }
    } else {
      assert Shl(p, 0) == p;
    }
  }

  lemma {:induction false} ShlSum(x: nat, y: nat, k: nat)
    ensures Shl(x + y, k) == Shl(x, k) + Shl(y, k)
  {
    if k != 0 { ShlSum(x, y, k - 1); }
  }

  lemma {:induction false} AppendXor(p: nat, q: nat, x: bv32, y: bv32, n: nat)
    ensures Append(Xor(p, q), Plus(x, y), n) == Xor(Append(p, x, n), Append(q, y, n))
    decreases n
  {
    hide Top, Double, Xor, Plus;
    if n != 0 {
      DoublePlus(x, y);
      TopPlus(x, y);
      var c, d := if Top(x) then 1 else 0, if Top(y) then 1 else 0;
      XorDouble(p, c, q, d);
      AppendXor(2 * p + c, 2 * q + d, Double(x), Double(y), n - 1);
    }
  }

  lemma RegisterPlus(x: bv32, y: bv32)
    ensures Register(Plus(x, y)) == Xor(Register(x), Register(y))
  {
    hide Append, Xor, Plus;
    XorSelf(0);
    AppendXor(0, 0, x, y, 32);
  }

  lemma {:induction false} AppendLast(p: nat, w: bv32, n: nat)
    ensures Append(p, w, n + 1) == 2 * Append(p, w, n) + if Top(Shifted(w, n)) then 1 else 0
    decreases n
  {
    hide Top, Double;
    if n != 0 {
      AppendLast(2 * p + if Top(w) then 1 else 0, Double(w), n - 1);
    }
  }

  /** Thirty-two shifts empty a register. */
  lemma ShiftedOut(w: bv32)
    ensures Shifted(Double(w), 31) == 0
  {
    hide Double, TimesX8;
    ShiftedSum(w, 8, 24);
    ShiftedSum(Shifted(w, 8), 8, 16);
    ShiftedSum(Shifted(Shifted(w, 8), 8), 8, 8);
    ShiftedEight(w);
    ShiftedEight(TimesX8(w));
    ShiftedEight(TimesX8(TimesX8(w)));
    ShiftedEight(TimesX8(TimesX8(TimesX8(w))));
    FourBytes(w);
  }

  lemma FourBytes(w: bv32)
    ensures TimesX8(TimesX8(TimesX8(TimesX8(w)))) == 0
  {}

  lemma {:induction false} ShiftedSum(w: bv32, i: nat, j: nat)
    ensures Shifted(w, i + j) == Shifted(Shifted(w, i), j)
    decreases i
  {
    hide Double;
    if i != 0 { ShiftedSum(Double(w), i - 1, j); }
  }

  lemma ZeroHasNoTop()
    ensures !Top(0)
  {}

  /** The top bit of a register has weight 2^31; shifting drops it and doubles the rest. */
  lemma RegisterDouble(c: bv32)
    ensures var rest := Append(0, Double(c), 31);
            && rest < 0x8000_0000 && Register(Double(c)) == 2 * rest
            && Register(c) == rest + if Top(c) then 0x8000_0000 else 0
  {
    hide Top, Double, Pow, Shifted;
    var d := Double(c);
    AppendScale(0, d, 31);
    assert Pow(2, 31) == 0x8000_0000 by { PowTwoValues(); DoublePower(31); }
    AppendLast(0, d, 31);
    ShiftedOut(c);
    ZeroHasNoTop();
    AppendScale(if Top(c) then 1 else 0, d, 31);
    ShlPow(1, 31);
    ShlPow(0, 31);
    assert Register(c) == Append(if Top(c) then 1 else 0, d, 31);
  }

  lemma DoublePower(k: nat)
    ensures Pow(2, k + 1) == 2 * Pow(2, k)
  {}

  // ----- one bit

  lemma BitAtTop(c: bv32, w: bv32)
    ensures Double(Plus(c, TopBit(w))) == Double(c)
    ensures Top(Plus(c, TopBit(w))) <==> Top(c) != Top(w)
  {
    hide Plus, Double, Top, TopBit;
    DoublePlus(c, TopBit(w));
    TopPlus(c, TopBit(w));
    OnlyTop(w);
    PlusZero(Double(c));
  }

  lemma OnlyTop(w: bv32)
    ensures Double(TopBit(w)) == 0 && (Top(TopBit(w)) <==> Top(w))
  {}

  /** Long division by one more coefficient, on numbers. */
  lemma DivideBit(p: nat, t: bool, b: bool, rest: nat, q: nat, g: nat)
    requires rest < 0x8000_0000 && g < 0x1_0000_0000
    requires Xor(Shl(p, 32), rest + if t then 0x8000_0000 else 0) == Product(q, 0x1_0000_0000 + g)
    ensures Xor(Shl(2 * p + if b then 1 else 0, 32), if t != b then Xor(2 * rest, g) else 2 * rest)
         == Product(2 * q + if t != b then 1 else 0, 0x1_0000_0000 + g)
  {
    hide Xor, Shl, Product, Pow;
    PowTwoValues();
    var X := 0x1_0000_0000;
    var A := 2 * Shl(p, 32);
    ShlDouble(p, b);
    XorDouble(Shl(p, 32), 0, rest + (if t then 0x8000_0000 else 0), 0);
    ProductStep(2 * q + (if t != b then 1 else 0), X + g);
    FieldSum(1, 2 * rest);
    FieldSum(1, g);
    FieldSum(2 * p, X * 0);
    JoinBit(p);
    Rearranged(A, X, 2 * rest, g);
    XorSelf(A);
    XorSelf(Xor(A, 2 * rest));
    XorSelf(Xor(A, X + 2 * rest));
  }

  lemma ShlDouble(p: nat, b: bool)
    ensures Shl(2 * p + if b then 1 else 0, 32) == 2 * Shl(p, 32) + if b then 0x1_0000_0000 else 0
  {
    hide Shl, Pow;
    PowTwoValues();
    ShlPow(p, 32);
    ShlPow(2 * p + if b then 1 else 0, 32);
  }

  lemma FieldSum(q: nat, y: nat)
    requires y < 0x1_0000_0000
    ensures Xor(Shl(q, 32), y) == Shl(q, 32) + y && Shl(1, 32) == 0x1_0000_0000
  {
    hide Shl, Xor, Pow;
    PowTwoValues();
    ShlPow(1, 32);
    XorDisjoint(q, 32, y);
  }

  lemma JoinBit(p: nat)
    ensures Xor(2 * Shl(p, 32), 0x1_0000_0000) == 2 * Shl(p, 32) + 0x1_0000_0000
  {
    hide Shl, Xor, Pow;
    PowTwoValues();
    ShlPow(p, 32);
    ShlPow(p, 33);
    DoublePower(32);
    XorDisjoint(p, 33, 0x1_0000_0000);
  }

  /** The sums that long division equates. */
  lemma Rearranged(A: nat, X: nat, L: nat, g: nat)
    ensures Xor(Xor(A, X), L) == Xor(A, Xor(X, L))
    ensures Xor(A, Xor(L, g)) == Xor(Xor(A, Xor(X, L)), Xor(X, g))
    ensures Xor(Xor(A, X), Xor(L, g)) == Xor(Xor(A, L), Xor(X, g))
  {
    hide Xor;
    XorAssociative(A, X, L);
    Exchange(A, X, L, g);
    XorAssociative(A, Xor(X, L), Xor(X, g));
    Exchange(X, L, X, g);
    XorSelf(X);
    XorSelf(Xor(L, g));
  }

  /** One step of the register divides by one more coefficient. */
  lemma FeedBit(p: nat, c: bv32, w: bv32)
    requires IsRemainder(p, Register(c))
    ensures IsRemainder(2 * p + if Top(w) then 1 else 0, Register(TimesX(Plus(c, TopBit(w)))))
  {
    hide Xor, Shl, Product, Pow, Append, Top, Double, Plus, TopBit;
    var d := Plus(c, TopBit(w));
    BitAtTop(c, w);
    RegisterDouble(c);
    RegisterPlus(Double(c), 0x04C1_1DB7);
    GeneratorDegree();
    PowTwoValues();
    var q: nat :| Xor(Shl(p, 32), Register(c)) == Product(q, Generator());
    DivideBit(p, Top(c), Top(w), Append(0, Double(c), 31), q, Register(0x04C1_1DB7));
    AppendScale(0, TimesX(d), 32);
  }

  lemma {:induction false} FeedRemainder(p: nat, c: bv32, w: bv32, n: nat)
    requires IsRemainder(p, Register(c))
    ensures IsRemainder(Append(p, w, n), Register(Feed(c, w, n)))
    decreases n
  {
    hide IsRemainder, Register, TimesX, Plus, TopBit, Top, Double;
    if n != 0 {
      FeedBit(p, c, w);
      FeedRemainder(2 * p + if Top(w) then 1 else 0, TimesX(Plus(c, TopBit(w))), Double(w), n - 1);
    }
  }

  // ----- the powers of x

  lemma NoTopBit(c: bv32)
    ensures !Top(0) && Plus(c, TopBit(0)) == c
  {}

  lemma OneTimesGenerator()
    ensures IsRemainder(1, Register(0x04C1_1DB7))
  {
    hide Register, Append, Shl, Pow, Xor;
    PowTwoValues();
    GeneratorDegree();
    FieldSum(1, Register(0x04C1_1DB7));
    XorSelf(Generator());
    ProductStep(1, Generator());
    ProductZero(Generator());
    assert Product(1, Generator()) == Generator();
  }

  /** r[i] holds x^(32 + i) modulo the generating polynomial, in its low half. */
  lemma {:induction false} PowersOfX(i: nat)
    ensures 0 < Pow(2, i) && IsRemainder(Pow(2, i), Register(Low(R(i))))
  {
    hide IsRemainder, Register, Low, TimesX, NextPower, Top, Plus, TopBit;
    PowPos(2, i);
    if i == 0 {
      LowFirst();
      OneTimesGenerator();
    } else {
      PowersOfX(i - 1);
      FeedBit(Pow(2, i - 1), Low(R(i - 1)), 0);
      NoTopBit(Low(R(i - 1)));
      LowNextPower(R(i - 1));
    }
  }

  lemma LowFirst()
    ensures Low(R(0)) == 0x04C1_1DB7
  {}

  method FillR(r: array<bv64>)
    requires r.Length == 8
    modifies r
    ensures forall i :: 0 <= i < 8 ==> r[i] == R(i)
    ensures forall i :: 0 <= i < 8 ==> 0 < Pow(2, i) && IsRemainder(Pow(2, i), Register(Low(r[i])))
  {
    hide NextPower, IsRemainder, Register, Low;
    r[0] := 0x04C1_1DB7;
    for i := 1 to 8
      invariant forall k :: 0 <= k < i ==> r[k] == R(k)
    {
      r[i] := NextPower(r[i - 1]);
    }
    forall i | 0 <= i < 8 ensures 0 < Pow(2, i) && IsRemainder(Pow(2, i), Register(Low(r[i]))) {
      PowersOfX(i);
    }
  }

  // ----- messages

  /** The polynomial of a sequence of octets, first octet and top bit first. */
  function Poly(s: seq<bv8>): nat {
    if s == [] then 0 else Append(Poly(s[..|s| - 1]), Place(s[|s| - 1]), 8)
  }

  /** The octets of the length, the least significant one first, without leading zero octets. */
  function LengthOctets(n: nat): seq<bv8> {
    if n == 0 then [] else [(n % 256) as bv8] + LengthOctets(n / 256)
  }

  function Flatten(chunks: seq<seq<bv8>>): seq<bv8> {
    if chunks == [] then [] else Flatten(chunks[..|chunks| - 1]) + chunks[|chunks| - 1]
  }

  ghost predicate Accumulated(crc: bv64, message: seq<bv8>) {
    IsRemainder(Poly(message), Register(Low(crc)))
  }

  lemma StartOfMessage()
    ensures Accumulated(0, [])
  {
    hide Xor, Append, Pow;
    EmptyRegister();
    PowTwoValues();
    ShlPow(0, 32);
    XorSelf(0);
    ProductZero(Generator());
    assert Xor(Shl(0, 32), 0) == Product(0, Generator());
  }

  lemma EmptyRegister()
    ensures Register(Low(0)) == 0
  {
    hide Append, Xor, Plus;
    PlusSelf(Low(0));
    RegisterPlus(Low(0), Low(0));
    XorSelf(Register(Low(0)));
  }

  lemma PlusSelf(x: bv32)
    ensures Plus(x, x) == 0
  {}

  lemma OneMoreOctet(crc: bv64, message: seq<bv8>, m: bv8)
    requires Accumulated(crc, message)
    ensures Accumulated(CrcStep(crc, m as bv64), message + [m])
  {
    hide IsRemainder, Register, Low, CrcStep, Feed, Place, Append;
    StepFeedsByte(crc, m);
    FeedRemainder(Poly(message), Low(crc), Place(m), 8);
    assert (message + [m])[..|message|] == message;
  }

  datatype Outcome = Sum(crc: bv64, length: nat) | TooLong

  const UINTMAX_MODULUS: int := 0x1_0000_0000_0000_0000

  /** The inner loop over one buffer. */
  method Accumulate(crc0: bv64, buf: seq<bv8>, ghost message: seq<bv8>) returns (crc: bv64)
    requires Accumulated(crc0, message)
    ensures Accumulated(crc, message + buf)
  {
    hide Accumulated, CrcStep;
    crc := crc0;
    var i := 0;
    assert message + buf[..0] == message;
    while i < |buf|
      invariant 0 <= i <= |buf| && Accumulated(crc, message + buf[..i])
    {
      OneMoreOctet(crc, message + buf[..i], buf[i]);
      assert message + buf[..i + 1] == message + buf[..i] + [buf[i]];
      crc := CrcStep(crc, buf[i] as bv64);
      i := i + 1;
    }
    assert buf[..|buf|] == buf;
  }

  /** The loop that appends the octets of the length. */
  method AccumulateLength(crc0: bv64, n: nat, ghost message: seq<bv8>) returns (crc: bv64)
    requires Accumulated(crc0, message)
    ensures Accumulated(crc, message + LengthOctets(n))
  {
    hide Accumulated, CrcStep;
    crc := crc0;
    var length := n;
    ghost var done := message;
    assert message + [] == message;
    while length != 0
      invariant 0 <= length && Accumulated(crc, done)
      invariant message + LengthOctets(n) == done + LengthOctets(length)
      decreases length
    {
      var octet := (length % 256) as bv8;
      OneMoreOctet(crc, done, octet);
      assert done + LengthOctets(length) == done + [octet] + LengthOctets(length / 256);
      crc := CrcStep(crc, octet as bv64);
      done := done + [octet];
      length := length / 256;
    }
    assert done + [] == done;
  }

  lemma Complement(crc: bv64)
    ensures !Low(!crc & 0xFFFF_FFFF) == Low(crc) && !crc & 0xFFFF_FFFF <= 0xFFFF_FFFF
  {}

  /**
   cksum on a file that is read in chunks of any sizes: the result is the complement of the remainder for the octets of
   the file followed by those of its length; files of 2^64 octets or more are refused.
   */
  method Checksum(chunks: seq<seq<bv8>>) returns (r: Outcome)
    requires forall i :: 0 <= i < |chunks| ==> 1 <= |chunks[i]| <= 0x1_0000
    ensures r == TooLong <==> |Flatten(chunks)| >= UINTMAX_MODULUS
    ensures r.Sum? ==>
      && r.length == |Flatten(chunks)| && r.crc <= 0xFFFF_FFFF
      && IsRemainder(Poly(Flatten(chunks) + LengthOctets(r.length)), Register(!Low(r.crc)))
  {
    hide Accumulated, IsRemainder, Register, Poly, Low;
    var crc: bv64 := 0;
    var length := 0;
    var i := 0;
    StartOfMessage();
    while i < |chunks|
      invariant 0 <= i <= |chunks| && 0 <= length == |Flatten(chunks[..i])| < UINTMAX_MODULUS
      invariant Accumulated(crc, Flatten(chunks[..i]))
    {
      assert chunks[..i + 1][..i] == chunks[..i];
      if (length + |chunks[i]|) % UINTMAX_MODULUS < length {
        FlattenPrefix(chunks, i + 1);
        return TooLong;
      }
      length := length + |chunks[i]|;
      crc := Accumulate(crc, chunks[i], Flatten(chunks[..i]));
      i := i + 1;
    }
    assert chunks[..|chunks|] == chunks;
    crc := AccumulateLength(crc, length, Flatten(chunks));
    Complement(crc);
    Meaning(crc, Flatten(chunks) + LengthOctets(length));
    r := Sum(!crc & 0xFFFF_FFFF, length);
  }

  lemma Meaning(crc: bv64, message: seq<bv8>)
    requires Accumulated(crc, message)
    ensures IsRemainder(Poly(message), Register(Low(crc)))
  {}

  lemma {:induction false} FlattenPrefix(chunks: seq<seq<bv8>>, i: nat)
    requires i <= |chunks|
    ensures |Flatten(chunks[..i])| <= |Flatten(chunks)|
  {
    if i < |chunks| {
      FlattenPrefix(chunks[..|chunks| - 1], i);
      assert chunks[..|chunks| - 1][..i] == chunks[..i];
    } else {
      assert chunks[..i] == chunks;
    }
  }
}
