/** Decimal input and output of one- and two-word numbers in factor.c. */
module Decimal {
  import opened Arith
  import opened Words

  predicate IsDigit(c: char) {
    '0' <= c <= '9'
  }

  function DigitChar(d: nat): char
    requires d < 10
  {
    '0' + d as char
  }

  predicate AllDigits(s: string) {
    forall i :: 0 <= i < |s| ==> IsDigit(s[i])
  }

  function DigitValue(c: char): nat
    requires IsDigit(c)
  {
    (c - '0') as int
  }

  /** The number that a string of digits denotes. */
  function Value(s: string): nat
    requires AllDigits(s)
  {
    if s == [] then 0 else 10 * Value(s[..|s| - 1]) + DigitValue(s[|s| - 1])
  }

  /** The shortest string of digits that denotes n. */
  function Decimal(n: nat): string {
    if n < 10 then [DigitChar(n)] else Decimal(n / 10) + [DigitChar(n % 10)]
  }

  /** The last k digits of n. */
  function LastDigits(n: nat, k: nat): string {
    if k == 0 then [] else LastDigits(n / 10, k - 1) + [DigitChar(n % 10)]
  }

  // ----- round trips

  /** Reading what is written gives the number back. */
  lemma {:induction false} ReadWritten(n: nat)
    ensures Decimal(n) != [] && AllDigits(Decimal(n)) && Value(Decimal(n)) == n
  {
    if n < 10 {
      assert Decimal(n)[..0] == [];
    } else {
      ReadWritten(n / 10);
      var s := Decimal(n);
      assert s[..|s| - 1] == Decimal(n / 10);
    }
  }

  /** Writing what is read gives the string back, if it has no leading zero. */
  lemma {:induction false} WriteRead(s: string)
    requires s != [] && AllDigits(s) && (s[0] == '0' ==> |s| == 1)
    ensures Decimal(Value(s)) == s
  {
    var t, d := s[..|s| - 1], DigitValue(s[|s| - 1]);
    assert DigitChar(d) == s[|s| - 1];
    if |s| == 1 {
      assert t == [];
    } else {
      WriteRead(t);
      ValuePositive(t);
      assert Value(s) / 10 == Value(t) && Value(s) % 10 == d;
      assert s == t + [s[|s| - 1]];
    }
  }

  lemma {:induction false} ValuePositive(s: string)
    requires s != [] && AllDigits(s) && s[0] != '0'
    ensures 1 <= Value(s)
  {
    if |s| != 1 { ValuePositive(s[..|s| - 1]); }
  }

  /** Every prefix denotes a number that is no larger. */
  lemma {:induction false} ValuePrefix(s: string, i: nat)
    requires AllDigits(s) && i <= |s|
    ensures Value(s[..i]) <= Value(s)
  {
    if i == |s| {
      assert s[..i] == s;
    } else {
      var t := s[..|s| - 1];
      ValuePrefix(t, i);
      assert t[..i] == s[..i];
    }
  }

  // ----- strto2uintmax

  datatype ParseStatus = LongintOk | LongintOverflow | LongintInvalid

  const MAX_HI_10: int := 0x1999_9999_9999_9999   // ~(uintmax_t) 0 / 10

  /** One digit: <hi, lo> becomes 10 <hi, lo> + c; overflow is reported exactly when the result needs more than two words. */
  method PushDigit(hi: Word, lo: Word, c: nat) returns (ok: bool, hi': Word, lo': Word)
    requires c < 10
    ensures ok <==> 10 * Join(hi, lo) + c < B * B
    ensures ok ==> Join(hi', lo') == 10 * Join(hi, lo) + c
  {
    hi', lo' := hi, lo;
    if hi > MAX_HI_10 {
      return false, hi, lo;
    }
    var h: int := Wrap(10 * hi);
    var carry: int := lo / 0x2000_0000_0000_0000 + lo / HALF_B;
    if Wrap(10 * lo) < Wrap(2 * lo) { carry := carry + 1; }
    var l: int := Wrap(10 * lo);
    TimesTen(lo);
    l := Wrap(l + c);
    if l < c { carry := carry + 1; }
    CarryDigit(hi, lo, c, carry, l);
    h := Wrap(h + carry);
    ok, hi', lo' := h >= carry, h, l;
  }

  /** The carry wraps the high word exactly when the number outgrows two words. */
  lemma CarryDigit(hi: Word, lo: Word, c: nat, carry: int, l: Word)
    requires hi <= MAX_HI_10 && l + carry * B == 10 * lo + c && 0 <= carry <= 10
    ensures 10 * Join(hi, lo) + c == (10 * hi + carry) * B + l && Wrap(10 * hi) == 10 * hi
    ensures Wrap(10 * hi + carry) >= carry <==> 10 * hi + carry < B
  {
    WrapSmall(10 * hi);
    if 10 * hi + carry < B {
      WrapSmall(10 * hi + carry);
    } else {
      assert Wrap(10 * hi + carry) == 10 * hi + carry - B;
    }
  }

  /** The carry out of 10 lo = 8 lo + 2 lo: the bits shifted out, and one more if the addition wraps. */
  lemma TimesTen(lo: Word)
    ensures var carry := lo / 0x2000_0000_0000_0000 + lo / HALF_B + if Wrap(10 * lo) < Wrap(2 * lo) then 1 else 0;
            10 * lo == carry * B + Wrap(10 * lo) && 0 <= carry <= 9
  {
    var h, x := lo / 0x2000_0000_0000_0000, lo % 0x2000_0000_0000_0000 * 8;
    var g, y := lo / HALF_B, lo % HALF_B * 2;
    DivModUnique(2 * lo, B, g, y);
    TwoParts(lo, h, x, g, y);
  }

  lemma TwoParts(lo: Word, h: int, x: int, g: int, y: int)
    requires 8 * lo == h * B + x && 2 * lo == g * B + y && 0 <= x < B && 0 <= y < B && 0 <= h <= 7 && 0 <= g <= 1
    ensures var over := if x + y < B then 0 else 1;
            10 * lo == (h + g + over) * B + Wrap(10 * lo) && (Wrap(10 * lo) < y <==> over == 1)
  {
    if x + y < B {
      DivModUnique(10 * lo, B, h + g, x + y);
    } else {
      DivModUnique(10 * lo, B, h + g + 1, x + y - B);
    }
  }

  /** The first scan: the string is not empty and has digits only. */
  method ScanDigits(s: string) returns (err: ParseStatus)
    ensures err == if s != [] && AllDigits(s) then LongintOk else LongintInvalid
  {
    err := LongintInvalid;
    var i := 0;
    while i < |s|
      invariant 0 <= i <= |s| && AllDigits(s[..i])
      invariant err == if i == 0 then LongintInvalid else LongintOk
    {
      if !IsDigit(s[i]) {
        return LongintInvalid;
      }
      err := LongintOk;
      i := i + 1;
    }
    assert s[..|s|] == s;
  }

  /** strto2uintmax: accepts exactly the non-empty digit strings that denote a number below 2^128. */
  method Strto2uintmax(s: string) returns (err: ParseStatus, hi: Word, lo: Word)
    ensures err == LongintInvalid <==> s == [] || !AllDigits(s)
    ensures err == LongintOk <==> s != [] && AllDigits(s) && Value(s) < B * B
    ensures err == LongintOk ==> Join(hi, lo) == Value(s)
  {
    hi, lo := 0, 0;
    err := ScanDigits(s);
    var i := 0;
    while err == LongintOk && i < |s|
      invariant 0 <= i <= |s| && (err == LongintOk || err == LongintInvalid)
      invariant err == LongintInvalid <==> s == [] || !AllDigits(s)
      invariant err == LongintOk ==> Join(hi, lo) == Value(s[..i])
      decreases |s| - i
    {
      var c := DigitValue(s[i]);
      assert s[..i + 1][..i] == s[..i];
      ValuePrefix(s, i + 1);
      var ok;
      ok, hi, lo := PushDigit(hi, lo, c);
      if !ok {
        return LongintOverflow, hi, lo;
      }
      i := i + 1;
    }
    if err == LongintOk { assert s[..i] == s; }
  }

  // ----- printing

  const GROUP: int := 1_000_000_000

  /** A number is written as the number without its last k digits followed by those digits. */
  lemma {:induction false} SplitDigits(m: nat, r: nat, k: nat)
    requires 1 <= m && r < Pow(10, k)
    ensures 0 <= m * Pow(10, k) && Decimal(m * Pow(10, k) + r) == Decimal(m) + LastDigits(r, k)
  {
    PowPos(10, k);
    if k == 0 {
      assert Decimal(m) + [] == Decimal(m);
    } else {
      var P := Pow(10, k - 1);
      PowPos(10, k - 1);
      assert m * (10 * P) == 10 * (m * P);
      MulPos(m, P);
      SplitDigits(m, r / 10, k - 1);
      var n := m * Pow(10, k) + r;
      assert n / 10 == m * P + r / 10 && n % 10 == r % 10;
    }
  }

  function Zeros(k: nat): string {
    if k == 0 then [] else ['0'] + Zeros(k - 1)
  }

  lemma {:induction false} ZerosSnoc(k: nat)
    ensures ['0'] + Zeros(k) == Zeros(k) + ['0']
  {
    if k != 0 { ZerosSnoc(k - 1); }
  }

  /** The last k digits of a number below 10^k are the number padded with zeros. */
  lemma {:induction false} PaddedDigits(n: nat, k: nat)
    requires n < Pow(10, k) && 1 <= k
    ensures |Decimal(n)| <= k && LastDigits(n, k) == Zeros(k - |Decimal(n)|) + Decimal(n)
  {
    if n < 10 {
      ZeroDigits(k - 1);
      assert n / 10 == 0;
    } else {
      PaddedDigits(n / 10, k - 1);
    }
  }

  lemma {:induction false} ZeroDigits(k: nat)
    ensures LastDigits(0, k) == Zeros(k)
  {
    if k != 0 {
      ZeroDigits(k - 1);
      ZerosSnoc(k - 1);
    }
  }

  lemma {:induction false} DecimalLength(n: nat, k: nat)
    requires n < Pow(10, k) && 1 <= k
    ensures |Decimal(n)| <= k
  {
    PaddedDigits(n, k);
  }

  /** umaxtostr: writes the digits backwards from the end of a buffer of 21 characters and returns where they start. */
  method Umaxtostr(i: Word, buf: array<char>) returns (p: nat)
    requires buf.Length == 21
    modifies buf
    ensures p <= 20 && buf[p..20] == Decimal(i) && buf[20] == '\0'
  {
    p := 20;
    buf[p] := '\0';
    DigitsFit(i);
    p := p - 1;
    buf[p] := DigitChar(i % 10);
    var j := i / 10;
    while j != 0
      invariant 0 <= j && p <= 19 && buf[20] == '\0'
      invariant Decimal(i) == if j == 0 then buf[p..20] else Decimal(j) + buf[p..20]
      decreases j
    {
      assert |Decimal(i)| == |Decimal(j)| + (20 - p) && 1 <= |Decimal(j)|;
      ghost var tail := buf[p..20];
      p := p - 1;
      buf[p] := DigitChar(j % 10);
      assert buf[p..20] == [DigitChar(j % 10)] + tail;
      j := j / 10;
    }
  }

  lemma DigitsFit(i: Word)
    ensures |Decimal(i)| <= 20
  {
    assert Pow(10, 5) == 100000;
    PowAdd(10, 5, 5);
    PowAdd(10, 10, 10);
    DecimalLength(i, 20);
  }

  /** The line buffer: what lies between buf and end in the source. */
  class LineBuffer {
    var line: string

    /** lbuf_putint: appends i, padded with zeros to at least minWidth digits. */
    method Putint(i: Word, minWidth: nat)
      modifies this
      ensures line == old(line) + Zeros(if |Decimal(i)| < minWidth then minWidth - |Decimal(i)| else 0) + Decimal(i)
    {
      var buf := new char[21];
      var p := Umaxtostr(i, buf);
      var width := 20 - p;
      var z := width;
      ghost var start := line;
      while z < minWidth
        invariant width <= z && (width < z ==> z <= minWidth)
        invariant line == start + Zeros(z - width) && buf[p..20] == Decimal(i)
      {
        ZerosSnoc(z - width);
        line := line + ['0'];
        z := z + 1;
      }
      assert z - width == if width < minWidth then minWidth - width else 0;
      line := line + buf[p..20];
    }

    /** print_uintmaxes: appends the decimal form of a two-word number, nine digits at a time. */
    method PrintUintmaxes(t1: Word, t0: Word)
      modifies this
      ensures line == old(line) + Decimal(Join(t1, t0))
      decreases Join(t1, t0)
    {
      hide Decimal, Mul;
      if t1 == 0 {
        Putint(t0, 0);
        assert line == old(line) + Zeros(0) + Decimal(t0);
      } else {
        var q, r := t1 / GROUP, t1 % GROUP;
        var u: Word, v: Word := UdivQrnnd(r, t0, GROUP);
        PrintStep(t1, t0, u, v);
        PrintUintmaxes(q, u);
        ghost var s := line;
        Putint(v, 9);
        assert line == s + (Zeros(9 - |Decimal(v)|) + Decimal(v));
      }
    }
  }

  lemma PrintStep(t1: Word, t0: Word, u: Word, v: Word)
    requires 0 < t1 && Join(t1 % GROUP, t0) == Mul(u, GROUP) + v && v < GROUP
    ensures 0 < Join(t1 / GROUP, u) < Join(t1, t0)
    ensures |Decimal(v)| <= 9
    ensures Decimal(Join(t1, t0)) == Decimal(Join(t1 / GROUP, u)) + (Zeros(9 - |Decimal(v)|) + Decimal(v))
  {
    hide Decimal, LastDigits, Zeros, Pow;
    var m := Join(t1 / GROUP, u);
    assert Join(t1, t0) == m * GROUP + v;
    GroupIsPower();
    SplitDigits(m, v, 9);
    PaddedDigits(v, 9);
  }

  lemma GroupIsPower()
    ensures Pow(10, 9) == GROUP
  {
    assert Pow(10, 4) == 10000;
    PowAdd(10, 4, 5);
    assert Pow(10, 5) == 100000;
  }

  /** Parsing what print_uintmaxes prints gives the two words back. */
  method PrintThenParse(t1: Word, t0: Word) returns (err: ParseStatus, hi: Word, lo: Word)
    ensures err == LongintOk && hi == t1 && lo == t0
  {
    hide Decimal, Value;
    var buffer := new LineBuffer;
    buffer.line := "";
    buffer.PrintUintmaxes(t1, t0);
    assert buffer.line == Decimal(Join(t1, t0));
    ReadWritten(Join(t1, t0));
    err, hi, lo := Strto2uintmax(buffer.line);
    JoinUnique(hi, lo, t1, t0);
  }
}
