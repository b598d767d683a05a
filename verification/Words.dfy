/**
 The one- and two-word arithmetic macros of factor.c.  A word is a number below B = 2^64 and C's unsigned
 operators are written out modulo B.  Where C joins fields that have no bit in common with `|`, the model adds them.
 */
module Words {
  import opened Arith

  const B: int := 0x1_0000_0000_0000_0000
  const HALF_B: int := 0x8000_0000_0000_0000
  const H: int := 0x1_0000_0000

  type Word = x: int | 0 <= x < 0x1_0000_0000_0000_0000

  function Wrap(x: int): Word {
    x % B
  }

  lemma WrapSmall(x: int)
    requires 0 <= x < B
    ensures Wrap(x) == x
  {}

  /** The number that the word pair <hi, lo> stands for. */
  function Join(hi: int, lo: int): int {
    hi * B + lo
  }

  /** A word pair and its low word have the same parity; the pair is zero only if both words are. */
  lemma JoinParity(hi: Word, lo: Word)
    ensures Join(hi, lo) % 2 == lo % 2
    ensures 0 <= Join(hi, lo) && (Join(hi, lo) == 0 <==> hi == 0 && lo == 0)
    ensures Join(0, lo) == lo
  {}

  lemma JoinUnique(h: int, l: Word, h': int, l': Word)
    requires Join(h, l) == Join(h', l')
    ensures h == h' && l == l'
  {}

  // ----- umul_ppmm

  lemma SplitProduct(uh: int, ul: int, vh: int, vl: int)
    ensures (uh * H + ul) * (vh * H + vl) == uh * vh * B + (ul * vh + uh * vl) * H + ul * vl
  {
    calc {
      (uh * H + ul) * (vh * H + vl);
      uh * H * (vh * H + vl) + ul * (vh * H + vl);
      { assert uh * H * (vh * H) == uh * vh * B; assert uh * H * vl == uh * vl * H; assert ul * (vh * H) == ul * vh * H; }
      uh * vh * B + uh * vl * H + ul * vh * H + ul * vl;
    }
  }

  lemma ShiftHalf(s: Word)
    ensures Wrap(s * H) == s % H * H && s * H == s / H * B + s % H * H
  {
    DivModUnique(s * H, B, s / H, s % H * H);
  }

  /** Adds up the four half-word products; the middle sum can carry into the high word. */
  method UmulAssemble(x0: int, x1: int, x2: int, x3: int) returns (w1: Word, w0: Word)
    requires 0 <= x0 <= (H - 1) * (H - 1) && 0 <= x1 <= (H - 1) * (H - 1)
    requires 0 <= x2 <= (H - 1) * (H - 1) && 0 <= x3 <= (H - 1) * (H - 1)
    ensures Join(w1, w0) == x3 * B + (x1 + x2) * H + x0
  {
    var m := Wrap(x1 + x0 / H);
    var s := Wrap(m + x2);
    var t := x3;
    if s < x2 {
      t := Wrap(x3 + H);
    }
    ShiftHalf(s);
    assert m == x1 + x0 / H;
    assert t * B + s * H == x3 * B + (m + x2) * H;
    w1 := Wrap(t + s / H);
    w0 := Wrap(s * H) + x0 % H;
  }

  /** The full product of two words, from four half-word products. */
  method UmulPpmm(u: Word, v: Word) returns (w1: Word, w0: Word)
    ensures Join(w1, w0) == Mul(u, v)
  {
    var ul, uh, vl, vh := u % H, u / H, v % H, v / H;
    MulBound(ul, vl, H - 1, H - 1);
    MulBound(ul, vh, H - 1, H - 1);
    MulBound(uh, vl, H - 1, H - 1);
    MulBound(uh, vh, H - 1, H - 1);
    SplitProduct(uh, ul, vh, vl);
    w1, w0 := UmulAssemble(ul * vl, ul * vh, uh * vl, uh * vh);
  }

  // ----- two-word shifts, comparison and subtraction

  predicate Ge2(ah: Word, al: Word, bh: Word, bl: Word) {
    ah > bh || (ah == bh && al >= bl)
  }

  predicate Gt2(ah: Word, al: Word, bh: Word, bl: Word) {
    ah > bh || (ah == bh && al > bl)
  }

  lemma CompareJoin(ah: Word, al: Word, bh: Word, bl: Word)
    ensures Ge2(ah, al, bh, bl) <==> Join(ah, al) >= Join(bh, bl)
    ensures Gt2(ah, al, bh, bl) <==> Join(ah, al) > Join(bh, bl)
  {}

  /** Subtraction of word pairs, with the borrow taken from a comparison. */
  method SubDdmmss(ah: Word, al: Word, bh: Word, bl: Word) returns (rh: Word, rl: Word)
    requires Join(bh, bl) <= Join(ah, al)
    ensures Join(rh, rl) == Join(ah, al) - Join(bh, bl)
  {
    var cy := if al < bl then 1 else 0;
    rl := Wrap(al - bl);
    rh := Wrap(ah - bh - cy);
  }

  /** Right shift of a word pair by one bit. */
  method Rsh2(ah: Word, al: Word) returns (rh: Word, rl: Word)
    ensures Join(rh, rl) == Join(ah, al) / 2
  {
    rl := Wrap(ah * HALF_B) + al / 2;
    rh := ah / 2;
  }

  lemma ShiftPieces(ah: int, al: int, P: int, Q: int, rh: int, x: int, y: int, z: int)
    requires P * Q == B && ah == rh * P + x && al == y * P + z && 0 <= x < P && 0 <= z < P
    ensures ah * Q == rh * B + x * Q && 0 <= x * Q <= B - Q
    ensures Join(ah, al) == Join(rh, x * Q + y) * P + z
  {
    assert (rh * P + x) * Q == rh * (P * Q) + x * Q;
    MulLe(x, P - 1, Q);
    assert (P - 1) * Q == B - Q;
    assert (rh * B + x * Q + y) * P == rh * P * B + x * (P * Q) + y * P;
  }

  /** Right shift of a word pair by cnt bits. */
  method Rsh2By(ah: Word, al: Word, cnt: nat) returns (rh: Word, rl: Word)
    requires 0 < cnt < 64
    ensures 0 < Pow(2, cnt) && Join(rh, rl) == Join(ah, al) / Pow(2, cnt)
  {
    var P, Q := Pow(2, cnt), Pow(2, 64 - cnt);
    PowPos(2, cnt);
    PowPos(2, 64 - cnt);
    PowTwoValues();
    PowAdd(2, cnt, 64 - cnt);
    ShiftFits(ah, al, P, Q);
    rl := Wrap(ah * Q) + al / P;
    rh := ah / P;
  }

  lemma QuotientSmall(al: Word, P: int, Q: int)
    requires 1 <= P && 1 <= Q && P * Q == B
    ensures 0 <= al / P < Q
  {
    var y := al / P;
    assert al == y * P + al % P;
    if Q <= y { MulLe(Q, y, P); assert false; }
    if y < 0 { MulLe(y, -1, P); assert false; }
  }

  lemma ShiftFits(ah: Word, al: Word, P: int, Q: int)
    requires 1 <= P && 1 <= Q && P * Q == B
    ensures 0 <= ah / P < B && 0 <= Wrap(ah * Q) + al / P < B
    ensures Join(ah / P, Wrap(ah * Q) + al / P) == Join(ah, al) / P
  {
    var rh, x, y, z := ah / P, ah % P, al / P, al % P;
    ShiftPieces(ah, al, P, Q, rh, x, y, z);
    QuotientSmall(al, P, Q);
    QuotientSmall(ah, P, Q);
    assert Q <= B by { MulLe(1, P, Q); }
    DivModUnique(ah * Q, B, rh, x * Q);
    DivModUnique(Join(ah, al), P, Join(rh, x * Q + y), z);
  }

  // ----- udiv_qrnnd

  /** d * 2^i, by doubling. */
  ghost function Scaled(d: int, i: nat): int {
    if i == 0 then d else 2 * Scaled(d, i - 1)
  }

  lemma {:induction false} ScaledPow(d: int, i: nat)
    ensures Scaled(d, i) == d * Pow(2, i)
  {
    if i != 0 {
      ScaledPow(d, i - 1);
      assert 2 * (d * Pow(2, i - 1)) == d * (2 * Pow(2, i - 1));
    }
  }

  lemma {:induction false} ScaledStep(d: int, i: nat)
    requires 0 <= d
    ensures d <= Scaled(d, i) && Scaled(d, 0) == d
    ensures 0 < i ==> Scaled(d, i) == 2 * Scaled(d, i - 1) && d <= Scaled(d, i - 1)
  {
    if i != 0 { ScaledStep(d, i - 1); }
  }

  /** One step of binary long division: the next bit b halves the divisor and doubles the quotient. */
  lemma QuotientStep(q: nat, b: int, D: int, d: int, n: int, r: int)
    requires 0 <= b <= 1 && 0 < d <= D && 0 <= r
    requires n == Mul(q, 2 * D) + r + b * D && n < d * B
    ensures n == Mul(2 * q + b, D) + r && 2 * q + b < B
  {
    assert (2 * q + b) * D == q * (2 * D) + b * D;
    if B <= 2 * q + b {
      MulBound(B, d, 2 * q + b, D);
    }
  }

  /** Division of <n1, n0> by d, one quotient bit at a time. */
  method UdivQrnnd(n1: Word, n0: Word, d: Word) returns (q: Word, r: Word)
    requires n1 < d
    ensures Join(n1, n0) == Mul(q, d) + r && r < d
  {
    var d1: Word, d0: Word := d, 0;
    var r1: Word, r0: Word := n1, n0;
    q := 0;
    ghost var n := Join(n1, n0);
    var i := 64;
    hide Mul, Pow, Scaled, Wrap;
    PowTwoValues();
    ScaledPow(d, 64);
    MulZero(Scaled(d, 64));
    while i > 0
      invariant 0 <= i <= 64
      invariant Join(d1, d0) == Scaled(d, i)
      invariant Join(r1, r0) < Scaled(d, i)
      invariant n == Mul(q, Scaled(d, i)) + Join(r1, r0)
    {
      ghost var D: int, R: int, Q: int := Scaled(d, i - 1), Join(r1, r0), q;
      ScaledStep(d, i);
      d1, d0 := Rsh2(d1, d0);
      QuotientStep(Q, 0, D, d, n, R);
      WrapSmall(2 * Q);
      q := Wrap(q * 2);
      CompareJoin(r1, r0, d1, d0);
      if Ge2(r1, r0, d1, d0) {
        QuotientStep(Q, 1, D, d, n, R - D);
        WrapSmall(2 * Q + 1);
        q := Wrap(q + 1);
        r1, r0 := SubDdmmss(r1, r0, d1, d0);
      }
      assert n == Mul(q, D) + Join(r1, r0);
      i := i - 1;
    }
    r := r0;
    ScaledStep(d, 0);
  }

  // ----- submod and addmod

  /** a - b modulo n; C selects the addend n with an all-ones mask when a < b. */
  method Submod(a: Word, b: Word, n: Word) returns (r: Word)
    requires a < n && b <= n
    ensures r < n && r == (a - b) % n
  {
    var t := if a < b then n else 0;
    r := Wrap(t + a - b);
    if a < b {
      DivModUnique(a - b, n, -1, r);
    } else {
      DivModUnique(a - b, n, 0, r);
    }
  }

  method Addmod(a: Word, b: Word, n: Word) returns (r: Word)
    requires a < n && b <= n
    ensures r < n && r == (a + b) % n
  {
    r := Submod(a, n - b, n);
    ModShift(a + b, -1, n);
    assert a - (n - b) == a + b + -1 * n;
  }

  // ----- shifts that drop trailing zeros

  /** x without its factors of two, and how many there were. */
  method StripTwos(x: Word) returns (odd: Word, cnt: nat)
    requires x != 0
    ensures x == odd * Pow(2, cnt) && odd % 2 == 1 && 1 <= odd && cnt < 64
    ensures x % 2 == 0 ==> 0 < cnt
  {
    odd, cnt := x, 0;
    while odd % 2 == 0
      invariant 1 <= odd && x == odd * Pow(2, cnt) && (cnt == 0 ==> odd == x)
      decreases odd
    {
      ghost var p := Pow(2, cnt);
      assert odd * p == (odd / 2) * (2 * p);
      odd, cnt := odd / 2, cnt + 1;
    }
    PowTwoValues();
    PowPos(2, cnt);
    if 64 <= cnt { PowMono(2, 64, cnt); }
    MulLe(1, odd, Pow(2, cnt));
  }
}
