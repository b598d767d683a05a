/** Modular inverses and Montgomery arithmetic of factor.c: binv, divexact_21, mulredc and powm. */
module Montgomery {
  import opened Arith
  import opened NumberTheory
  import opened Words

  // ----- binv

  /** binvert_table[i], the inverse of 2i + 1 modulo 2^8. */
  function BinvertTable(i: nat): Word
    requires i < 128
  {
    match i
    case 0 => 0x01 case 1 => 0xAB case 2 => 0xCD case 3 => 0xB7 case 4 => 0x39 case 5 => 0xA3 case 6 => 0xC5 case 7 => 0xEF
    case 8 => 0xF1 case 9 => 0x1B case 10 => 0x3D case 11 => 0xA7 case 12 => 0x29 case 13 => 0x13 case 14 => 0x35 case 15 => 0xDF
    case 16 => 0xE1 case 17 => 0x8B case 18 => 0xAD case 19 => 0x97 case 20 => 0x19 case 21 => 0x83 case 22 => 0xA5 case 23 => 0xCF
    case 24 => 0xD1 case 25 => 0xFB case 26 => 0x1D case 27 => 0x87 case 28 => 0x09 case 29 => 0xF3 case 30 => 0x15 case 31 => 0xBF
    case 32 => 0xC1 case 33 => 0x6B case 34 => 0x8D case 35 => 0x77 case 36 => 0xF9 case 37 => 0x63 case 38 => 0x85 case 39 => 0xAF
    case 40 => 0xB1 case 41 => 0xDB case 42 => 0xFD case 43 => 0x67 case 44 => 0xE9 case 45 => 0xD3 case 46 => 0xF5 case 47 => 0x9F
    case 48 => 0xA1 case 49 => 0x4B case 50 => 0x6D case 51 => 0x57 case 52 => 0xD9 case 53 => 0x43 case 54 => 0x65 case 55 => 0x8F
    case 56 => 0x91 case 57 => 0xBB case 58 => 0xDD case 59 => 0x47 case 60 => 0xC9 case 61 => 0xB3 case 62 => 0xD5 case 63 => 0x7F
    case 64 => 0x81 case 65 => 0x2B case 66 => 0x4D case 67 => 0x37 case 68 => 0xB9 case 69 => 0x23 case 70 => 0x45 case 71 => 0x6F
    case 72 => 0x71 case 73 => 0x9B case 74 => 0xBD case 75 => 0x27 case 76 => 0xA9 case 77 => 0x93 case 78 => 0xB5 case 79 => 0x5F
    case 80 => 0x61 case 81 => 0x0B case 82 => 0x2D case 83 => 0x17 case 84 => 0x99 case 85 => 0x03 case 86 => 0x25 case 87 => 0x4F
    case 88 => 0x51 case 89 => 0x7B case 90 => 0x9D case 91 => 0x07 case 92 => 0x89 case 93 => 0x73 case 94 => 0x95 case 95 => 0x3F
    case 96 => 0x41 case 97 => 0xEB case 98 => 0x0D case 99 => 0xF7 case 100 => 0x79 case 101 => 0xE3 case 102 => 0x05 case 103 => 0x2F
    case 104 => 0x31 case 105 => 0x5B case 106 => 0x7D case 107 => 0xE7 case 108 => 0x69 case 109 => 0x53 case 110 => 0x75 case 111 => 0x1F
    case 112 => 0x21 case 113 => 0xCB case 114 => 0xED case 115 => 0xD7 case 116 => 0x59 case 117 => 0xC3 case 118 => 0xE5 case 119 => 0x0F
    case 120 => 0x11 case 121 => 0x3B case 122 => 0x5D case 123 => 0xC7 case 124 => 0x49 case 125 => 0x33 case 126 => 0x55 case _ => 0xFF
  }

  lemma BinvertTable0(i: nat)
    requires i < 32
    ensures (BinvertTable(i) * (2 * i + 1)) % 0x100 == 1
  {}

  lemma BinvertTable32(i: nat)
    requires 32 <= i < 64
    ensures (BinvertTable(i) * (2 * i + 1)) % 0x100 == 1
  {}

  lemma BinvertTable64(i: nat)
    requires 64 <= i < 96
    ensures (BinvertTable(i) * (2 * i + 1)) % 0x100 == 1
  {}

  lemma BinvertTable96(i: nat)
    requires 96 <= i < 128
    ensures (BinvertTable(i) * (2 * i + 1)) % 0x100 == 1
  {}

  /** Every table entry is an inverse. */
  lemma BinvertTableInverse(i: nat)
    requires i < 128
    ensures IsInverse(BinvertTable(i), 2 * i + 1, 0x100)
  {
    hide BinvertTable;
    if i < 32 { BinvertTable0(i); }
    else if i < 64 { BinvertTable32(i); }
    else if i < 96 { BinvertTable64(i); }
    else { BinvertTable96(i); }
  }

  /** x is an inverse of n modulo m. */
  predicate IsInverse(x: int, n: int, m: int)
    requires 0 < m
  {
    (x * n) % m == 1
  }

  lemma InverseCong(x: int, y: int, n: int, n': int, m: int)
    requires 1 < m && x % m == y % m && n % m == n' % m && IsInverse(x, n, m)
    ensures IsInverse(y, n', m)
  {
    CongMul(x, y, n, m);
    CongMul(n, n', y, m);
    assert n * y == y * n && n' * y == y * n';
  }

  /** A Newton step doubles the number of correct low bits: 1 - (x n)' = (1 - x n)^2. */
  lemma NewtonStep(x: int, n: int, m: int)
    requires 1 < m && IsInverse(x, n, m)
    ensures 1 < m * m && IsInverse(2 * x - x * x * n, n, m * m)
  {
    var k := (x * n) / m;
    assert x * n == k * m + 1;
    var y := 2 * x - x * x * n;
    calc {
      y * n;
      { assert x * x * n * n == (x * n) * (x * n); }
      2 * (x * n) - (x * n) * (x * n);
      { assert (k * m + 1) * (k * m + 1) == (k * k) * (m * m) + 2 * (k * m) + 1 by { Rearrange(k, m, k, m); } }
      1 + -(k * k) * (m * m);
    }
    MulLt(1, m, m);
    ModShift(1, -(k * k), m * m);
    ModSmall(1, m * m);
  }

  /** The same step on words: the wrap-around modulo B does not disturb the low bits. */
  lemma NewtonWord(x: Word, n: Word, m: int, j: int)
    requires 1 < m && B == j * (m * m) && IsInverse(x, n, m)
    ensures 1 < m * m && IsInverse(Wrap(2 * x - x * x * n), n, m * m)
  {
    NewtonStep(x, n, m);
    var y := 2 * x - x * x * n;
    var M := m * m;
    var k := y / B;
    assert y == Wrap(y) + k * B;
    assert k * B == (k * j) * M;
    ModShift(Wrap(y), k * j, M);
    InverseCong(y, Wrap(y), n, n, M);
  }

  /** n^-1 modulo B, by three Newton steps from the eight-bit table. */
  method Binv(n: Word) returns (inv: Word)
    requires n % 2 == 1
    ensures IsInverse(inv, n, B)
  {
    hide BinvertTable, IsInverse;
    inv := BinvertTable((n / 2) % 0x80);
    BinvertStart(n, inv);
    NewtonWord(inv, n, 0x100, 0x1_0000_0000_0000);
    inv := Wrap(2 * inv - inv * inv * n);
    NewtonWord(inv, n, 0x1_0000, 0x1_0000_0000);
    inv := Wrap(2 * inv - inv * inv * n);
    NewtonWord(inv, n, 0x1_0000_0000, 1);
    inv := Wrap(2 * inv - inv * inv * n);
  }

  lemma BinvertStart(n: Word, x: int)
    requires n % 2 == 1 && x == BinvertTable((n / 2) % 0x80)
    ensures IsInverse(x, n, 0x100)
  {
    hide BinvertTable, IsInverse;
    var i := (n / 2) % 0x80;
    BinvertTableInverse(i);
    TableIndex(n);
    InverseCong(x, x, 2 * i + 1, n, 0x100);
  }

  lemma TableIndex(n: Word)
    requires n % 2 == 1
    ensures (2 * ((n / 2) % 0x80) + 1) % 0x100 == n % 0x100
  {
    var k, r := n / 0x100, n % 0x100;
    DivModUnique(n / 2, 0x80, k, r / 2);
  }

  // ----- exact division

  /** The quotient of an exact division by an odd d, from the low words alone. */
  lemma ExactLowWord(q: int, d: Word, di: Word, u: int)
    requires IsInverse(di, d, B) && 0 <= q < B && (q * d) % B == u % B
    ensures Wrap(Mul(u, di)) == q
  {
    CongMul(u, q * d, di, B);
    assert q * d * di == (di * d) * q;
    CongMul(di * d, 1, q, B);
  }

  lemma HighQuotient(q1: int, q0: Word, d: int, u1: int, u0: Word, p1: int, p0: Word)
    requires Mul(Join(q1, q0), d) == Join(u1, u0) && Mul(q0, d) == Join(p1, p0)
    ensures q1 * d == u1 - p1
  {
    assert (q1 * B + q0) * d == (q1 * d) * B + q0 * d;
    assert (q1 * d - u1 + p1) * B == u0 - p0;
  }

  lemma QuotientRange(q: int, d: Word, u1: Word, u0: Word)
    requires 1 <= d && q * d == Join(u1, u0)
    ensures 0 <= q < B * B && (u1 < d ==> q < B)
  {
    if q < 0 { MulLe(q, -1, d); assert false; }
    if B * B <= q { MulLe(1, d, q); assert false; }
    if u1 < d && B <= q { MulLe(B, q, d); assert false; }
  }

  lemma LowProduct(q1: int, q0: int, d: int)
    ensures (q0 * d) % B == Mul(Join(q1, q0), d) % B
  {
    assert (q1 * B + q0) * d == q0 * d + (q1 * d) * B;
    ModShift(q0 * d, q1 * d, B);
  }

  /** An exact two-word quotient: its words q1, q0 and what is known of them from the dividend. */
  lemma QuotientWords(d: Word, u1: Word, u0: Word) returns (q1: Word, q0: Word)
    requires 1 <= d && Divides(d, Join(u1, u0))
    ensures Mul(Join(q1, q0), d) == Join(u1, u0)
    ensures (u1 < d ==> q1 == 0) && (q0 * d) % B == u0
  {
    var q := DividesElim(d, Join(u1, u0));
    QuotientRange(q, d, u1, u0);
    q1, q0 := q / B, q % B;
    assert Join(q1, q0) == q;
    LowProduct(q1, q0, d);
    hide Mul;
    assert Join(u1, u0) % B == u0;
  }

  /** divexact_21: the quotient of <u1, u0> by an odd divisor of it. */
  method Divexact21(u1: Word, u0: Word, d: Word) returns (q1: Word, q0: Word)
    requires d % 2 == 1 && Divides(d, Join(u1, u0))
    ensures Mul(Join(q1, q0), d) == Join(u1, u0)
  {
    hide IsInverse, Mul, Join, Divides, Wrap;
    ghost var h, l := QuotientWords(d, u1, u0);
    var di := Binv(d);
    ExactLowWord(l, d, di, u0);
    q0 := Wrap(Mul(u0, di));
    if u1 >= d {
      var p1, p0 := UmulPpmm(q0, d);
      HighQuotient(h, l, d, u1, u0, p1, p0);
      ExactLowWord(h, d, di, u1 - p1);
      q1 := Wrap(Mul(u1 - p1, di));
    } else {
      q1 := 0;
    }
  }

  // ----- mulredc

  lemma InverseTimes(t: int, x: int, n: int)
    requires IsInverse(x, n, B)
    ensures Mul(Wrap(Mul(t, x)), n) % B == t % B
  {
    ModMulLeft(t * x, n, B);
    assert t * x * n == (x * n) * t;
    CongMul(x * n, 1, t, B);
  }

  /** q n agrees with the low word t when q = t / n modulo B. */
  lemma LowWordAgrees(t: Word, n: int, x: Word, hi: Word, lo: Word)
    requires IsInverse(x, n, B) && Join(hi, lo) == Mul(Wrap(Mul(t, x)), n)
    ensures lo == t
  {
    hide Mul, IsInverse, Wrap;
    InverseTimes(t, x, n);
    assert Join(hi, lo) % B == lo;
  }

  lemma CongMinusMultiple(x: int, q: int, m: int)
    requires 0 < m
    ensures Cong(x - Mul(q, m), x, m) && Cong(x - Mul(q, m) + m * B, x, m)
  {
    var y := x - Mul(q, m);
    ModShift(y, q, m);
    assert y + q * m == x;
    hide Mul;
    ModShift(y, B, m);
  }

  lemma RedcBounds(ab: int, q: Word, m: Word, rh: Word, th: Word, l: Word)
    requires ab == Join(rh, l) < m * B && Mul(q, m) == Join(th, l)
    ensures rh < m && th < m && Cong((rh - th) * B, ab, m) && Cong((rh - th + m) * B, ab, m)
  {
    assert Mul(q, m) < m * B by { MulLt(q, B, m); }
    CongMinusMultiple(ab, q, m);
    hide Mul, Cong;
    assert (rh - th) * B == ab - Mul(q, m);
  }

  lemma WrapDifference(a: Word, b: Word, m: Word)
    requires a < m && b < m
    ensures b <= a ==> Wrap(a - b) == a - b
    ensures a < b ==> Wrap(Wrap(a - b) + m) == a - b + m
  {}

  /** Montgomery's product a b / B modulo m, fully reduced. */
  method Mulredc(a: Word, b: Word, m: Word, mi: Word) returns (xh: Word)
    requires IsInverse(mi, m, B) && Mul(a, b) < m * B
    ensures xh < m && Cong(xh * B, Mul(a, b), m)
  {
    hide IsInverse, Mul, Cong, Wrap;
    var rh: Word, rl: Word := UmulPpmm(a, b);
    var q := Wrap(Mul(rl, mi));
    var th: Word, tl: Word := UmulPpmm(q, m);
    LowWordAgrees(rl, m, mi, th, tl);
    RedcBounds(Mul(a, b), q, m, rh, th, rl);
    WrapDifference(rh, th, m);
    xh := Wrap(rh - th);
    if rh < th {
      xh := Wrap(xh + m);
    }
  }

  // ----- the residue domain

  /** The redc form of x: x B modulo n. */
  function Mont(x: int, n: int): int
    requires 0 < n
  {
    (x * B) % n
  }

  /** The word base can be cancelled modulo an odd n. */
  lemma CancelBase(u: int, v: int, n: int, ni: int)
    requires 0 < n && IsInverse(ni, n, B) && (u * B) % n == (v * B) % n
    ensures u % n == v % n
  {
    var k := (ni * n) / B;
    assert ni * n == k * B + 1;
    var d := u - v;
    CongSub(u * B, v * B, n);
    assert u * B - v * B == d * B;
    assert d == (d * ni) * n - (d * B) * k by {
      assert d * (ni * n) == d * (k * B) + d;
      assert d * (k * B) == (d * B) * k;
    }
    DividesMul(n, d * B, k);
    DividesIntro(n, d * ni);
    DividesAdd(n, (d * B) * k, d);
    CongSub(u, v, n);
  }

  /** Two numbers have the same redc form exactly when they are congruent. */
  lemma MontInjective(x: int, y: int, n: int, ni: int)
    requires 0 < n && IsInverse(ni, n, B)
    ensures Mont(x, n) == Mont(y, n) <==> x % n == y % n
  {
    if x % n == y % n { CongMul(x, y, B, n); }
    if Mont(x, n) == Mont(y, n) { CancelBase(x, y, n, ni); }
  }

  lemma MontProduct(x: int, y: int, n: int, ni: int, r: int)
    requires 0 < n && IsInverse(ni, n, B)
    requires 0 <= r < n && Cong(r * B, Mul(Mont(x, n), Mont(y, n)), n)
    ensures r == Mont(x * y, n)
  {
    ModMul(x * B, y * B, n);
    Rearrange(x, B, y, B);
    assert (x * B) * (y * B) == (x * y * B) * B;
    CancelBase(r, x * y * B, n, ni);
    ModSmall(r, n);
  }

  /** Mulredc multiplies in redc form. */
  method MontMul(a: Word, b: Word, n: Word, ni: Word, ghost x: int, ghost y: int) returns (r: Word)
    requires 0 < n && IsInverse(ni, n, B) && a == Mont(x, n) && b == Mont(y, n)
    ensures r < n && r == Mont(x * y, n)
  {
    MulBound(a, b, n - 1, B);
    assert Mul(a, b) < n * B;
    hide IsInverse, Mont, Mul, Cong;
    r := Mulredc(a, b, n, ni);
    MontProduct(x, y, n, ni, r);
  }

  lemma MontSmall(x: int, n: int)
    requires 0 < n
    ensures 0 <= Mont(x, n) < n
  {}

  // ----- powm

  lemma SquareStep(x: int, y: int, h: nat)
    ensures y * Pow(x, 2 * h) == y * Pow(x * x, h)
    ensures 0 < h ==> y * Pow(x * x, h) == y * (x * x) * Pow(x * x, h - 1)
  {
    PowMul(x, 2, h);
    assert Pow(x, 2) == x * Pow(x, 1) == x * x;
    if 0 < h {
      assert y * ((x * x) * Pow(x * x, h - 1)) == y * (x * x) * Pow(x * x, h - 1);
    }
  }

  /** x^e in redc form, by repeated squaring. */
  method Powm(b0: Word, e0: Word, n: Word, ni: Word, one: Word, ghost x: int) returns (y: Word)
    requires 0 < n && IsInverse(ni, n, B)
    requires one == Mont(1, n) && b0 == Mont(x, n)
    ensures y < n && y == Mont(Pow(x, e0), n)
  {
    hide IsInverse, Mont, Pow;
    var b, e: Word := b0, e0;
    y := one;
    ghost var X, Y := x, 1;
    if e % 2 == 1 {
      y := b;
      Y := x;
    }
    PowFirst(x, e);
    while e != 0
      invariant b == Mont(X, n) && y == Mont(Y, n)
      invariant Mul(Y, Pow(X, e - e % 2)) == Pow(x, e0)
      decreases e
    {
      SquareStep(X, Y, e / 2);
      b := MontMul(b, b, n, ni, X, X);
      X := X * X;
      e := e / 2;
      if e % 2 == 1 {
        y := MontMul(y, b, n, ni, Y, X);
        Y := Y * X;
      }
    }
    PowFirst(X, 0);
    MontSmall(Y, n);
  }

  lemma PowFirst(x: int, e: nat)
    ensures Pow(x, 0) == 1
    ensures Mul(if e % 2 == 1 then x else 1, Pow(x, e - e % 2)) == Pow(x, e)
  {}
}
