/** __udivmoddi4 of compiler-rt: 64-bit division on 32-bit halves, by normalisation and a shift-and-subtract loop. */
module ShiftDivision {
  import opened Arith
  import opened Bits
  import opened KnuthDivision
  import opened WideDivision
  import opened Words

  const HALF_H: int := 0x8000_0000

  type Half = x: int | 0 <= x < 0x1_0000_0000

  /** The 64-bit view of a pair of halves. */
  function All(high: int, low: int): int {
    high * H + low
  }

  /** clz of a non-zero half. */
  function Clz(x: Half): int {
    32 - BitLength(x)
  }

  // ----- n split at bit sr: r holds the high part, the top of q the low part

  ghost predicate Split(n: int, sr: nat, r: int, q: int, rest: int)
    requires sr <= 64
  {
    n == Mul(r, Pow(2, sr)) + rest && 0 <= rest < Pow(2, sr) && q == Mul(rest, Pow(2, 64 - sr))
  }

  /** Shifting a half left by 32 - k keeps its k low bits, shifting right by k keeps the others. */
  lemma Pieces(x: Half, P: int, P': int)
    requires 1 <= P && 1 <= P' && P * P' == H
    ensures x == Mul(x / P, P) + x % P && 0 <= x % P < P && 0 <= x / P < P'
    ensures (x * P') % H == Mul(x % P, P') && Mul(x % P, P') <= H - P'
  {
    DivModIdentity(x, P);
    var h, l := x / P, x % P;
    if P' <= h { MulLe(P', h, P); }
    assert x * P' == h * (P * P') + l * P';
    MulLe(l + 1, P, P');
    MulLe(0, l, P');
    DivModUnique(x * P', H, h, l * P');
  }

  lemma HalfPowers(k: nat)
    requires k <= 32
    ensures 1 <= Pow(2, k) && 1 <= Pow(2, 32 - k) && Pow(2, k) * Pow(2, 32 - k) == H
    ensures Pow(2, 32 + k) == Pow(2, k) * H && Pow(2, 64 - k) == Pow(2, 32 - k) * H
  {
    PowTwoValues();
    PowPos(2, k);
    PowPos(2, 32 - k);
    PowAdd(2, k, 32 - k);
    PowAdd(2, k, 32);
    PowAdd(2, 32 - k, 32);
  }

  /** (high << (32 - k)) | (low >> k), where the two fields do not meet. */
  method JoinPieces(high: Half, low: Half, k: nat) returns (x: Half)
    requires 1 <= k <= 31
    ensures 1 <= Pow(2, k) && x == Mul(high % Pow(2, k), Pow(2, 32 - k)) + low / Pow(2, k)
  {
    hide Pow, Or, Shl, Mul;
    HalfPowers(k);
    Pieces(high, Pow(2, k), Pow(2, 32 - k));
    Pieces(low, Pow(2, k), Pow(2, 32 - k));
    ShlMul(high % Pow(2, k), 32 - k);
    OrDisjoint(high % Pow(2, k), 32 - k, low / Pow(2, k));
    x := Or((high * Pow(2, 32 - k)) % H, low / Pow(2, k));
  }

  lemma ShlMul(x: nat, k: nat)
    ensures Shl(x, k) == Mul(x, Pow(2, k))
  {
    ShlPow(x, k);
  }

  lemma ShortPieces(P: int, P': int, h1: int, h0: int, l1: int, l0: int)
    requires P * P' == H
    ensures All(Mul(h1, P) + h0, Mul(l1, P) + l0) == Mul(All(h1, Mul(h0, P') + l1), P) + l0
    ensures All(Mul(l0, P'), 0) == Mul(l0, P' * H)
  {
    assert (h1 * H + (h0 * P' + l1)) * P == (h1 * P) * H + h0 * (P * P') + l1 * P;
    assert l0 * (P' * H) == (l0 * P') * H;
  }

  lemma LongPieces(P: int, P': int, h1: int, h0: int, l1: int, l0: int)
    requires P * P' == H
    ensures All(Mul(h1, P) + h0, Mul(l1, P) + l0) == Mul(h1, P * H) + All(h0, Mul(l1, P) + l0)
    ensures All(Mul(h0, P') + l1, Mul(l0, P')) == Mul(All(h0, Mul(l1, P) + l0), P')
  {
    assert h1 * (P * H) == (h1 * P) * H;
    assert (h0 * H + (l1 * P + l0)) * P' == (h0 * P') * H + l1 * (P * P') + l0 * P';
  }

  /** 1 <= sr <= 31. */
  method SplitShort(nh: Half, nl: Half, sr: nat) returns (qh: Half, ql: Half, rh: Half, rl: Half, ghost rest: int)
    requires 1 <= sr <= 31
    ensures Split(All(nh, nl), sr, All(rh, rl), All(qh, ql), rest)
  {
    hide Pow, Mul;
    HalfPowers(sr);
    var P, P' := Pow(2, sr), Pow(2, 32 - sr);
    Pieces(nh, P, P');
    Pieces(nl, P, P');
    ShortPieces(P, P', nh / P, nh % P, nl / P, nl % P);
    qh, ql := (nl * P') % H, 0;
    HalvesShrink(nh, P);
    rh := nh / P;
    rl := JoinPieces(nh, nl, sr);
    rest := nl % P;
  }

  lemma HalvesShrink(x: Half, P: int)
    requires 1 <= P
    ensures 0 <= x / P <= x
  {
    QuotientIsSmall(x, if P < B then P else 1);
    if B <= P { ModSmall(x, P); }
  }

  /** sr == 32: whole halves move. */
  method SplitMiddle(nh: Half, nl: Half) returns (qh: Half, ql: Half, rh: Half, rl: Half, ghost rest: int)
    ensures Split(All(nh, nl), 32, All(rh, rl), All(qh, ql), rest)
  {
    PowTwoValues();
    qh, ql, rh, rl, rest := nl, 0, 0, nh, nl;
  }

  /** 33 <= sr <= 63. */
  method SplitLong(nh: Half, nl: Half, sr: nat) returns (qh: Half, ql: Half, rh: Half, rl: Half, ghost rest: int)
    requires 33 <= sr <= 63
    ensures Split(All(nh, nl), sr, All(rh, rl), All(qh, ql), rest)
  {
    hide Pow, Mul;
    HalfPowers(sr - 32);
    var P, P' := Pow(2, sr - 32), Pow(2, 64 - sr);
    Pieces(nh, P, P');
    Pieces(nl, P, P');
    LongPieces(P, P', nh / P, nh % P, nl / P, nl % P);
    ql := (nl * P') % H;
    qh := JoinPieces(nh, nl, sr - 32);
    HalvesShrink(nh, P);
    rh, rl := 0, nh / P;
    rest := All(nh % P, nl);
    RestBound(nh % P, nl, P);
  }

  lemma RestBound(h: int, l: Half, P: int)
    requires 0 <= h < P
    ensures 0 <= All(h, l) < P * H
  {
    MulLe(h + 1, P, H);
  }

  // ----- the loop

  /** The bit of the rest of n that leaves q. */
  lemma TopBit(q: int, qq: int, rest: int, P: int, R: int)
    requires 0 <= rest < 2 * P && q == Mul(rest, R) + qq && 0 <= qq < R && P * R == HALF_B && 0 < P && 0 < R
    ensures var top := if rest >= P then 1 else 0;
            && q / HALF_B == top && 0 <= 2 * q - top * B < B
            && 2 * q - top * B == Mul(rest - top * P, 2 * R) + 2 * qq
  {
    var top := if rest >= P then 1 else 0;
    var rest' := rest - top * P;
    assert rest * R == top * (P * R) + rest' * R;
    MulLe(rest' + 1, P, R);
    MulLe(0, rest', R);
    DivModUnique(q, HALF_B, top, rest' * R + qq);
    assert rest' * (2 * R) == 2 * (rest' * R);
  }

  /** The same bit enters r, which does not overflow. */
  lemma BitEnters(n: int, x: int, r: int, rest: int, P: int)
    requires n == Mul(x + r, 2 * P) + rest && 0 <= rest < 2 * P && 0 < P && 0 <= r && 0 <= x && n < B
    ensures var top := if rest >= P then 1 else 0;
            n == Mul(2 * x + (2 * r + top), P) + (rest - top * P) && 2 * r + top < B
  {
    var top := if rest >= P then 1 else 0;
    var y := 2 * x + (2 * r + top);
    assert (x + r) * (2 * P) + rest == y * P + (rest - top * P);
    if B <= y { MulLe(B, y, P); MulLe(1, P, B); }
  }

  /** Doubling the register pair r:q moves the top bit of q into r; no bit of r is lost. */
  lemma ShiftPair(n: int, d: int, Q: int, r: int, q: int, qq: int, rest: int, P: int, R: int, carry: int)
    requires n == Mul(Mul(Q, d) + r, 2 * P) + rest && 0 <= rest < 2 * P && Q == 2 * qq + carry
    requires q == Mul(rest, R) + qq && 0 <= qq < R && P * R == HALF_B && 0 < P && 0 < R
    requires 0 <= r && 0 <= n < B && 0 <= Mul(Q, d) && 0 <= carry <= 1
    ensures var top := q / HALF_B; var rest' := rest - top * P;
            && 0 <= top <= 1 && 0 <= rest' < P && 2 * r + top < B
            && n == Mul(2 * Mul(Q, d) + (2 * r + top), P) + rest'
            && 2 * q + carry - top * B == Mul(rest', 2 * R) + Q
            && 0 <= 2 * q - top * B < B
  {
    hide Mul;
    TopBit(q, qq, rest, P, R);
    BitEnters(n, Mul(Q, d), r, rest, P);
  }

  /** The four half-word shifts are one 128-bit shift. */
  method ShiftLeft(rh: Half, rl: Half, qh: Half, ql: Half, carry: int)
    returns (rh': Half, rl': Half, qh': Half, ql': Half)
    requires 0 <= carry <= 1
    ensures All(rh', rl') == Wrap(2 * All(rh, rl)) + All(qh, ql) / HALF_B
    ensures All(qh', ql') == Wrap(2 * All(qh, ql)) + carry
  {
    hide Or;
    HalfBit(rh, rl / HALF_H);
    HalfBit(rl, qh / HALF_H);
    HalfBit(qh, ql / HALF_H);
    HalfBit(ql, carry);
    rh' := Or((2 * rh) % H, rl / HALF_H);
    rl' := Or((2 * rl) % H, qh / HALF_H);
    qh' := Or((2 * qh) % H, ql / HALF_H);
    ql' := Or((2 * ql) % H, carry);
    ShiftHalves(rh, rl);
    ShiftHalves(qh, ql);
  }

  lemma HalfBit(x: Half, c: int)
    requires 0 <= c <= 1
    ensures Or((2 * x) % H, c) == (2 * x) % H + c <= H - 1
  {
    OrDouble(x % HALF_H, 0, c);
    assert (2 * x) % H == 2 * (x % HALF_H);
  }

  lemma ShiftHalves(h: Half, l: Half)
    ensures All((2 * h) % H + l / HALF_H, (2 * l) % H) == Wrap(2 * All(h, l))
    ensures All(h, l) / HALF_B == h / HALF_H
  {
    var c := h / HALF_H;
    assert 2 * h == c * H + (2 * h) % H && 2 * l == l / HALF_H * H + (2 * l) % H;
    DivModUnique(2 * All(h, l), B, c, All((2 * h) % H + l / HALF_H, (2 * l) % H));
  }

  lemma QuotientGrows(n: int, d: int, Q: int, r: int, P: int, rest: int)
    requires n == Mul(2 * Mul(Q, d) + r, P) + rest
    ensures n == Mul(Mul(2 * Q, d) + r, P) + rest
    ensures n == Mul(Mul(2 * Q + 1, d) + (r - d), P) + rest
  {
    assert 2 * (Q * d) == (2 * Q) * d && (2 * Q + 1) * d == (2 * Q) * d + d;
  }

  lemma QuotientBound(n: int, d: int, Q: int, r: int)
    requires n == Mul(Mul(Q, d) + r, 1) + 0 && 0 <= r && 0 < d && 0 <= Q && 0 <= n < B
    ensures n == Mul(Q, d) + r && Q < B
  {
    MulLe(1, d, Q);
  }

  lemma LoopPowers(sr: nat)
    requires 1 <= sr <= 64
    ensures Pow(2, sr) == 2 * Pow(2, sr - 1) && Pow(2, 65 - sr) == 2 * Pow(2, 64 - sr)
    ensures Pow(2, sr - 1) * Pow(2, 64 - sr) == HALF_B && 0 < Pow(2, sr - 1) && 0 < Pow(2, 64 - sr)
  {
    PowPos(2, sr - 1);
    PowPos(2, 64 - sr);
    PowAdd(2, sr - 1, 64 - sr);
    PowTwoValues();
    assert Pow(2, 64) == 2 * Pow(2, 63);
  }

  /**
   What every iteration keeps: Q is the quotient found so far with its last bit still in carry, r the remainder, and
   the rest of n waits above Q in q.
   */
  ghost predicate Dividing(n: int, d: int, sr: int, r: int, q: int, qq: int, rest: int, carry: int) {
    && 0 <= sr <= 64 && 0 <= carry <= 1 && 0 <= r < d
    && 0 <= rest < Pow(2, sr) && 0 <= qq < Pow(2, 64 - sr)
    && n == Mul(Mul(2 * qq + carry, d) + r, Pow(2, sr)) + rest
    && q == Mul(rest, Pow(2, 64 - sr)) + qq
  }

  /** One iteration keeps the division state, and its mask is the comparison r >= d. */
  lemma Iterate(n: Word, d: Word, sr: int, r: int, q: int, qq: int, rest: int, carry: int)
    requires Dividing(n, d, sr, r, q, qq, rest, carry) && 1 <= sr
    requires d >= HALF_B ==> sr == 1 && n >= HALF_B && qq == 0 && carry == 0
    ensures var top := q / HALF_B; var r' := 2 * r + top; var c := if r' >= d then 1 else 0;
            && 0 <= top <= 1 && r' == Wrap(2 * r) + top < B
            && SignMask(Wrap(d - r' - 1), HALF_B) == -c
            && Dividing(n, d, sr - 1, r' - c * d, Wrap(2 * q) + carry, 2 * qq + carry, rest - top * Pow(2, sr - 1), c)
  {
    hide Mul, Pow, SignMask;
    LoopPowers(sr);
    var Q, P, R := 2 * qq + carry, Pow(2, sr - 1), Pow(2, 64 - sr);
    ProductNonNegative(Q, d);
    ShiftPair(n, d, Q, r, q, qq, rest, P, R, carry);
    var top := q / HALF_B;
    var r' := 2 * r + top;
    QuotientGrows(n, d, Q, r', P, rest - top * P);
    DivModUnique(2 * q, B, top, 2 * q - top * B);
    WrapSmall(2 * r);
    if d >= HALF_B { OnlyIteration(n, d, r', P, rest - top * P); }
    MaskCompares(d, r', HALF_B);
  }

  lemma ProductNonNegative(Q: int, d: int)
    requires 0 <= Q && 0 <= d
    ensures 0 <= Mul(Q, d)
  {
    MulLe(0, Q, d);
  }

  lemma OnlyIteration(n: int, d: int, r: int, P: int, rest: int)
    requires n == Mul(2 * Mul(0, d) + r, P) + rest && P == Pow(2, 0) && 0 <= rest < P
    ensures n == r
  {}

  /** The loop, from n split at sr to the quotient and remainder. */
  method ShiftSubtract(n: Word, d: Word, sr0: nat, qh0: Half, ql0: Half, rh0: Half, rl0: Half, ghost rest0: int)
    returns (q: Word, rem: Word)
    requires 1 <= sr0 <= 63 && Split(n, sr0, All(rh0, rl0), All(qh0, ql0), rest0) && All(rh0, rl0) < d
    requires d >= HALF_B ==> sr0 == 1 && n >= HALF_B
    ensures n == Mul(q, d) + rem && rem < d
  {
    hide Mul, Pow, Dividing, SignMask, Or;
    var sr: int, carry: int := sr0, 0;
    var qh: Half, ql: Half, rh: Half, rl: Half := qh0, ql0, rh0, rl0;
    ghost var qq, rest := 0, rest0;
    BeginLoop(n, d, sr0, All(rh0, rl0), All(qh0, ql0), rest0);
    while sr > 0
      invariant 0 <= sr <= 64 && 0 <= carry <= 1 && Dividing(n, d, sr, All(rh, rl), All(qh, ql), qq, rest, carry)
      invariant d >= HALF_B && sr != 0 ==> sr == 1 && n >= HALF_B && qq == 0 && carry == 0
    {
      Iterate(n, d, sr, All(rh, rl), All(qh, ql), qq, rest, carry);
      qq, rest := 2 * qq + carry, rest - All(qh, ql) / HALF_B * Pow(2, sr - 1);
      rh, rl, qh, ql := ShiftLeft(rh, rl, qh, ql, carry);
      var s := SignMask(Wrap(d - All(rh, rl) - 1), HALF_B);
      carry := Masked(1, s);
      var r: Word := All(rh, rl) - Masked(d, s);
      rh, rl := r / H, r % H;
      sr := sr - 1;
    }
    EndLoop(n, d, All(rh, rl), All(qh, ql), qq, rest, carry);
    q := Or(Wrap(2 * All(qh, ql)), carry);
    rem := All(rh, rl);
  }

  lemma BeginLoop(n: int, d: int, sr: nat, r: int, q: int, rest: int)
    requires 1 <= sr <= 63 && Split(n, sr, r, q, rest) && 0 <= r < d
    ensures Dividing(n, d, sr, r, q, 0, rest, 0)
  {
    PowPos(2, 64 - sr);
  }

  lemma EndLoop(n: Word, d: Word, r: int, q: int, qq: int, rest: int, carry: int)
    requires Dividing(n, d, 0, r, q, qq, rest, carry) && 0 <= q < B
    ensures 0 <= Or(Wrap(2 * q), carry) < B && n == Mul(Or(Wrap(2 * q), carry), d) + r && 0 <= r < d
  {
    assert rest == 0 && q == qq;
    QuotientBound(n, d, 2 * qq + carry, r);
    assert Wrap(2 * q) == 2 * q;
    assert Or(2 * q, carry) == 2 * q + carry by { OrDouble(q, 0, carry); }
  }

  // ----- __udivmoddi4

  lemma {:induction false} BitLengthShifted(x: nat, y: nat, k: nat)
    requires 0 < x && y < Pow(2, k)
    ensures BitLength(Shl(x, k) + y) == k + BitLength(x)
  {
    if k != 0 {
      BitLengthShifted(x, y / 2, k - 1);
      assert (Shl(x, k) + y) / 2 == Shl(x, k - 1) + y / 2;
    }
  }

  lemma BitLengthAll(high: Half, low: Half)
    requires 0 < high
    ensures BitLength(All(high, low)) == 32 + BitLength(high)
  {
    hide BitLength, Shl;
    PowTwoValues();
    ShlPow(high, 32);
    BitLengthShifted(high, low, 32);
  }

  lemma BitLengthHalf(x: Half)
    requires 0 < x
    ensures 1 <= BitLength(x) <= 32 && (x >= 2 ==> 2 <= BitLength(x))
  {
    hide Pow;
    PowTwoValues();
    BitLengthAtMost(x, 32);
    if x >= 2 { assert BitLength(x) == 1 + BitLength(x / 2) && 1 <= x / 2; }
  }

  /** A dividend with fewer bits than the divisor is smaller. */
  lemma FewerBits(n: nat, d: nat)
    requires BitLength(n) < BitLength(d)
    ensures n < d
  {
    if d <= n { BitLengthMono(d, n); }
  }

  /** With sr chosen from the bit lengths the high part of n is below d. */
  lemma HighPartBelow(n: Word, d: Word, sr: nat, r: int, q: int, rest: int)
    requires 0 < d && 0 < n && 1 <= sr <= 63 && sr == BitLength(n) - BitLength(d) + 1 && Split(n, sr, r, q, rest)
    ensures r < d && (d >= HALF_B ==> sr == 1 && n >= HALF_B)
  {
    hide BitLength, Mul;
    PowTwoValues();
    BitLengthBounds(n);
    BitLengthBounds(d);
    var k, j := BitLength(n), BitLength(d);
    PowAdd(2, sr, j - 1);
    HighPart(n, r, rest, Pow(2, sr), Pow(2, j - 1));
    assert Pow(2, 64) == 2 * Pow(2, 63);
    BitLengthAtMost(n, 64);
    if d >= HALF_B {
      if j < 64 { PowMono(2, j, 63); }
      assert k == 64 && Pow(2, k - 1) == Pow(2, 63);
    }
  }

  lemma HighPart(n: int, r: int, rest: int, P: int, J: int)
    requires n == Mul(r, P) + rest && 0 <= rest < P && n < P * J
    ensures r < J
  {
    if J <= r { MulLe(J, r, P); }
  }

  /** K X / K 0 with a power of two in the high half. */
  method DivideByHighPower(nh: Half, nl: Half, dh: Half) returns (q: Word, rem: Word)
    requires 0 < dh && And(dh, dh - 1) == 0
    ensures All(nh, nl) == Mul(q, All(dh, 0)) + rem && rem < All(dh, 0)
  {
    hide And, Pow, Mul, Ctz;
    PowerOfTwoTest(dh);
    MaskedHalf(nh, dh, Ctz(dh));
    rem := All(And(nh, dh - 1), nl);
    q := nh / Pow(2, Ctz(dh));
    HighQuotient(nh, nl, dh, q, nh % dh);
  }

  lemma HighQuotient(nh: Half, nl: Half, dh: Half, q: int, m: int)
    requires nh == Mul(q, dh) + m && 0 <= m < dh
    ensures All(nh, nl) == Mul(q, All(dh, 0)) + All(m, nl) && All(m, nl) < All(dh, 0)
  {
    assert q * (dh * H) == (q * dh) * H;
  }

  lemma MaskedHalf(x: Half, d: Half, k: nat)
    requires 0 < d && d == Pow(2, k)
    ensures And(x, d - 1) == x % d && x == Mul(x / d, d) + x % d && 0 <= x % d < d && 0 <= x / d <= x
  {
    hide And, Shl;
    DivModIdentity(x, d);
    QuotientIsSmall(x, d);
    ShlMul(x / d, k);
    AndLowMask(x / d, k, x % d);
  }

  lemma ExponentRange(d: Half)
    requires 0 < d == Pow(2, Ctz(d))
    ensures Ctz(d) <= 31 && (d != 1 ==> 1 <= Ctz(d))
  {
    PowTwoValues();
    if 32 <= Ctz(d) { PowMono(2, 32, Ctz(d)); }
  }

  /** K X / 0 K with a power of two in the low half. */
  method DivideByLowPower(nh: Half, nl: Half, dl: Half) returns (q: Word, rem: Word)
    requires 0 < dl && And(dl, dl - 1) == 0
    ensures All(nh, nl) == Mul(q, dl) + rem && rem < dl
  {
    hide And, Pow, Mul, Ctz;
    PowerOfTwoTest(dl);
    ExponentRange(dl);
    MaskedHalf(nl, dl, Ctz(dl));
    rem := And(nl, dl - 1);
    if dl == 1 {
      MulZero(All(nh, nl));
      return All(nh, nl), rem;
    }
    var sr := Ctz(dl);
    HalfPowers(sr);
    MaskedHalf(nh, dl, sr);
    var qh: Half := nh / Pow(2, sr);
    var ql := JoinPieces(nh, nl, sr);
    ShortPieces(dl, Pow(2, 32 - sr), nh / dl, nh % dl, nl / dl, nl % dl);
    q := All(qh, ql);
  }

  /** K X / K 0 and K X / K K: sr is computed from the high halves and is huge if n has fewer bits than d. */
  method DivideByHighHalf(nh: Half, nl: Half, dh: Half, dl: Half, most: nat) returns (q: Word, rem: Word)
    requires 0 < nh && 0 < dh && (most == 31 || (most == 30 && dl == 0 && And(dh, dh - 1) != 0))
    ensures All(nh, nl) == Mul(q, All(dh, dl)) + rem && rem < All(dh, dl)
  {
    hide BitLength, Split, Mul, And;
    BitLengthAll(nh, nl);
    BitLengthAll(dh, dl);
    BitLengthHalf(nh);
    BitLengthHalf(dh);
    var n: Word, d: Word := All(nh, nl), All(dh, dl);
    if dh == 1 { OneIsPower(); }
    var sr: int := (Clz(dh) - Clz(nh)) % H;
    if sr > most {
      FewerBits(n, d);
      MulZero(d);
      return 0, n;
    }
    sr := sr + 1;
    var qh: Half, ql: Half, rh: Half, rl: Half;
    ghost var rest;
    if sr == 32 {
      qh, ql, rh, rl, rest := SplitMiddle(nh, nl);
    } else {
      qh, ql, rh, rl, rest := SplitShort(nh, nl, sr);
    }
    HighPartBelow(n, d, sr, All(rh, rl), All(qh, ql), rest);
    q, rem := ShiftSubtract(n, d, sr, qh, ql, rh, rl, rest);
  }

  lemma OneIsPower()
    ensures And(1, 0) == 0
  {}

  /** K X / 0 K when the divisor is not a power of two: 2 <= sr <= 63. */
  method DivideByLowHalf(nh: Half, nl: Half, dl: Half) returns (q: Word, rem: Word)
    requires 0 < nh && 2 <= dl
    ensures All(nh, nl) == Mul(q, dl) + rem && rem < dl
  {
    hide BitLength, Split, Mul;
    BitLengthAll(nh, nl);
    BitLengthHalf(nh);
    BitLengthHalf(dl);
    var n: Word := All(nh, nl);
    var sr := 1 + 32 + Clz(dl) - Clz(nh);
    var qh: Half, ql: Half, rh: Half, rl: Half;
    ghost var rest;
    if sr == 32 {
      qh, ql, rh, rl, rest := SplitMiddle(nh, nl);
    } else if sr < 32 {
      qh, ql, rh, rl, rest := SplitShort(nh, nl, sr);
    } else {
      qh, ql, rh, rl, rest := SplitLong(nh, nl, sr);
    }
    HighPartBelow(n, dl, sr, All(rh, rl), All(qh, ql), rest);
    q, rem := ShiftSubtract(n, dl, sr, qh, ql, rh, rl, rest);
  }

  /** __udivmoddi4: quotient and remainder of 64-bit numbers through every special case. */
  method Udivmoddi4(a: Word, b: Word) returns (q: Word, rem: Word)
    requires b != 0
    ensures a == Mul(q, b) + rem && rem < b
  {
    hide Mul, And;
    var nh: Half, nl: Half := a / H, a % H;
    var dh: Half, dl: Half := b / H, b % H;
    if nh == 0 {
      if dh == 0 {
        DivModIdentity(nl, dl);
        QuotientIsSmall(nl, dl);
        return nl / dl, nl % dl;
      }
      MulZero(b);
      return 0, nl;
    }
    if dl == 0 {
      if nl == 0 {
        DivModIdentity(nh, dh);
        QuotientIsSmall(nh, dh);
        HighQuotient(nh, 0, dh, nh / dh, nh % dh);
        return nh / dh, All(nh % dh, 0);
      }
      if And(dh, dh - 1) == 0 {
        q, rem := DivideByHighPower(nh, nl, dh);
      } else {
        q, rem := DivideByHighHalf(nh, nl, dh, dl, 30);
      }
    } else if dh == 0 {
      if And(dl, dl - 1) == 0 {
        q, rem := DivideByLowPower(nh, nl, dl);
      } else {
        if dl == 1 { OneIsPower(); }
        q, rem := DivideByLowHalf(nh, nl, dl);
      }
    } else {
      q, rem := DivideByHighHalf(nh, nl, dh, dl, 31);
    }
  }
}
