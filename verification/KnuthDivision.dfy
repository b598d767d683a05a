/** udiv128by64to64default of compiler-rt: Knuth's Algorithm D with two 32-bit quotient digits. */
module KnuthDivision {
  import opened Arith
  import opened Bits
  import opened Words

  lemma DivModIdentity(n: int, d: int)
    requires 0 < d
    ensures n == Mul(n / d, d) + n % d && 0 <= n % d < d
    ensures 0 <= n ==> 0 <= n / d
  {
    if 0 <= n && n / d < 0 { MulLe(n / d, -1, d); }
  }

  // ----- one quotient digit

  /** How far q is from the true digit, in terms of the trial remainder. */
  lemma Excess(hi: int, lo: int, vn1: int, vn0: int, q: int, rhat: int)
    requires hi == Mul(q, vn1) + rhat
    ensures hi * H + lo - Mul(q, vn1 * H + vn0) == rhat * H + lo - Mul(q, vn0)
  {
    assert q * (vn1 * H + vn0) == (q * vn1) * H + q * vn0;
  }

  lemma FirstTrial(hi: int, vn1: int, vn0: int, q: int, rhat: int)
    requires H / 2 <= vn1 < H && 0 <= vn0 < H && 0 <= hi < vn1 * H + vn0
    requires hi == Mul(q, vn1) + rhat && 0 <= rhat < vn1
    ensures 0 <= q <= H + 1
  {
    if q < 0 { MulLe(q, -1, vn1); }
    if H + 2 <= q { MulLe(H + 2, q, vn1); }
  }

  /** The trial digit starts no lower than the true digit. */
  lemma TrialNotLow(hi: int, lo: int, vn1: int, vn0: int, q: int, rhat: int)
    requires hi == Mul(q, vn1) + rhat && 0 <= rhat < vn1 && 0 <= lo < H && 0 <= vn0 && 0 <= q
    ensures hi * H + lo < Mul(q, vn1 * H + vn0) + (vn1 * H + vn0)
  {
    Excess(hi, lo, vn1, vn0, q, rhat);
    MulLe(0, q, vn0);
    assert rhat * H + lo < vn1 * H;
  }

  /** The loop test holds only of a digit that is too large. */
  lemma TrialTooLarge(hi: int, lo: int, vn1: int, vn0: int, q: int, rhat: int)
    requires hi == Mul(q, vn1) + rhat && 0 <= lo < H && 0 <= hi < vn1 * H + vn0 && 0 <= q
    requires q >= H || Mul(q, vn0) > H * rhat + lo
    ensures hi * H + lo < Mul(q - 1, vn1 * H + vn0) + (vn1 * H + vn0)
    ensures hi == Mul(q - 1, vn1) + (rhat + vn1) && 1 <= q
  {
    var v := vn1 * H + vn0;
    Excess(hi, lo, vn1, vn0, q, rhat);
    if H <= q { MulLe(H, q, v); }
    assert Mul(q - 1, v) == Mul(q, v) - v && Mul(q - 1, vn1) == Mul(q, vn1) - vn1;
  }

  /** A trial digit that passes the test, or that left the loop with a large remainder, is not too large. */
  lemma TrialNotHigh(hi: int, lo: int, vn1: int, vn0: int, q: int, rhat: int)
    requires hi == Mul(q, vn1) + rhat && 0 <= lo < H && 0 <= vn0 < H && 0 <= q
    requires 0 <= hi < vn1 * H + vn0
    requires Mul(q, vn0) <= H * rhat + lo || (q <= H && H <= rhat)
    ensures Mul(q, vn1 * H + vn0) <= hi * H + lo && q < H
  {
    var v := vn1 * H + vn0;
    Excess(hi, lo, vn1, vn0, q, rhat);
    if q <= H && H <= rhat { MulBound(q, vn0, H, H - 1); }
    if H <= q { MulLe(H, q, v); }
  }

  /** Neither product in the loop test wraps. */
  lemma TestIsExact(q: Word, vn0: int, rhat: int, lo: int)
    requires q < H && 0 <= vn0 < H && 0 <= rhat < H && 0 <= lo < H
    ensures Wrap(Mul(q, vn0)) == Mul(q, vn0) && Wrap(H * rhat + lo) == H * rhat + lo
  {
    MulBound(q, vn0, H - 1, H - 1);
  }

  /** One quotient digit of <hi, lo> / <vn1, vn0>; the correction loop runs at most twice. */
  method QuotientDigit(hi: Word, lo: int, vn1: int, vn0: int) returns (q: Word, ghost steps: nat)
    requires H / 2 <= vn1 < H && 0 <= vn0 < H && 0 <= lo < H && hi < vn1 * H + vn0
    ensures q < H && steps <= 2
    ensures Mul(q, vn1 * H + vn0) <= hi * H + lo < Mul(q, vn1 * H + vn0) + (vn1 * H + vn0)
  {
    hide Mul;
    DivModIdentity(hi, vn1);
    FirstTrial(hi, vn1, vn0, hi / vn1, hi % vn1);
    q := hi / vn1;
    var rhat: int := Wrap(hi - Wrap(Mul(q, vn1)));
    assert rhat == hi % vn1;
    TrialNotLow(hi, lo, vn1, vn0, q, rhat);
    steps := 0;
    if q < H { TestIsExact(q, vn0, rhat, lo); }
    while q >= H || Wrap(Mul(q, vn0)) > Wrap(H * rhat + lo)
      invariant hi == Mul(q, vn1) + rhat && 0 <= rhat < H
      invariant steps <= 1 && (steps == 1 ==> vn1 <= rhat) && q + steps <= H + 1
      invariant hi * H + lo < Mul(q, vn1 * H + vn0) + (vn1 * H + vn0)
      invariant q < H ==> Wrap(Mul(q, vn0)) == Mul(q, vn0) && Wrap(H * rhat + lo) == H * rhat + lo
      decreases q
    {
      TrialTooLarge(hi, lo, vn1, vn0, q, rhat);
      q := q - 1;
      rhat := rhat + vn1;
      steps := steps + 1;
      if rhat >= H {
        break;
      }
      if q < H { TestIsExact(q, vn0, rhat, lo); }
    }
    TrialNotHigh(hi, lo, vn1, vn0, q, rhat);
  }

  // ----- the whole division

  /** Shifting the operands left by clz(v) multiplies both by 2^s and loses no bit. */
  lemma Normalise(u1: Word, u0: Word, v: Word, s: nat, P: int, Q: int)
    requires 1 <= P && 1 <= Q && P * Q == B && u1 < v && v * P < B
    ensures u1 * P < B && u0 / Q < P
    ensures Join(u1 * P + u0 / Q, Wrap(u0 * P)) == Mul(Join(u1, u0), P)
    ensures u1 * P + u0 / Q < v * P
  {
    MulLe(u1 + 1, v, P);
    DivModIdentity(u0, Q);
    var h, l := u0 / Q, u0 % Q;
    if P <= h { MulLe(P, h, Q); }
    MulLt(l, Q, P);
    assert u0 * P == h * (Q * P) + l * P;
    DivModUnique(u0 * P, B, h, l * P);
    assert (u1 * B + u0) * P == (u1 * P) * B + u0 * P;
  }

  lemma WrapDifference3(a: int, b: int, c: int)
    ensures Wrap(Wrap(a) + c - Wrap(b)) == Wrap(a + c - b)
  {
    ModAddLeft(a, c - Wrap(b), B);
    ModSub(a + c, b, B);
  }

  /** The partial remainder is exact although it is computed modulo 2^64. */
  lemma PartialRemainder(hi: Word, lo: int, q: Word, v: Word)
    requires Mul(q, v) <= hi * H + lo < Mul(q, v) + v
    ensures Wrap(Wrap(hi * H) + lo - Wrap(Mul(q, v))) == hi * H + lo - Mul(q, v)
  {
    WrapDifference3(hi * H, Mul(q, v), lo);
    WrapSmall(hi * H + lo - Mul(q, v));
  }

  lemma Digits(un64: int, un1: int, un0: int, un21: int, q1: int, q0: int, v: int, r: int)
    requires un21 == un64 * H + un1 - Mul(q1, v)
    requires r == un21 * H + un0 - Mul(q0, v)
    ensures Join(un64, un1 * H + un0) == Mul(q1 * H + q0, v) + r
    ensures 0 <= q1 < H && 0 <= q0 < H ==> Wrap(Wrap(q1 * H) + q0) == q1 * H + q0
  {
    assert (q1 * H + q0) * v == (q1 * v) * H + q0 * v;
  }

  /** The remainder of the shifted operands is the remainder of the operands, shifted. */
  lemma Denormalise(u: int, q: int, v: int, P: int, R: int)
    requires 1 <= P && Mul(u, P) == Mul(q, v * P) + R && 0 <= R < v * P
    ensures u == Mul(q, v) + R / P && 0 <= R / P < v
  {
    var r := u - q * v;
    assert (u - q * v) * P == u * P - q * (v * P);
    ModOfMultiple(r, P);
    assert R == r * P;
    if r < 0 { MulLe(r, -1, P); }
    if v <= r { MulLe(v, r, P); }
  }

  lemma NormalShift(v: Word)
    requires 0 < v
    ensures 1 <= BitLength(v) <= 64
    ensures var P, Q := Pow(2, 64 - BitLength(v)), Pow(2, BitLength(v));
            1 <= P && 1 <= Q && P * Q == B && HALF_B <= v * P < B
  {
    PowTwoValues();
    BitLengthAtMost(v, 64);
    BitLengthBounds(v);
    var k := BitLength(v);
    PowPos(2, k);
    PowPos(2, 64 - k);
    PowAdd(2, 64 - k, k);
    MulLt(v, Pow(2, k), Pow(2, 64 - k));
    MulLe(Pow(2, k - 1), v, Pow(2, 64 - k));
    PowAdd(2, k - 1, 64 - k);
    assert Pow(2, 64) == 2 * Pow(2, 63);
  }

  /** Shifts the dividend left by s; the word that leaves the low half enters the high half. */
  method ShiftDividend(u1: Word, u0: Word, v: Word, s: nat) returns (un64: Word, un10: Word)
    requires 1 <= s <= 63 && s == 64 - BitLength(v) && u1 < v
    ensures Join(un64, un10) == Mul(Join(u1, u0), Pow(2, s)) && un64 < Mul(v, Pow(2, s))
  {
    hide Pow, BitLength, Or, Shl;
    NormalShift(v);
    Normalise(u1, u0, v, s, Pow(2, s), Pow(2, 64 - s));
    OrDisjoint(u1, s, u0 / Pow(2, 64 - s));
    ShlPow(u1, s);
    WrapSmall(u1 * Pow(2, s));
    un64 := Or(Wrap(u1 * Pow(2, s)), u0 / Pow(2, 64 - s));
    un10 := Wrap(u0 * Pow(2, s));
  }

  /** The two digits of the quotient by a divisor with its top bit set. */
  method DivideNormalised(un64: Word, un10: Word, v: Word) returns (q: Word, r: Word)
    requires HALF_B <= v && un64 < v
    ensures Join(un64, un10) == Mul(q, v) + r && r < v
  {
    hide Mul, Wrap, Join;
    var vn1, vn0 := v / H, v % H;
    var un1, un0 := un10 / H, un10 % H;
    var q1: Word, q0: Word;
    ghost var steps;
    q1, steps := QuotientDigit(un64, un1, vn1, vn0);
    PartialRemainder(un64, un1, q1, v);
    var un21: Word := Wrap(Wrap(un64 * H) + un1 - Wrap(Mul(q1, v)));
    q0, steps := QuotientDigit(un21, un0, vn1, vn0);
    PartialRemainder(un21, un0, q0, v);
    r := Wrap(Wrap(un21 * H) + un0 - Wrap(Mul(q0, v)));
    Digits(un64, un1, un0, un21, q1, q0, v, r);
    q := Wrap(Wrap(q1 * H) + q0);
  }

  /** The quotient and remainder of a double word by a word, when the quotient fits in a word. */
  method Udiv128By64To64(u1: Word, u0: Word, v: Word) returns (q: Word, r: Word)
    requires u1 < v
    ensures Join(u1, u0) == Mul(q, v) + r && r < v
  {
    hide Mul, Pow, BitLength, Join;
    NormalShift(v);
    var s := 64 - BitLength(v);
    var vn: Word, un64: Word, un10: Word := v, u1, u0;
    ShiftByZero(v, Join(u1, u0), s);
    if s > 0 {
      vn := Wrap(v * Pow(2, s));
      un64, un10 := ShiftDividend(u1, u0, v, s);
    }
    q, r := DivideNormalised(un64, un10, vn);
    Denormalise(Join(u1, u0), q, v, Pow(2, s), r);
    r := r / Pow(2, s);
  }

  lemma ShiftByZero(v: int, u: int, s: nat)
    ensures Mul(v, Pow(2, s)) == v * Pow(2, s)
    ensures s == 0 ==> v * Pow(2, s) == v && Mul(u, Pow(2, s)) == u
  {}
}
