/** Bitwise operators and bit counts on natural numbers, as C's unsigned operators and the clz/ctz builtins define them. */
module Bits {
  import opened Arith

  function And(x: nat, y: nat): nat {
    if x == 0 || y == 0 then 0 else 2 * And(x / 2, y / 2) + x % 2 * (y % 2)
  }

  function Or(x: nat, y: nat): nat {
    if x == 0 then y else if y == 0 then x else 2 * Or(x / 2, y / 2) + if x % 2 + y % 2 == 0 then 0 else 1
  }

  function Xor(x: nat, y: nat): nat {
    if x == 0 then y else if y == 0 then x else 2 * Xor(x / 2, y / 2) + (x % 2 + y % 2) % 2
  }

  /** The number of bits of n, so that clz of a w-bit word n is w - BitLength(n). */
  function BitLength(n: nat): nat {
    if n == 0 then 0 else 1 + BitLength(n / 2)
  }

  /** The number of trailing zero bits. */
  function Ctz(n: nat): nat
    requires 0 < n
  {
    if n % 2 == 1 then 0 else 1 + Ctz(n / 2)
  }

  /** x << k, without a width. */
  function Shl(x: nat, k: nat): nat {
    if k == 0 then x else 2 * Shl(x, k - 1)
  }

  lemma {:induction false} ShlPow(x: nat, k: nat)
    ensures Shl(x, k) == x * Pow(2, k)
  {
    if k != 0 {
      ShlPow(x, k - 1);
      assert x * (2 * Pow(2, k - 1)) == 2 * (x * Pow(2, k - 1));
    }
  }

  /** Fields without a common bit are joined by addition. */
  lemma {:induction false} OrDisjoint(q: nat, k: nat, y: nat)
    requires y < Pow(2, k)
    ensures Or(Shl(q, k), y) == Shl(q, k) + y
  {
    if k != 0 {
      OrDisjoint(q, k - 1, y / 2);
      OrDouble(Shl(q, k - 1), y / 2, y % 2);
    }
  }

  lemma OrDouble(x: nat, y: nat, c: nat)
    requires c < 2
    ensures Or(2 * x, 2 * y + c) == 2 * Or(x, y) + c
  {
    assert (2 * y + c) / 2 == y;
  }

  lemma {:induction false} OrCommutes(x: nat, y: nat)
    ensures Or(x, y) == Or(y, x)
  {
    if x != 0 && y != 0 { OrCommutes(x / 2, y / 2); }
  }

  /** Masking with 2^k - 1 takes the remainder by 2^k. */
  lemma {:induction false} AndLowMask(q: nat, k: nat, r: nat)
    requires r < Pow(2, k)
    ensures And(Shl(q, k) + r, Pow(2, k) - 1) == r
  {
    if k != 0 {
      AndLowMask(q, k - 1, r / 2);
      AndDouble(Shl(q, k - 1) + r / 2, Pow(2, k - 1) - 1, r % 2);
    }
  }

  lemma AndDouble(x: nat, y: nat, c: nat)
    requires c < 2
    ensures And(2 * x + c, 2 * y + 1) == 2 * And(x, y) + c
  {
    assert (2 * x + c) / 2 == x && (2 * y + 1) / 2 == y;
  }

  /** The test d & (d - 1) == 0 recognises exactly the powers of two; ctz gives the exponent. */
  lemma {:induction false} PowerOfTwoTest(d: nat)
    requires 0 < d
    ensures And(d, d - 1) == 0 <==> d == Pow(2, Ctz(d))
  {
    if d % 2 == 1 {
      if d != 1 {
        assert (d - 1) / 2 == d / 2;
        AndSelf(d / 2);
      }
    } else {
      PowerOfTwoTest(d / 2);
      assert (d - 1) / 2 == d / 2 - 1;
      if d != 2 { assert And(d, d - 1) == 2 * And(d / 2, d / 2 - 1); }
    }
  }

  lemma {:induction false} AndSelf(n: nat)
    ensures And(n, n) == n
  {
    if n != 0 { AndSelf(n / 2); }
  }

  lemma {:induction false} BitLengthBounds(n: nat)
    ensures n < Pow(2, BitLength(n))
    ensures 0 < n ==> 1 <= BitLength(n) && Pow(2, BitLength(n) - 1) <= n
  {
    if n != 0 { BitLengthBounds(n / 2); }
  }

  lemma {:induction false} BitLengthMono(m: nat, n: nat)
    requires m <= n
    ensures BitLength(m) <= BitLength(n)
  {
    if m != 0 { BitLengthMono(m / 2, n / 2); }
  }

  /** A number below 2^k has at most k bits. */
  lemma {:induction false} BitLengthAtMost(n: nat, k: nat)
    requires n < Pow(2, k)
    ensures BitLength(n) <= k
  {
    if n != 0 { BitLengthAtMost(n / 2, k - 1); }
  }

  // ----- exclusive or: addition of polynomials over GF(2)

  lemma XorDouble(x: nat, c: nat, y: nat, d: nat)
    requires c < 2 && d < 2
    ensures Xor(2 * x + c, 2 * y + d) == 2 * Xor(x, y) + (c + d) % 2
  {
    assert (2 * x + c) / 2 == x && (2 * y + d) / 2 == y;
  }

  lemma {:induction false} XorCommutes(x: nat, y: nat)
    ensures Xor(x, y) == Xor(y, x)
  {
    if x != 0 && y != 0 { XorCommutes(x / 2, y / 2); }
  }

  lemma XorHalves(x: nat, y: nat)
    ensures Xor(x, y) / 2 == Xor(x / 2, y / 2) && Xor(x, y) % 2 == (x % 2 + y % 2) % 2
  {}

  lemma {:induction false} XorSelf(x: nat)
    ensures Xor(x, x) == 0 && Xor(x, 0) == x && Xor(0, x) == x
  {
    if x != 0 { XorSelf(x / 2); }
  }

  lemma {:induction false} XorAssociative(x: nat, y: nat, z: nat)
    ensures Xor(Xor(x, y), z) == Xor(x, Xor(y, z))
    decreases x
  {
    hide Xor;
    XorSelf(x);
    XorSelf(y);
    XorSelf(z);
    XorSelf(Xor(y, z));
    XorSelf(Xor(x, y));
    if x != 0 && y != 0 && z != 0 {
      XorAssociative(x / 2, y / 2, z / 2);
      XorHalves(x, y);
      XorHalves(y, z);
      XorHalves(Xor(x, y), z);
      XorHalves(x, Xor(y, z));
      ParitySum(x % 2, y % 2, z % 2);
    }
  }

  lemma ParitySum(a: nat, b: nat, c: nat)
    requires a < 2 && b < 2 && c < 2
    ensures ((a + b) % 2 + c) % 2 == (a + (b + c) % 2) % 2
  {}

  lemma {:induction false} XorDisjoint(q: nat, k: nat, y: nat)
    requires y < Pow(2, k)
    ensures Xor(Shl(q, k), y) == Shl(q, k) + y
  {
    hide Xor;
    if k == 0 {
      XorSelf(q);
    } else {
      XorDisjoint(q, k - 1, y / 2);
      XorDouble(Shl(q, k - 1), 0, y / 2, y % 2);
    }
  }

  lemma {:induction false} XorBound(x: nat, y: nat, k: nat)
    requires x < Pow(2, k) && y < Pow(2, k)
    ensures Xor(x, y) < Pow(2, k)
  {
    if k == 0 {
      XorSelf(0);
    } else {
      XorHalves(x, y);
      XorBound(x / 2, y / 2, k - 1);
    }
  }

  // ----- single bits

  lemma {:induction false} AndBit(q: nat, k: nat, r: nat)
    requires r < Pow(2, k)
    ensures And(Shl(q, k) + r, Shl(1, k)) == Shl(q % 2, k)
  {
    if k == 0 {
      AndOne(q);
    } else {
      AndBit(q, k - 1, r / 2);
      AndEven(Shl(q, k - 1) + r / 2, r % 2, Shl(1, k - 1));
    }
  }

  lemma AndOne(q: nat)
    ensures And(q, 1) == q % 2
  {}

  lemma AndEven(x: nat, c: nat, y: nat)
    requires c < 2
    ensures And(2 * x + c, 2 * y) == 2 * And(x, y)
  {
    assert (2 * x + c) / 2 == x;
  }
}
