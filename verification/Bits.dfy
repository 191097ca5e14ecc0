/** Unsigned machine arithmetic used by the ring and the bucket table: the bitwise `&`,
    powers of two, and 64-bit wrap-around. */
module Bits {

  const WORD: nat := 0x1_0000_0000_0000_0000  // 2^64, the modulus of std::size_t

  function Pow2(k: nat): (p: nat)
    ensures p >= 1
  {
    if k == 0 then 1 else 2 * Pow2(k - 1)
  }

  /** Bitwise `x & y`, one bit at a time. */
  function And(x: nat, y: nat): nat {
    if x == 0 then 0 else 2 * And(x / 2, y / 2) + (if x % 2 == 1 && y % 2 == 1 then 1 else 0)
  }

  /** The compile-time requirements the ring places on its capacity. */
  predicate RingCapacity(c: nat) {
    c >= 2 && And(c, c - 1) == 0
  }

  lemma ModOfMod(a: int, c: nat, m: nat)
    requires c > 0 && m > 0
    ensures (a % (c * m)) % c == a % c
  {
    var q := a / (c * m);
    assert a == (c * m) * q + a % (c * m);
    assert a == c * (m * q) + a % (c * m) by {
      assert (c * m) * q == c * (m * q);
    }
    ModShift(a % (c * m), m * q, c);
  }

  lemma ModShift(r: int, k: int, c: nat)
    requires c > 0
    ensures (c * k + r) % c == r % c
  {
    var q := r / c;
    ModUnique(c * k + r, k + q, r % c, c);
  }

  /** A remainder in range determines the quotient and the remainder. */
  lemma ModUnique(a: int, q: int, r: int, c: nat)
    requires 0 <= r < c && a == c * q + r
    ensures a % c == r && a / c == q
  {
    var d := a / c - q;
    assert c * d == r - a % c by {
      assert c * d == c * (a / c) - c * q;
    }
    SmallMultiple(c, d);
  }

  /** Masking with 2^k - 1 is the remainder modulo 2^k. */
  lemma {:induction false} AndMask(x: nat, k: nat)
    ensures And(x, Pow2(k) - 1) == x % Pow2(k)
    decreases k
  {
    if k == 0 {
      AndZero(x);
    } else {
      var p := Pow2(k - 1);
      AndMask(x / 2, k - 1);
      calc {
        And(x, 2 * p - 1);
        { AndOdd(x, p - 1); assert 2 * (p - 1) + 1 == 2 * p - 1; }
        2 * And(x / 2, p - 1) + x % 2;
        2 * ((x / 2) % p) + x % 2;
        { HalveMod(x, p); }
        x % (2 * p);
      }
    }
  }

  lemma AndOdd(x: nat, y: nat)
    ensures And(x, 2 * y + 1) == 2 * And(x / 2, y) + x % 2
  {
    assert (2 * y + 1) / 2 == y && (2 * y + 1) % 2 == 1;
  }

  lemma HalveMod(x: nat, p: nat)
    requires p > 0
    ensures x % (2 * p) == 2 * ((x / 2) % p) + x % 2
  {
    var q, r := (x / 2) / p, (x / 2) % p;
    assert x / 2 == p * q + r;
    assert (2 * p) * q == 2 * (p * q);
    ModUnique(x, q, 2 * r + x % 2, 2 * p);
  }

  lemma {:induction false} AndZero(x: nat)
    ensures And(x, 0) == 0
  {
    if x > 0 {
      AndZero(x / 2);
    }
  }

  lemma {:induction false} AndSelf(x: nat)
    ensures And(x, x) == x
  {
    if x > 0 {
      AndSelf(x / 2);
    }
  }

  lemma {:induction false} Pow2PassesTest(k: nat)
    ensures And(Pow2(k), Pow2(k) - 1) == 0
  {
    if k > 0 {
      var p := Pow2(k - 1);
      assert (2 * p) / 2 == p && (2 * p - 1) / 2 == p - 1;
      Pow2PassesTest(k - 1);
    }
  }

  lemma {:induction false} TestFindsExponent(c: nat) returns (k: nat)
    requires c >= 1 && And(c, c - 1) == 0
    ensures c == Pow2(k)
  {
    if c == 1 {
      k := 0;
    } else if c % 2 == 0 {
      assert (c - 1) / 2 == c / 2 - 1;
      k := TestFindsExponent(c / 2);
      k := k + 1;
    } else {
      assert (c - 1) / 2 == c / 2;
      AndSelf(c / 2);
      assert false;
    }
  }

  /** The ring's static assertion accepts exactly the powers of two. */
  lemma PowerOfTwoTest(c: nat)
    requires c >= 1
    ensures And(c, c - 1) == 0 <==> exists k: nat :: c == Pow2(k)
  {
    if And(c, c - 1) == 0 {
      var k := TestFindsExponent(c);
    }
    if k: nat :| c == Pow2(k) {
      Pow2PassesTest(k);
    }
  }

  /** For every accepted capacity, the ring's `& mask` is `% capacity`. */
  lemma MaskIsMod(x: nat, c: nat)
    requires RingCapacity(c)
    ensures And(x, c - 1) == x % c
  {
    var k := TestFindsExponent(c);
    AndMask(x, k);
  }

  lemma {:induction false} Pow2Divides(j: nat, k: nat)
    requires j <= k
    ensures Pow2(k) == Pow2(j) * Pow2(k - j)
    decreases k - j
  {
    if j < k {
      Pow2Divides(j, k - 1);
      assert Pow2(k) == 2 * (Pow2(j) * Pow2(k - 1 - j)) == Pow2(j) * (2 * Pow2(k - 1 - j));
    }
  }

  lemma {:induction false} Pow2Monotone(j: nat, k: nat)
    requires j <= k
    ensures Pow2(j) <= Pow2(k)
    decreases k
  {
    if j < k {
      Pow2Monotone(j, k - 1);
    }
  }

  lemma WordIsPow2()
    ensures WORD == Pow2(64)
  {
    assert Pow2(4) == 16;
    Pow2Divides(4, 8);
    Pow2Divides(8, 16);
    Pow2Divides(16, 32);
    Pow2Divides(32, 64);
  }

  /** A signed or unsigned 64-bit difference reduced modulo a power of two is unaffected by
      the 2^64 wrap-around that precedes the reduction. */
  lemma WrapThenMod(a: int, k: nat)
    requires k <= 64
    ensures (a % WORD) % Pow2(k) == a % Pow2(k)
  {
    WordIsPow2();
    Pow2Divides(k, 64);
    ModOfMod(a, Pow2(k), Pow2(64 - k));
  }

  /** Two numbers closer than `c` that agree modulo `c` are equal. */
  lemma CloseAndCongruent(a: int, b: int, c: nat)
    requires c > 0 && a - b < c && b - a < c && a % c == b % c
    ensures a == b
  {
    var d := a / c - b / c;
    assert c * d == a - b by {
      assert c * d == c * (a / c) - c * (b / c);
    }
    SmallMultiple(c, d);
  }

  lemma MultipleBelow(c: nat, d: int)
    requires c > 0 && c * d < c
    ensures d <= 0
  {
  }

  lemma SmallMultiple(c: nat, d: int)
    requires c > 0 && c * d < c && 0 - c < c * d
    ensures d == 0
  {
  }
}
