/** Bitwise operations on numbers, bit by bit. */
module Bits {
  function Power2(n: nat): (p: nat)
    ensures p > 0
  {
    if n == 0 then 1 else 2 * Power2(n - 1)
  }

  /** Bit i of n, counted from the lowest. */
  function Bit(n: nat, i: nat): (b: nat)
    ensures b <= 1
  {
    if i == 0 then n % 2 else Bit(n / 2, i - 1)
  }

  /** The lowest bits of the exclusive or. */
  function XorBits(a: nat, b: nat, bits: nat): (r: nat) {
    if bits == 0 then 0
    else (if a % 2 == b % 2 then 0 else 1) + 2 * XorBits(a / 2, b / 2, bits - 1)
  }

  /** The lowest bits of the conjunction. */
  function AndBits(a: nat, b: nat, bits: nat): (r: nat) {
    if bits == 0 then 0
    else (if a % 2 == 1 && b % 2 == 1 then 1 else 0) + 2 * AndBits(a / 2, b / 2, bits - 1)
  }

  lemma {:induction false} BitOfXor(a: nat, b: nat, bits: nat, i: nat)
    requires i < bits
    ensures Bit(XorBits(a, b, bits), i) == if Bit(a, i) == Bit(b, i) then 0 else 1
    decreases i
  {
    Halves(if a % 2 == b % 2 then 0 else 1, XorBits(a / 2, b / 2, bits - 1));
    if i == 0 {
    } else {
      BitOfXor(a / 2, b / 2, bits - 1, i - 1);
    }
  }

  lemma {:induction false} BitOfAnd(a: nat, b: nat, bits: nat, i: nat)
    requires i < bits
    ensures Bit(AndBits(a, b, bits), i) == if Bit(a, i) == 1 && Bit(b, i) == 1 then 1 else 0
    decreases i
  {
    Halves(if a % 2 == 1 && b % 2 == 1 then 1 else 0, AndBits(a / 2, b / 2, bits - 1));
    if i == 0 {
    } else {
      BitOfAnd(a / 2, b / 2, bits - 1, i - 1);
    }
  }

  lemma Halves(low: nat, high: nat)
    requires low <= 1
    ensures (low + 2 * high) % 2 == low && (low + 2 * high) / 2 == high
  {}

  lemma {:induction false} ZeroBits(i: nat)
    ensures Bit(0, i) == 0
  {
    if i == 0 {
    } else {
      ZeroBits(i - 1);
    }
  }

  /** A number of that many bits other than zero has one that is set. */
  lemma {:induction false} SetBit(n: nat, bits: nat) returns (i: nat)
    requires 0 < n < Power2(bits)
    ensures i < bits && Bit(n, i) == 1
    decreases bits
  {
    if n % 2 == 1 {
      i := 0;
    } else {
      i := SetBit(n / 2, bits - 1);
      i := i + 1;
    }
  }

  lemma {:induction false} AndBelow(a: nat, b: nat, bits: nat)
    ensures AndBits(a, b, bits) < Power2(bits)
  {
    if bits == 0 {
    } else {
      AndBelow(a / 2, b / 2, bits - 1);
    }
  }

  lemma {:induction false} XorTwice(a: nat, b: nat, bits: nat)
    requires a < Power2(bits)
    ensures XorBits(a, b, bits) < Power2(bits)
    ensures XorBits(XorBits(a, b, bits), b, bits) == a
  {
    if bits == 0 {
    } else {
      XorTwice(a / 2, b / 2, bits - 1);
      var r := XorBits(a, b, bits);
      assert r / 2 == XorBits(a / 2, b / 2, bits - 1);
      assert r % 2 == if a % 2 == b % 2 then 0 else 1;
    }
  }

  /** Ones from bit low up to bit high - 1. */
  function Ones(high: nat, low: nat): (m: int) { Power2(high) - Power2(low) }

  lemma OnesHalf(high: nat, low: nat)
    requires low < high
    ensures Power2(low) <= Power2(high) && Ones(high, low) % 2 == (if low == 0 then 1 else 0)
    ensures Ones(high, low) / 2 == Ones(high - 1, if low == 0 then 0 else low - 1)
  {
    PowerMono(low, high);
    var h := Power2(high - 1);
    if low == 0 {
      Doubled(h - 1, 1);
      assert Power2(0) == 1 && Ones(high, 0) == 2 * (h - 1) + 1;
    } else {
      Doubled(h - Power2(low - 1), 0);
      assert Ones(high, low) == 2 * (h - Power2(low - 1)) + 0;
    }
    hide Power2;
  }

  lemma Doubled(n: int, low: nat)
    requires low <= 1
    ensures (2 * n + low) % 2 == low && (2 * n + low) / 2 == n
  {}

  lemma {:induction false} PowerMono(low: nat, high: nat)
    requires low <= high
    ensures Power2(low) <= Power2(high)
    decreases high
  {
    if low == high {
    } else {
      PowerMono(low, high - 1);
    }
  }

  lemma HalfQuotient(n: nat, k: nat)
    requires k > 0
    ensures n / Power2(k) == n / 2 / Power2(k - 1)
  {
    var p, q := Power2(k - 1), n / 2 / Power2(k - 1);
    var r := n / 2 % p;
    assert n / 2 == p * q + r;
    assert n == (2 * p) * q + (2 * r + n % 2) by { TwiceRegrouped(p, q); }
    QuotientIs(n, 2 * p, q, 2 * r + n % 2);
  }

  lemma TwiceRegrouped(p: nat, q: nat)
    ensures (2 * p) * q == 2 * (p * q)
  {}

  lemma QuotientIs(n: nat, d: nat, q: nat, r: nat)
    requires d > 0 && r < d && n == d * q + r
    ensures n / d == q
  {
    var x, y := n / d, n % d;
    assert n == d * x + y;
    if x < q { Apart(d, q, x); }
    if x > q { Apart(d, x, q); }
  }

  lemma Apart(d: nat, x: nat, q: nat)
    requires q < x
    ensures d * x >= d * q + d
  {
    Spread(d, q, x - q);
    AtLeast(d, x - q);
  }

  lemma Spread(d: nat, q: nat, k: nat)
    ensures d * (q + k) == d * q + d * k
  {}

  lemma AtLeast(d: nat, k: nat)
    requires k > 0
    ensures d * k >= d
  {
    Spread(d, 1, k - 1);
  }

  /** Comparing under a mask of leading ones is comparing leading parts. */
  lemma {:induction false} PrefixIff(a: nat, b: nat, bits: nat, low: nat)
    requires a < Power2(bits) && b < Power2(bits) && low <= bits
    ensures Ones(bits, low) >= 0
    ensures AndBits(XorBits(a, b, bits), Ones(bits, low), bits) == 0 <==> a / Power2(low) == b / Power2(low)
    decreases bits
  {
    PowerMono(low, bits);
    if bits == 0 {
    } else if low == bits {
      QuotientIs(a, Power2(bits), 0, a);
      QuotientIs(b, Power2(bits), 0, b);
      AndZero(XorBits(a, b, bits), bits);
    } else {
      var l := if low == 0 then 0 else low - 1;
      OnesHalf(bits, low);
      PrefixIff(a / 2, b / 2, bits - 1, l);
      var x := XorBits(a, b, bits);
      assert x / 2 == XorBits(a / 2, b / 2, bits - 1) && x % 2 == if a % 2 == b % 2 then 0 else 1;
      if low > 0 {
        HalfQuotient(a, low);
        HalfQuotient(b, low);
      }
    }
  }

  lemma {:induction false} AndZero(a: nat, bits: nat)
    ensures AndBits(a, 0, bits) == 0
  {
    if bits == 0 {
    } else {
      AndZero(a / 2, bits - 1);
    }
  }
}
