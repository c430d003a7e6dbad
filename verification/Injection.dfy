/** What the injectors share: gates, rescheduling, recorded stuck-at faults. */
module Injection {
  import opened Options
  import opened ByteWindow
  import opened IntArith

  /** A stuck-at fault recorded for re-application to one byte. */
  datatype Stuck = Stuck(fault: Fault, mask: bv8)

  /** A byte that shows its stuck bits. */
  predicate Shows(b: bv8, s: Stuck) {
    match s.fault
    case StuckAtZero => b & s.mask == 0
    case StuckAtOne => b & s.mask == s.mask
    case BitFlip => true
  }

  lemma AppliedShows(b: bv8, s: Stuck)
    ensures Shows(ApplyByte(s.fault, b, s.mask), s)
  {
  }

  lemma ShowsIff(b: bv8, s: Stuck)
    requires s.fault != BitFlip
    ensures ApplyByte(s.fault, b, s.mask) == b <==> Shows(b, s)
  {
  }

  /** Window, budget and Bernoulli gates; a zero end or cap means none. */
  predicate Opens(probability: real, first: nat, last: nat, maxFaults: nat, count: nat, now: nat, gate: real) {
    && probability > 0.0
    && now >= first
    && (last == 0 || now <= last)
    && (maxFaults == 0 || count < maxFaults)
    && gate < probability
  }

  /** Ticks until the next attack; the product is taken in 32-bit unsigned arithmetic. */
  function Interval(ratio: nat, distance: nat): nat {
    ((if distance < 1 then 1 else distance) * ratio) % 0x1_0000_0000
  }

  /** The next attack: none when the budget is spent or the window is over. */
  function Rescheduled(maxFaults: nat, last: nat, ratio: nat, count: nat, now: nat, distance: nat): Option<nat> {
    var next := now + Interval(ratio, distance);
    if maxFaults != 0 && count >= maxFaults then None
    else if next <= last || last == 0 then Some(next)
    else None
  }

  // ---- Spacing and the 32-bit product -----------------------------------------------------------

  /** The first distance whose product no longer fits in 32 bits. */
  function FirstWrap(ratio: nat): nat
    requires ratio > 0
  {
    (0x1_0000_0000 + ratio - 1) / ratio
  }

  lemma FirstWrapTimes(ratio: nat)
    requires 0 < ratio < 0x8000_0000
    ensures 0x1_0000_0000 <= FirstWrap(ratio) * ratio < 0x1_0000_0000 + ratio
    ensures FirstWrap(ratio) >= 1
  {
    var t := 0x1_0000_0000 + ratio - 1;
    var q := t / ratio;
    assert t == q * ratio + t % ratio;
  }

  /** Without a wrap the interval is the product, so at least one clock ratio. */
  lemma NoWrap(ratio: nat, distance: nat)
    requires 0 < ratio < 0x8000_0000 && distance * ratio < 0x1_0000_0000
    ensures Interval(ratio, distance) >= ratio
  {
    if distance >= 1 {
      MulOrder(1, distance, ratio);
    }
  }

  lemma WrapsShort(ratio: nat)
    requires 0 < ratio < 0x8000_0000
    ensures Interval(ratio, FirstWrap(ratio)) < ratio
  {
    hide FirstWrap;
    FirstWrapTimes(ratio);
  }

  lemma FirstWrapLeast(ratio: nat, limit: nat)
    requires 0 < ratio < 0x8000_0000 && limit * ratio >= 0x1_0000_0000
    ensures FirstWrap(ratio) <= limit
  {
    hide FirstWrap;
    FirstWrapTimes(ratio);
    if FirstWrap(ratio) > limit {
      MulOrder(limit + 1, FirstWrap(ratio), ratio);
      NextMultiple(limit, ratio);
      assert false;
    }
  }

  /**
   * Every distance up to a limit keeps attacks one clock ratio apart exactly when the limit's
   * product fits in 32 bits.
   */
  lemma SpacingIff(ratio: nat, limit: nat)
    requires 0 < ratio < 0x8000_0000
    ensures (forall d: nat :: d <= limit ==> Interval(ratio, d) >= ratio) <==> limit * ratio < 0x1_0000_0000
  {
    hide FirstWrap, Interval;
    if limit * ratio < 0x1_0000_0000 {
      forall d: nat | d <= limit ensures Interval(ratio, d) >= ratio {
        MulOrder(d, limit, ratio);
        NoWrap(ratio, d);
      }
    } else {
      WrapsShort(ratio);
      FirstWrapLeast(ratio, limit);
      assert Interval(ratio, FirstWrap(ratio)) < ratio;
    }
  }

  // ---- The least interval -------------------------------------------------------------------------

  /** One Newton step: an inverse modulo n becomes one modulo n squared. */
  lemma SquareInverse(r: int, x: int, n: int, t: int)
    requires r * x == 1 + n * t
    ensures r * (x * (2 - r * x)) == 1 + (n * n) * -(t * t)
  {
    var p := n * t;
    assert r * (x * (2 - r * x)) == (r * x) * (2 - r * x);
    assert (1 + p) * (1 - p) == 1 - p * p;
    assert p * p == (n * n) * (t * t);
  }

  /** An odd number has an inverse modulo 2^32. */
  lemma OddInverse(r: nat) returns (y: nat, q: int)
    requires r % 2 == 1
    ensures 0 < y < 0x1_0000_0000 && r * y == 1 + q * 0x1_0000_0000
  {
    var x, t := InverseAt32(r);
    var k := x / 0x1_0000_0000;
    y, q := x % 0x1_0000_0000, t - r * k;
    assert x == k * 0x1_0000_0000 + y;
    ReduceInverse(r, x, y, k, t);
  }

  lemma ReduceInverse(r: int, x: int, y: int, k: int, t: int)
    requires r * x == 1 + 0x1_0000_0000 * t && x == k * 0x1_0000_0000 + y && 0 <= y
    ensures r * y == 1 + (t - r * k) * 0x1_0000_0000 && y != 0
  {
    assert r * x == (r * k) * 0x1_0000_0000 + r * y;
  }

  lemma InverseAt32(r: nat) returns (x: int, t: int)
    requires r % 2 == 1
    ensures r * x == 1 + 0x1_0000_0000 * t
  {
    hide *;
    var x1, t1 := 1, r / 2;
    SquareInverse(r, x1, 2, t1);
    var x2, t2 := x1 * (2 - r * x1), -(t1 * t1);
    SquareInverse(r, x2, 4, t2);
    var x3, t3 := x2 * (2 - r * x2), -(t2 * t2);
    SquareInverse(r, x3, 16, t3);
    var x4, t4 := x3 * (2 - r * x3), -(t3 * t3);
    SquareInverse(r, x4, 256, t4);
    var x5, t5 := x4 * (2 - r * x4), -(t4 * t4);
    SquareInverse(r, x5, 65536, t5);
    x, t := x5 * (2 - r * x5), -(t5 * t5);
  }

  /** What is divisible by 2^32 after multiplication by an odd number was so before. */
  lemma OddFactor(r: int, y: int, q: int, d: int, p: int)
    requires r * y == 1 + q * 0x1_0000_0000 && d * r == p * 0x1_0000_0000
    ensures d == (p * y - d * q) * 0x1_0000_0000
  {
    assert d * (r * y) == (d * r) * y;
    assert d * (1 + q * 0x1_0000_0000) == d + (d * q) * 0x1_0000_0000;
    assert (p * 0x1_0000_0000) * y == (p * y) * 0x1_0000_0000;
  }

  lemma NoOddVanishes(r: nat, d: nat)
    requires r % 2 == 1 && 0 < d < 0x1_0000_0000
    ensures (d * r) % 0x1_0000_0000 != 0
  {
    if (d * r) % 0x1_0000_0000 == 0 {
      var y, q := OddInverse(r);
      OddFactor(r, y, q, d, d * r / 0x1_0000_0000);
      assert false;
    }
  }

  /**
   * The shortest interval any draw can give, by the wrap of the 32-bit product: nothing at all
   * when the clock ratio is even, one tick when it is odd.
   */
  lemma LeastInterval(ratio: nat) returns (distance: nat)
    ensures distance < 0x1_0000_0000 && Interval(ratio, distance) == ratio % 2
    ensures forall d: nat :: d < 0x1_0000_0000 ==> Interval(ratio, d) >= ratio % 2
  {
    if ratio % 2 == 0 {
      distance := 0x8000_0000;
      assert distance * ratio == (ratio / 2) * 0x1_0000_0000;
    } else {
      var q;
      distance, q := OddInverse(ratio);
      assert distance * ratio == ratio * distance;
      forall d: nat | d < 0x1_0000_0000 ensures Interval(ratio, d) >= 1 {
        NoOddVanishes(ratio, if d < 1 then 1 else d);
      }
    }
  }
}
