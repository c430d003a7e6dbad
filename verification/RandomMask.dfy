/** Distinct random bit positions by rejection sampling; the draws are an arbitrary stream. */
module RandomMask {

  import opened ByteWindow
  import opened IntArith
  import Bits

  function Twice(x: bv64): bv64 {
    x << 1
  }

  function OneBit(b: nat): bv64 {
    if b == 0 then 1 else Twice(OneBit(b - 1))
  }

  predicate Has(m: bv64, b: nat) {
    And(m, OneBit(b)) != 0
  }

  /** The bit positions set in a mask. */
  function Positions(m: bv64): set<nat> {
    set b: nat | b < 64 && Has(m, b)
  }

  // ---- Single bits ----------------------------------------------------------------------------

  lemma EightTimes(x: bv64)
    ensures Twice(Twice(Twice(Twice(Twice(Twice(Twice(Twice(x)))))))) == Up(x)
  {
  }

  lemma EightBits(b: nat)
    ensures OneBit(b + 8) == Up(OneBit(b))
  {
    hide Twice, Up;
    EightTimes(OneBit(b));
    assert OneBit(b + 2) == Twice(Twice(OneBit(b)));
    assert OneBit(b + 4) == Twice(Twice(OneBit(b + 2)));
    assert OneBit(b + 6) == Twice(Twice(OneBit(b + 4)));
    assert OneBit(b + 8) == Twice(Twice(OneBit(b + 6)));
  }

  lemma SevenUps()
    ensures Up(Up(Up(Up(Up(Up(Up(128))))))) != 0
  {
  }

  lemma TopBit()
    ensures OneBit(63) != 0
  {
    hide Up;
    assert OneBit(7) == 128;
    EightBits(7);
    EightBits(15);
    EightBits(23);
    EightBits(31);
    EightBits(39);
    EightBits(47);
    EightBits(55);
    SevenUps();
  }

  lemma TwiceZero()
    ensures Twice(0) == 0
  {
  }

  lemma {:induction false} ZeroStaysZero(a: nat, b: nat)
    requires a <= b && OneBit(a) == 0
    ensures OneBit(b) == 0
    decreases b - a
  {
    hide Twice;
    if a < b {
      TwiceZero();
      ZeroStaysZero(a + 1, b);
    }
  }

  lemma OneBitNonzero(b: nat)
    requires b < 64
    ensures OneBit(b) != 0
  {
    hide *;
    if OneBit(b) == 0 {
      ZeroStaysZero(b, 63);
      TopBit();
      assert false;
    }
  }

  lemma TwiceBoth(x: bv64, y: bv64)
    ensures And(x, y) == 0 ==> And(Twice(x), Twice(y)) == 0
  {
  }

  lemma LowestApart(y: bv64)
    ensures And(1, Twice(y)) == 0 && And(Twice(y), 1) == 0
  {
  }

  lemma {:induction false} BitsApart(a: nat, b: nat)
    requires a != b
    ensures And(OneBit(a), OneBit(b)) == 0
  {
    hide Twice, And;
    if a == 0 {
      LowestApart(OneBit(b - 1));
    } else if b == 0 {
      LowestApart(OneBit(a - 1));
    } else {
      BitsApart(a - 1, b - 1);
      TwiceBoth(OneBit(a - 1), OneBit(b - 1));
    }
  }

  lemma OrAndBits(m: bv64, x: bv64, y: bv64)
    ensures (m | x) & y == (m & y) | (x & y)
  {
  }

  lemma OrNonzero(a: bv64, b: bv64)
    ensures Or(a, b) != 0 <==> a != 0 || b != 0
  {
  }

  lemma AndUnfold(a: bv64, b: bv64)
    ensures And(a, b) == a & b
  {
  }

  lemma OrAnd(m: bv64, x: bv64, y: bv64)
    ensures And(Or(m, x), y) == Or(And(m, y), And(x, y))
  {
    hide *;
    OrUnfold(m, x);
    AndUnfold(m | x, y);
    AndUnfold(m, y);
    AndUnfold(x, y);
    OrUnfold(And(m, y), And(x, y));
    OrAndBits(m, x, y);
  }

  lemma AndSelf(x: bv64)
    ensures And(x, x) == x
  {
  }

  lemma HasAfter(m: bv64, b: nat, c: nat)
    requires b < 64 && c < 64
    ensures Has(Or(m, OneBit(b)), c) <==> Has(m, c) || b == c
  {
    hide OneBit, And, Or;
    OrAnd(m, OneBit(b), OneBit(c));
    OrNonzero(And(m, OneBit(c)), And(OneBit(b), OneBit(c)));
    if b == c {
      AndSelf(OneBit(b));
      OneBitNonzero(b);
    } else {
      BitsApart(b, c);
    }
  }

  lemma PlaceBit(m: bv64, b: nat)
    requires b < 64 && b !in Positions(m)
    ensures Positions(Or(m, OneBit(b))) == Positions(m) + {b}
    ensures |Positions(Or(m, OneBit(b)))| == |Positions(m)| + 1
  {
    hide Has, OneBit, Or;
    forall c: nat | c < 64 ensures Has(Or(m, OneBit(b)), c) <==> Has(m, c) || b == c {
      HasAfter(m, b, c);
    }
  }

  // ---- The draws ---------------------------------------------------------------------------------

  ghost predicate Recurs(draws: nat -> nat, p: nat, n: nat) {
    exists k: nat :: k >= n && draws(k) == p
  }

  /** Every draw is a position below len and every position keeps recurring. */
  ghost predicate Fair(draws: nat -> nat, len: nat) {
    && (forall k: nat :: draws(k) < len)
    && (forall p: nat, n: nat :: p < len ==> Recurs(draws, p, n))
  }

  function Range(n: nat): (s: set<nat>)
    ensures |s| == n && forall k: nat :: k in s <==> k < n
  {
    if n == 0 then {} else Range(n - 1) + {n - 1}
  }

  /** While positions are missing, a draw that will be accepted lies ahead. */
  lemma NextAccepted(draws: nat -> nat, len: nat, taken: set<nat>, n: nat) returns (k: nat)
    requires Fair(draws, len) && |taken| < len
    ensures k >= n && draws(k) !in taken
  {
    var r := Range(len);
    if r <= taken {
      SubsetSize(r, taken);
      assert false;
    }
    var p :| p in r && p !in taken;
    assert Recurs(draws, p, n);
    k :| k >= n && draws(k) == p;
  }

  ghost predicate Awaits(draws: nat -> nat, mask: bv64, i: nat, ahead: int) {
    ahead >= i && draws(ahead) !in Positions(mask)
  }

  function Wanted(bits: int, len: int): nat {
    if len <= 0 || bits <= 0 then 0 else if bits > len then len else bits
  }

  /** The positions among the first n draws that a 64-bit mask has. */
  function Drawn(draws: nat -> nat, n: nat): set<nat> {
    if n == 0 then {} else Drawn(draws, n - 1) + (if draws(n - 1) < 64 then {draws(n - 1)} else {})
  }

  /** The draws among the first n that it has not; each counts as placed without setting a bit. */
  function High(draws: nat -> nat, n: nat): nat {
    if n == 0 then 0 else High(draws, n - 1) + (if draws(n - 1) < 64 then 0 else 1)
  }

  lemma {:induction false} NoneHigh(draws: nat -> nat, len: nat, n: nat)
    requires Fair(draws, len) && len <= 64
    ensures High(draws, n) == 0
    decreases n
  {
    if n > 0 {
      NoneHigh(draws, len, n - 1);
    }
  }

  lemma {:induction false} DrawnBelow(draws: nat -> nat, len: nat, n: nat)
    requires Fair(draws, len)
    ensures forall b :: b in Drawn(draws, n) ==> b < len
    decreases n
  {
    if n > 0 {
      DrawnBelow(draws, len, n - 1);
    }
  }

  /**
   * Rejection sampling.  It ends on every fair stream, at the first draw that makes up the wanted
   * number, and the mask has exactly the positions drawn.  Up to width 64 that is exactly the wanted
   * number of bits; above, each draw of 64 or more takes the place of one.
   */
  method Generate(draws: nat -> nat, bits: int, len: int) returns (mask: bv64, used: nat)
    requires len > 0 ==> Fair(draws, len)
    ensures Positions(mask) == Drawn(draws, used)
    ensures |Positions(mask)| + High(draws, used) == Wanted(bits, len)
    ensures used > 0 ==> |Drawn(draws, used - 1)| + High(draws, used - 1) < Wanted(bits, len)
    ensures forall b :: b in Positions(mask) ==> b < len
    ensures len <= 64 ==> |Positions(mask)| == Wanted(bits, len)
  {
    hide Positions, Or, And, OneBit, Fair, Drawn, High, Sampled;
    mask, used := 0, 0;
    NothingSampled(draws);
    SampledUnfold(draws, mask, used, 0);
    if len <= 0 || bits <= 0 {
      return;
    }
    var wanted := if bits > len then len else bits;
    var placed := 0;
    ghost var ahead: int := NextAccepted(draws, len, Positions(mask), used);
    while placed < wanted
      invariant placed <= wanted && Sampled(draws, mask, used, placed)
      invariant used > 0 ==> |Drawn(draws, used - 1)| + High(draws, used - 1) < wanted
      invariant placed < wanted ==> Awaits(draws, mask, used, ahead)
      decreases wanted - placed, ahead - used
    {
      SampledUnfold(draws, mask, used, placed);
      Sample(draws, mask, used, placed);
      var b := draws(used);
      if b >= 64 {
        placed := placed + 1;
      } else if And(mask, OneBit(b)) == 0 {
        mask := Or(mask, OneBit(b));
        placed := placed + 1;
      }
      used := used + 1;
      SampledUnfold(draws, mask, used, placed);
      if placed < wanted && !Awaits(draws, mask, used, ahead) {
        ahead := NextAccepted(draws, len, Positions(mask), used);
      }
    }
    SampledUnfold(draws, mask, used, placed);
    DrawnBelow(draws, len, used);
    if len <= 64 {
      NoneHigh(draws, len, used);
    }
  }

  /** The mask holds the draws so far, and placed counts its bits and the high draws. */
  ghost predicate Sampled(draws: nat -> nat, mask: bv64, n: nat, placed: nat) {
    Positions(mask) == Drawn(draws, n) && |Positions(mask)| + High(draws, n) == placed
  }

  lemma SampledUnfold(draws: nat -> nat, mask: bv64, n: nat, placed: nat)
    ensures Sampled(draws, mask, n, placed) ==>
      Positions(mask) == Drawn(draws, n) && |Positions(mask)| + High(draws, n) == placed
  {
  }

  lemma NothingSampled(draws: nat -> nat)
    ensures Sampled(draws, 0, 0, 0)
  {
    NoPositions();
  }

  /** One draw: a high one is only counted, a new one sets its bit, a repeated one changes nothing. */
  lemma Sample(draws: nat -> nat, mask: bv64, n: nat, placed: nat)
    requires Sampled(draws, mask, n, placed)
    ensures var b := draws(n);
      && (b >= 64 ==> Sampled(draws, mask, n + 1, placed + 1))
      && (b < 64 && And(mask, OneBit(b)) == 0 ==>
           Sampled(draws, Or(mask, OneBit(b)), n + 1, placed + 1) && b !in Positions(mask))
      && (b < 64 && And(mask, OneBit(b)) != 0 ==> Sampled(draws, mask, n + 1, placed) && b in Positions(mask))
  {
    hide Positions, Or, And, OneBit;
    var b := draws(n);
    if b < 64 {
      MaskTest(mask, b);
      if And(mask, OneBit(b)) == 0 {
        PlaceBit(mask, b);
      } else {
        assert Positions(mask) + {b} == Positions(mask);
      }
    }
  }

  lemma NoPositions()
    ensures Positions(0) == {}
  {
    hide OneBit;
  }

  lemma MaskTest(m: bv64, b: nat)
    requires b < 64
    ensures And(m, OneBit(b)) == 0 <==> b !in Positions(m)
  {
    hide OneBit, And;
  }

  lemma AndTwice(m: bv64, x: bv64)
    ensures And(m, Twice(x)) != 0 <==> And(Bits.Half(m), x) != 0
  {
  }

  lemma AndOne(m: bv64)
    ensures And(m, 1) != 0 <==> Bits.Odd(m)
  {
  }

  lemma {:induction false} HasIff(m: bv64, b: nat)
    ensures Has(m, b) <==> Bits.Bit(m, b)
    decreases b
  {
    hide And, Twice, Bits.Half, Bits.Odd;
    if b == 0 {
      AndOne(m);
    } else {
      AndTwice(m, OneBit(b - 1));
      HasIff(Bits.Half(m), b - 1);
    }
  }

  /** The positions the sampling speaks of are the bits of the mask. */
  lemma PositionsAreOnes(m: bv64)
    ensures Positions(m) == Bits.Ones(m)
  {
    hide Has, Bits.Bit;
    forall b: nat ensures Has(m, b) <==> Bits.Bit(m, b) {
      HasIff(m, b);
    }
  }
}
