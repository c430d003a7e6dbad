/** Which block an attack strikes, what its counters count, and when it comes. */
module CacheCounts {
  import opened Options
  import opened ByteWindow
  import opened Bits
  import opened IntArith
  import opened Injection
  import opened CacheSpec
  import opened CacheRuns

  // ---- The block struck --------------------------------------------------------------------------

  /** The valid blocks below position n. */
  function ValidBelow(blocks: seq<Block>, n: nat): set<nat>
    requires n <= |blocks|
  {
    set b: nat | b < n && blocks[b].valid
  }

  /** The first valid block with a number. */
  predicate FirstWith(blocks: seq<Block>, number: nat, b: nat) {
    && b < |blocks| && blocks[b].valid && blocks[b].number == number
    && forall k: nat :: k < b && blocks[k].valid ==> blocks[k].number != number
  }

  predicate Resident(blocks: seq<Block>, number: nat) {
    exists b :: 0 <= b < |blocks| && blocks[b].valid && blocks[b].number == number
  }

  /** List positions follow block positions, and count the valid blocks before them. */
  lemma {:induction false} ValidAt(blocks: seq<Block>, n: nat, i: nat)
    requires n <= |blocks| && i < |ValidBlocks(blocks, n)|
    ensures var b := ValidBlocks(blocks, n)[i]; b < n && blocks[b].valid && |ValidBelow(blocks, b)| == i
    decreases n
  {
    ValidCounted(blocks, n - 1);
    if i < |ValidBlocks(blocks, n - 1)| {
      ValidAt(blocks, n - 1, i);
    }
  }

  lemma {:induction false} ValidCounted(blocks: seq<Block>, n: nat)
    requires n <= |blocks|
    ensures |ValidBlocks(blocks, n)| == |ValidBelow(blocks, n)|
  {
    hide ValidBlocks;
    ValidLength(blocks, n);
    if n == 0 {
      assert ValidBelow(blocks, 0) == {};
    } else {
      ValidCounted(blocks, n - 1);
      ValidStep(blocks, n);
    }
  }

  lemma ValidStep(blocks: seq<Block>, n: nat)
    requires 0 < n <= |blocks|
    ensures |ValidBelow(blocks, n)| == |ValidBelow(blocks, n - 1)| + if blocks[n - 1].valid then 1 else 0
  {
    OneMore(ValidBelow(blocks, n), ValidBelow(blocks, n - 1), n - 1, blocks[n - 1].valid);
  }

  lemma ValidLength(blocks: seq<Block>, n: nat)
    requires n <= |blocks|
    ensures |ValidBlocks(blocks, n)|
         == if n == 0 then 0 else |ValidBlocks(blocks, n - 1)| + if blocks[n - 1].valid then 1 else 0
  {
  }

  lemma {:induction false} AtNumberAppend(blocks: seq<Block>, list: seq<nat>, b: nat, number: nat)
    requires forall i :: 0 <= i < |list| ==> list[i] < |blocks| && blocks[list[i]].valid
    requires b < |blocks| && blocks[b].valid
    ensures AtNumber(blocks, list + [b], number)
         == if AtNumber(blocks, list, number).Some? then AtNumber(blocks, list, number)
            else if blocks[b].number == number then Some(b) else None
    decreases list
  {
    if list == [] {
      assert list + [b] == [b];
    } else {
      assert (list + [b])[1..] == list[1..] + [b];
      AtNumberAppend(blocks, list[1..], b, number);
    }
  }

  lemma {:induction false} AtNumberIsFirst(blocks: seq<Block>, n: nat, number: nat)
    requires n <= |blocks|
    ensures var r := AtNumber(blocks, ValidBlocks(blocks, n), number);
      if r.Some? then r.value < n && FirstWith(blocks, number, r.value)
      else forall k: nat :: k < n && blocks[k].valid ==> blocks[k].number != number
  {
    hide AtNumber, ValidBlocks;
    if n == 0 {
      AtNumberNone(blocks, number);
    } else {
      AtNumberIsFirst(blocks, n - 1, number);
      AtNumberStep(blocks, n, number);
    }
  }

  lemma AtNumberNone(blocks: seq<Block>, number: nat)
    ensures AtNumber(blocks, ValidBlocks(blocks, 0), number) == None
  {
  }

  lemma AtNumberStep(blocks: seq<Block>, n: nat, number: nat)
    requires 0 < n <= |blocks|
    ensures var before := AtNumber(blocks, ValidBlocks(blocks, n - 1), number);
      AtNumber(blocks, ValidBlocks(blocks, n), number)
        == if before.None? && blocks[n - 1].valid && blocks[n - 1].number == number then Some(n - 1) else before
  {
    hide AtNumber;
    if blocks[n - 1].valid {
      AtNumberAppend(blocks, ValidBlocks(blocks, n - 1), n - 1, number);
    } else {
      assert ValidBlocks(blocks, n) == ValidBlocks(blocks, n - 1);
    }
  }

  /**
   * The block struck: the first valid one at the directed address, and when none is there the valid
   * one with as many valid blocks before it as the draw says.  Its partner is the first valid block
   * in the other half of the pair.
   */
  lemma StruckBlock(c: Config, blocks: seq<Block>, d: Draws, b: nat)
    requires Legal(c) && Primary(c, blocks, d) == Some(b)
    ensures b < |blocks| && blocks[b].valid
    ensures if c.targetBlock.Some? && Resident(blocks, c.targetBlock.value)
      then FirstWith(blocks, c.targetBlock.value, b)
      else |ValidBelow(blocks, |blocks|)| > 0 && |ValidBelow(blocks, b)| == d.block % |ValidBelow(blocks, |blocks|)|
    ensures var number := if blocks[b].number % 2 == 0 then blocks[b].number + 1 else blocks[b].number - 1;
      if c.paired && Resident(blocks, number)
      then Partner(c, blocks, b).Some? && FirstWith(blocks, number, Partner(c, blocks, b).value)
      else Partner(c, blocks, b) == None
  {
    hide ValidBlocks, AtNumber;
    ValidCounted(blocks, |blocks|);
    if c.targetBlock.Some? {
      AtNumberIsFirst(blocks, |blocks|, c.targetBlock.value);
    }
    AtNumberIsFirst(blocks, |blocks|, PartnerNumber(blocks[b].number));
    var list := ValidBlocks(blocks, |blocks|);
    if list != [] {
      ValidAt(blocks, |blocks|, d.block % |list|);
    }
  }

  // ---- The counters ----------------------------------------------------------------------------------

  /** Strikes of an attack that do something, and among them those with a number of mask bits. */
  function Effective(d: Draws, n: nat): set<nat>
    requires n <= |d.masks|
  {
    set i: nat | i < n && d.masks[i] != 0
  }

  function WithBits(d: Draws, n: nat, bits: nat): set<nat>
    requires n <= |d.masks|
  {
    set i: nat | i < n && d.masks[i] != 0 && BitsIn(d.masks[i]) == bits
  }

  /** The counters after n strikes with their masks: by type, by outcome, and altogether. */
  predicate Counted(c: Config, d: Draws, n: nat, before: Stats, after: Stats, copies: nat)
    requires n <= |d.masks|
  {
    var all, single, double := |Effective(d, n)|, |WithBits(d, n, 1)|, |WithBits(d, n, 2)|;
    var ecc := c.protection == Secded || c.protection == SecdedPoison;
    && after.flips == before.flips + (if d.fault == BitFlip then all else 0)
    && after.zeros == before.zeros + (if d.fault == StuckAtZero then all else 0)
    && after.ones == before.ones + (if d.fault == StuckAtOne then all else 0)
    && after.raw == before.raw + (if c.protection == Unprotected then all else 0)
    && after.corrected == before.corrected + (if c.protection == Unprotected then 0 else single)
    && after.contained == before.contained + (if ecc then double else 0)
    && after.latent == before.latent
       + (if c.protection == Unprotected then 0 else if ecc then all - single - double else all - single)
    && after.injected == before.injected + copies * all
  }

  lemma EffectiveStep(d: Draws, n: nat)
    requires n < |d.masks|
    ensures |Effective(d, n + 1)| == |Effective(d, n)| + if d.masks[n] != 0 then 1 else 0
  {
    OneMore(Effective(d, n + 1), Effective(d, n), n, d.masks[n] != 0);
  }

  lemma WithBitsStep(d: Draws, n: nat, bits: nat)
    requires n < |d.masks|
    ensures |WithBits(d, n + 1, bits)|
         == |WithBits(d, n, bits)| + if d.masks[n] != 0 && BitsIn(d.masks[n]) == bits then 1 else 0
  {
    hide BitsIn;
    OneMore(WithBits(d, n + 1, bits), WithBits(d, n, bits), n, d.masks[n] != 0 && BitsIn(d.masks[n]) == bits);
  }

  /** What one strike adds to the counters. */
  lemma StrikeStats(c: Config, s: State, b: nat, partner: Option<nat>, f: Fault, mask: bv8, off: nat)
    requires Shape(c, s) && b < |s.blocks| && off < c.blockSize && c.target == Data
    requires partner.Some? ==> partner.value < |s.blocks|
    ensures var t := Strike(c, s, b, partner, f, mask, off).stats;
      if mask == 0 then t == s.stats
      else
        var bits, x := BitsIn(mask), s.stats;
        && t.flips == x.flips + (if f == BitFlip then 1 else 0)
        && t.zeros == x.zeros + (if f == StuckAtZero then 1 else 0)
        && t.ones == x.ones + (if f == StuckAtOne then 1 else 0)
        && t.raw == x.raw + (if c.protection == Unprotected then 1 else 0)
        && t.corrected == x.corrected + (if c.protection != Unprotected && bits == 1 then 1 else 0)
        && t.contained == x.contained
           + (if (c.protection == Secded || c.protection == SecdedPoison) && bits == 2 then 1 else 0)
        && t.latent == x.latent + (if c.protection == Unprotected || bits == 1
             || ((c.protection == Secded || c.protection == SecdedPoison) && bits == 2) then 0 else 1)
        && t.injected == x.injected + (if partner.Some? then 2 else 1)
  {
    hide SetByte, ApplyByte, Record, PopCount, BitsIn;
    ByteCount(mask);
  }

  lemma {:induction false} StrikesStats(c: Config, s: State, b: nat, partner: Option<nat>, d: Draws, n: nat)
    requires Shape(c, s) && b < |s.blocks| && DrawsOk(c, d) && n <= c.corruptionSize && c.target == Data
    requires partner.Some? ==> partner.value < |s.blocks|
    ensures Counted(c, d, n, s.stats, Strikes(c, s, b, partner, d, n).stats, if partner.Some? then 2 else 1)
    decreases n
  {
    hide Strike, Offset, Effective, WithBits, BitsIn;
    if n == 0 {
      NoneCounted(d);
    } else {
      StrikesStats(c, s, b, partner, d, n - 1);
      EffectiveStep(d, n - 1);
      WithBitsStep(d, n - 1, 1);
      WithBitsStep(d, n - 1, 2);
      StrikeStats(c, Strikes(c, s, b, partner, d, n - 1), b, partner, d.fault, d.masks[n - 1],
        Offset(c, d.offsets[n - 1]));
    }
  }

  lemma NoneCounted(d: Draws)
    ensures |Effective(d, 0)| == |WithBits(d, 0, 1)| == |WithBits(d, 0, 2)| == 0
  {
    assert Effective(d, 0) == {} == WithBits(d, 0, 1) == WithBits(d, 0, 2);
  }

  /** A whole data attack, counted: by fault type, by outcome of its masks, and once per copy. */
  lemma AttackStats(c: Config, s: State, d: Draws, b: nat)
    requires Shape(c, s) && DrawsOk(c, d) && s.attackAt.Some? && c.target == Data
    requires Primary(c, s.blocks, d) == Some(b)
    ensures Counted(c, d, c.corruptionSize, s.stats, Attack(c, s, d).stats,
                    if Partner(c, s.blocks, b).Some? then 2 else 1)
  {
    hide Strikes, Primary, Partner, Interval, Counted;
    StrikesStats(c, s, b, Partner(c, s.blocks, b), d, c.corruptionSize);
  }

  // ---- Times -------------------------------------------------------------------------------------------

  /** The one check of a run comes at its configured time. */
  lemma {:induction false} CheckTime(c: Config, states: seq<State>, steps: seq<Step>, n: nat)
    requires IsRun(c, states, steps) && n <= |steps|
    ensures |states| == |steps| + 1
    ensures states[n].checkAt.Some? ==> states[n].checkAt.value == c.firstTick + c.checkDelay
    decreases n
  {
    hide Next, Enabled, Shape;
    if n > 0 {
      CheckTime(c, states, steps, n - 1);
      assert Follows(c, states[n - 1], steps[n - 1], states[n - 1 + 1]);
      StepChecks(c, states[n - 1], steps[n - 1]);
    }
  }

  /** A step other than an attack leaves the pending attack alone. */
  lemma {:induction false} AttackHeld(c: Config, states: seq<State>, steps: seq<Step>, n: nat)
    requires IsRun(c, states, steps) && n <= |steps| && forall k: nat :: k < n ==> !steps[k].AttackEvent?
    ensures |states| == |steps| + 1 && states[n].attackAt == states[0].attackAt
    decreases n
  {
    hide Shape, Rechecked;
    if n > 0 {
      AttackHeld(c, states, steps, n - 1);
      assert Follows(c, states[n - 1], steps[n - 1], states[n - 1 + 1]);
    }
  }

  /** The first attack: one delay, a 32-bit product, after the first tick. */
  lemma FirstAttack(c: Config, states: seq<State>, steps: seq<Step>, n: nat) returns (distance: nat)
    requires IsRun(c, states, steps) && n <= |steps| && forall k: nat :: k < n ==> !steps[k].AttackEvent?
    ensures |states| == |steps| + 1
    ensures states[n].attackAt == Some(c.firstTick + (distance * c.ratio) % 0x1_0000_0000)
  {
    hide Shape, Next;
    var blocks: seq<Block>, d: nat :| states[0] == Started(c, blocks, d);
    distance := d;
    AttackHeld(c, states, steps, n);
  }
}
