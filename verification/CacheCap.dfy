/** When the cache injector's cap bounds the faults it injects: the exact condition, for every configuration. */
module CacheCap {
  import opened Options
  import opened IntArith
  import opened ByteWindow
  import opened Injection
  import opened CacheSpec
  import opened CacheRuns
  import opened CacheBudget

  // ---- A run that injects as much as it can ------------------------------------------------------

  function AllOnes(n: nat): (r: seq<bv8>)
    ensures |r| == n && forall i: nat :: i < n ==> r[i] == 0xff
  {
    if n == 0 then [] else AllOnes(n - 1) + [0xff]
  }

  /** Strike the first valid block with every mask bit set, and come back after the given distance. */
  function FullDraws(c: Config, distance: nat): Draws {
    Draws(0, BitFlip, AllOnes(c.corruptionSize), seq(c.corruptionSize, _ => 0), distance)
  }

  lemma {:induction false} AllNonzero(masks: seq<bv8>, n: nat)
    requires n <= |masks| && forall i: nat :: i < |masks| ==> masks[i] == 0xff
    ensures Nonzero(masks, n) == n
    decreases n
  {
    if n > 0 {
      AllNonzero(masks, n - 1);
    }
  }

  /** The block an attack goes for, in the first slot, and its partner in the second. */
  predicate Prepared(c: Config, blocks: seq<Block>) {
    && |blocks| > 0 && blocks[0].valid
    && (c.targetBlock.Some? ==> blocks[0].number == c.targetBlock.value)
    && (|blocks| > 1 ==> blocks[1].valid && blocks[1].number == PartnerNumber(blocks[0].number))
  }

  lemma {:induction false} FirstListed(blocks: seq<Block>, n: nat)
    requires 0 < n <= |blocks| && blocks[0].valid
    ensures ValidBlocks(blocks, n) != [] && ValidBlocks(blocks, n)[0] == 0
    decreases n
  {
    if n > 1 {
      FirstListed(blocks, n - 1);
    } else {
      assert ValidBlocks(blocks, 0) == [];
    }
  }

  lemma PreparedCopies(c: Config, blocks: seq<Block>, distance: nat)
    requires Legal(c) && Prepared(c, blocks)
    ensures Copies(c, blocks, FullDraws(c, distance)) == MaxCopies(c, |blocks|)
  {
    hide ValidBlocks;
    FirstListed(blocks, |blocks|);
    var list := ValidBlocks(blocks, |blocks|);
    assert Primary(c, blocks, FullDraws(c, distance)) == Some(0);
    if |blocks| > 1 {
      assert 1 in list;
      var i :| 0 <= i < |list| && list[i] == 1;
      assert AtNumber(blocks, list, PartnerNumber(blocks[0].number)).Some?;
    }
  }

  lemma AttackKeepsPrepared(c: Config, s: State, d: Draws)
    requires Shape(c, s) && DrawsOk(c, d) && s.attackAt.Some? && Prepared(c, s.blocks)
    ensures Prepared(c, Attack(c, s, d).blocks)
  {
    hide Strikes, Primary, Partner, Interval;
    var b := Primary(c, s.blocks, d);
    if b.Some? {
      StrikesKeepTags(c, s, b.value, Partner(c, s.blocks, b.value), d, c.corruptionSize, 0);
      if |s.blocks| > 1 {
        StrikesKeepTags(c, s, b.value, Partner(c, s.blocks, b.value), d, c.corruptionSize, 1);
      }
    }
  }

  /** A prepared cache after k full attacks, each as early as it can be. */
  predicate FullSoFar(c: Config, s: State, k: nat) {
    && Shape(c, s) && Prepared(c, s.blocks)
    && s.stats.injected == k * (MaxCopies(c, |s.blocks|) * c.corruptionSize)
    && (c.target == Data || k == 0 ==>
      && s.count == k * c.corruptionSize
      && (InTime(c, k + 1) && InBudget(c, k + 1) ==> s.attackAt == Some(c.firstTick + k * (c.ratio % 2))))
  }

  lemma FullAttack(c: Config, s: State, k: nat, distance: nat)
    requires FullSoFar(c, s, k) && (c.target == Data || k == 0) && InTime(c, k + 1) && InBudget(c, k + 1)
    requires c.maxFaults != 0 && distance < 0x1_0000_0000 && Interval(c.ratio, distance) == c.ratio % 2
    ensures s.attackAt.Some? && DrawsOk(c, FullDraws(c, distance))
    ensures FullSoFar(c, Attack(c, s, FullDraws(c, distance)), k + 1)
  {
    hide Struck, Interval, Nonzero, Copies, MaxCopies, Prepared, FullDraws;
    var d := FullDraws(c, distance);
    FullDrawsOk(c, distance);
    AttackCharge(c, s, d);
    AttackKeepsPrepared(c, s, d);
    PreparedCopies(c, s.blocks, distance);
    NextMultiple(k, c.corruptionSize);
    NextMultiple(k, MaxCopies(c, |s.blocks|) * c.corruptionSize);
    NextMultiple(k, c.ratio % 2);
  }

  lemma FullDrawsOk(c: Config, distance: nat)
    requires distance < 0x1_0000_0000
    ensures DrawsOk(c, FullDraws(c, distance)) && FullDraws(c, distance).distance == distance
    ensures Nonzero(FullDraws(c, distance).masks, c.corruptionSize) == c.corruptionSize
  {
    AllNonzero(FullDraws(c, distance).masks, c.corruptionSize);
  }

  // ---- Building the run ------------------------------------------------------------------------------

  lemma ExtendRun(c: Config, states: seq<State>, steps: seq<Step>, step: Step, t: State)
    requires IsRun(c, states, steps) && Follows(c, states[|steps|], step, t)
    ensures IsRun(c, states + [t], steps + [step])
  {
    hide Follows, Shape, Started;
    var more, longer := states + [t], steps + [step];
    var blocks: seq<Block>, distance: nat :| states[0] == Started(c, blocks, distance);
    assert more[0] == Started(c, blocks, distance);
    forall i: nat | i < |longer| ensures Follows(c, more[i], longer[i], more[i + 1]) {
      if i < |steps| {
        assert Follows(c, states[i], steps[i], states[i + 1]);
      }
    }
  }

  function Zeros(n: nat): (r: seq<bv8>)
    ensures |r| == n
  {
    seq(n, _ => 0)
  }

  predicate Sized(c: Config, blocks: seq<Block>) {
    Legal(c) && forall b: nat :: b < |blocks| ==> |blocks[b].data| == c.blockSize
  }

  function Wanted(c: Config): nat {
    if c.targetBlock.Some? then c.targetBlock.value else 0
  }

  /** From any cache, fills can bring in the block an attack goes for and its partner. */
  lemma PreparedRun(c: Config, blocks: seq<Block>) returns (states: seq<State>, steps: seq<Step>)
    requires Sized(c, blocks) && |blocks| > 0
    ensures IsRun(c, states, steps) && states[0].blocks == blocks
    ensures FullSoFar(c, states[|steps|], 0) && |states[|steps|].blocks| == |blocks|
  {
    var s := Started(c, blocks, 0);
    states, steps := [s], [];
    assert states[0] == Started(c, blocks, 0);
    var first := Replace(0, Block(true, Wanted(c), Zeros(c.blockSize)));
    var t := Next(c, s, first);
    ExtendRun(c, states, steps, first, t);
    states, steps := [s, t], [first];
    if |blocks| > 1 {
      var second := Replace(1, Block(true, PartnerNumber(Wanted(c)), Zeros(c.blockSize)));
      var u := Next(c, t, second);
      assert [s, t] + [u] == [s, t, u] && [first] + [second] == [first, second];
      ExtendRun(c, states, steps, second, u);
      states, steps := [s, t, u], [first, second];
    }
  }

  /** As long as window and budget allow, full attacks can go on. */
  lemma {:induction false} FullRun(c: Config, blocks: seq<Block>, k: nat, distance: nat)
    returns (states: seq<State>, steps: seq<Step>)
    requires Sized(c, blocks) && |blocks| > 0 && c.maxFaults != 0 && (c.target == Data || k <= 1)
    requires InTime(c, k) && InBudget(c, k)
    requires distance < 0x1_0000_0000 && Interval(c.ratio, distance) == c.ratio % 2
    ensures IsRun(c, states, steps) && states[0].blocks == blocks
    ensures FullSoFar(c, states[|steps|], k) && |states[|steps|].blocks| == |blocks|
    decreases k
  {
    hide Attack, Shape, FullDraws, DrawsOk, Interval, Sized, InTime, InBudget, FullSoFar;
    if k == 0 {
      states, steps := PreparedRun(c, blocks);
    } else {
      EarlierToo(c, k);
      states, steps := FullRun(c, blocks, k - 1, distance);
      var s := states[|steps|];
      FullAttack(c, s, k - 1, distance);
      ShapeOf(c, s, k - 1);
      var step := AttackEvent(FullDraws(c, distance));
      var t := Attack(c, s, FullDraws(c, distance));
      ExtendRun(c, states, steps, step, t);
      states, steps := states + [t], steps + [step];
    }
  }

  lemma ShapeOf(c: Config, s: State, k: nat)
    requires FullSoFar(c, s, k)
    ensures Shape(c, s)
  {
  }

  lemma EarlierToo(c: Config, k: nat)
    requires k > 0 && InTime(c, k) && InBudget(c, k)
    ensures InTime(c, k - 1) && InBudget(c, k - 1)
  {
    if k > 1 {
      NextMultiple(k - 2, c.corruptionSize);
      NextMultiple(k - 2, c.ratio % 2);
    }
  }

  // ---- The condition ------------------------------------------------------------------------------------

  ghost predicate CapHolds(c: Config, blocks: seq<Block>) {
    forall states: seq<State>, steps: seq<Step> ::
      IsRun(c, states, steps) && states[0].blocks == blocks ==> states[|steps|].stats.injected <= c.maxFaults
  }

  /** Faults one full attack injects. */
  function Unit(c: Config, slots: nat): nat {
    MaxCopies(c, slots) * c.corruptionSize
  }

  /**
   * When the cap is a bound.  An instruction field: when one attack fits.  A byte array: when no
   * pair can be struck and the attack's faults divide the cap, or when the first attack that could
   * pass the cap would come after the window.
   */
  predicate Bounded(c: Config, slots: nat) {
    if Unit(c, slots) == 0 then true
    else if c.target != Data then c.corruptionSize <= c.maxFaults
    else
      || (MaxCopies(c, slots) == 1 && c.maxFaults % Unit(c, slots) == 0)
      || !InTime(c, c.maxFaults / Unit(c, slots) + 1)
  }

  lemma InTimeEarlier(c: Config, j: nat, k: nat)
    requires j <= k && InTime(c, k)
    ensures InTime(c, j)
  {
    if j > 1 {
      MulOrder(j - 1, k - 1, c.ratio % 2);
    }
  }

  /** The last multiple not above a number. */
  lemma Multiples(cap: nat, unit: nat)
    requires unit > 0
    ensures var q := cap / unit; q * unit <= cap < (q + 1) * unit && (q + 1) * unit == q * unit + unit
    ensures cap % unit == 0 <==> cap / unit * unit == cap
  {
    var q := cap / unit;
    assert cap == q * unit + cap % unit;
    NextMultiple(q, unit);
  }

  lemma UnitFacts(c: Config, slots: nat)
    ensures Unit(c, slots) == MaxCopies(c, slots) * c.corruptionSize
    ensures Unit(c, slots) == 0 <==> slots == 0 || c.corruptionSize == 0
    ensures MaxCopies(c, slots) <= 1 ==> Unit(c, slots) <= c.corruptionSize
    ensures MaxCopies(c, slots) == 1 ==> Unit(c, slots) == c.corruptionSize
    ensures MaxCopies(c, slots) > 1 ==> Unit(c, slots) == 2 * c.corruptionSize
  {
  }

  lemma NoneAbove(k: nat, q: nat, size: nat, cap: nat)
    requires q * size == cap > 0 && (k <= 1 || (k - 1) * size < cap)
    ensures k <= q
  {
    if k > q {
      MulOrder(q, k - 1, size);
      assert false;
    }
  }

  lemma AttacksBounded(c: Config, slots: nat, k: nat)
    requires InTime(c, k) && InBudget(c, k) && c.target == Data && c.maxFaults != 0 && Bounded(c, slots)
    requires Unit(c, slots) > 0
    ensures k <= c.maxFaults / Unit(c, slots)
  {
    hide InTime, MaxCopies, Unit;
    UnitFacts(c, slots);
    Multiples(c.maxFaults, Unit(c, slots));
    var q := c.maxFaults / Unit(c, slots);
    if InTime(c, q + 1) {
      NoneAbove(k, q, Unit(c, slots), c.maxFaults);
    } else if k > q {
      InTimeEarlier(c, q + 1, k);
      assert false;
    }
  }

  lemma DataHolds(c: Config, slots: nat, s: State, k: nat)
    requires Within(c, slots, s, k) && c.target == Data && c.maxFaults != 0 && Bounded(c, slots)
    ensures s.stats.injected <= c.maxFaults
  {
    hide InTime, InBudget, MaxCopies, Unit, Bounded;
    UnitFacts(c, slots);
    var unit := Unit(c, slots);
    if unit == 0 {
      assert k * unit == 0;
    } else {
      AttacksBounded(c, slots, k);
      Multiples(c.maxFaults, unit);
      MulOrder(k, c.maxFaults / unit, unit);
    }
  }

  lemma FieldHolds(c: Config, slots: nat, s: State, k: nat)
    requires Within(c, slots, s, k) && c.target != Data && c.maxFaults != 0 && Bounded(c, slots)
    ensures s.stats.injected <= c.maxFaults
  {
    hide InTime, Unit, MaxCopies;
    UnitFacts(c, slots);
    if c.corruptionSize == 0 {
      assert k * 0 == 0;
    }
  }

  lemma BoundedHolds(c: Config, states: seq<State>, steps: seq<Step>)
    requires IsRun(c, states, steps) && c.maxFaults != 0 && Bounded(c, |states[0].blocks|)
    ensures |states| == |steps| + 1 && states[|steps|].stats.injected <= c.maxFaults
  {
    hide IsRun, Within, Bounded;
    RunWithin(c, states, steps, |steps|);
    if c.target == Data {
      DataHolds(c, |states[0].blocks|, states[|steps|], Attacks(steps, |steps|));
    } else {
      FieldHolds(c, |states[0].blocks|, states[|steps|], Attacks(steps, |steps|));
    }
  }

  /** How many full attacks pass the cap, and why they fit the budget. */
  lemma PassingAttacks(c: Config, slots: nat) returns (k: nat)
    requires c.maxFaults != 0 && !Bounded(c, slots)
    ensures slots > 0 && (c.target == Data || k == 1)
    ensures InTime(c, k) && InBudget(c, k) && k * Unit(c, slots) > c.maxFaults
  {
    hide InTime, MaxCopies, Unit;
    UnitFacts(c, slots);
    if c.target != Data {
      k := 1;
      FirstInTime(c);
      FieldCopies(c, slots);
    } else {
      var unit := Unit(c, slots);
      Multiples(c.maxFaults, unit);
      k := c.maxFaults / unit + 1;
      DataCopies(c, slots);
      HalfBudget(k - 1, c.corruptionSize);
    }
  }

  lemma FieldCopies(c: Config, slots: nat)
    ensures c.target != Data && slots > 0 ==> MaxCopies(c, slots) == 1
  {
  }

  lemma DataCopies(c: Config, slots: nat)
    ensures c.target == Data && slots > 0 ==> MaxCopies(c, slots) == 1 || MaxCopies(c, slots) == 2
  {
  }

  lemma HalfBudget(q: nat, size: nat)
    ensures q * (2 * size) == 2 * (q * size)
    ensures q > 0 && size > 0 ==> q * size > 0
  {
    if q > 0 {
      MulOrder(1, q, size);
    }
  }

  lemma UnboundedFails(c: Config, blocks: seq<Block>) returns (states: seq<State>, steps: seq<Step>)
    requires Sized(c, blocks) && c.maxFaults != 0 && !Bounded(c, |blocks|)
    ensures IsRun(c, states, steps) && states[0].blocks == blocks
    ensures states[|steps|].stats.injected > c.maxFaults
  {
    hide Sized, InTime, InBudget, Interval, Prepared, Shape, Bounded, MaxCopies, IsRun, Unit;
    var distance := LeastInterval(c.ratio);
    var k := PassingAttacks(c, |blocks|);
    UnitFacts(c, |blocks|);
    states, steps := FullRun(c, blocks, k, distance);
    RunLength(c, states, steps);
  }

  lemma RunLength(c: Config, states: seq<State>, steps: seq<Step>)
    requires IsRun(c, states, steps)
    ensures |states| == |steps| + 1
  {
  }

  lemma FirstInTime(c: Config)
    ensures InTime(c, 1) && InBudget(c, 1)
  {
  }

  /**
   * Over all runs from any cache, of any configuration with a cap: the faults injected stay
   * within the cap exactly when the condition holds.
   */
  lemma CapHoldsIff(c: Config, blocks: seq<Block>)
    requires Sized(c, blocks) && c.maxFaults != 0
    ensures CapHolds(c, blocks) <==> Bounded(c, |blocks|)
  {
    hide Follows, Started, Shape, Bounded, Sized;
    if Bounded(c, |blocks|) {
      forall states: seq<State>, steps: seq<Step> | IsRun(c, states, steps) && states[0].blocks == blocks
        ensures states[|steps|].stats.injected <= c.maxFaults
      {
        BoundedHolds(c, states, steps);
      }
    } else {
      var states, steps := UnboundedFails(c, blocks);
      assert states[|steps|].stats.injected > c.maxFaults;
    }
  }

  /** The single-fault setting in plain words: cap one, one byte per attack, no end of the window. */
  lemma SingleFaultIff(c: Config, blocks: seq<Block>)
    requires Sized(c, blocks) && c.maxFaults == 1 && c.corruptionSize == 1 && c.lastTick == 0
    ensures CapHolds(c, blocks) <==> !(c.paired && c.target == Data && |blocks| > 1)
  {
    hide CapHolds, Sized;
    CapHoldsIff(c, blocks);
    UnitFacts(c, |blocks|);
  }
}
