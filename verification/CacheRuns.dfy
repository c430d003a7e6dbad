/** Whole runs of the cache injector: outcome conservation, protection, budget, re-application. */
module CacheRuns {
  import opened Options
  import opened ByteWindow
  import opened Injection
  import opened CacheSpec

  // ---- Outcome conservation --------------------------------------------------------------------

  lemma StrikeBalanced(c: Config, s: State, b: nat, partner: Option<nat>, f: Fault, mask: bv8, off: nat)
    requires Shape(c, s) && b < |s.blocks| && off < c.blockSize && (partner.Some? ==> partner.value < |s.blocks|)
    requires Balanced(s.stats)
    ensures Balanced(Strike(c, s, b, partner, f, mask, off).stats)
  {
    hide Judge, SetByte, Record, FieldBytes, ApplyByte;
  }

  lemma {:induction false} StrikesBalanced(c: Config, s: State, b: nat, partner: Option<nat>, d: Draws, n: nat)
    requires Shape(c, s) && b < |s.blocks| && (partner.Some? ==> partner.value < |s.blocks|)
    requires DrawsOk(c, d) && n <= c.corruptionSize && Balanced(s.stats)
    ensures Balanced(Strikes(c, s, b, partner, d, n).stats)
    decreases n
  {
    hide Strike, Offset, Balanced;
    if n > 0 {
      StrikesBalanced(c, s, b, partner, d, n - 1);
      StrikeBalanced(c, Strikes(c, s, b, partner, d, n - 1), b, partner, d.fault, d.masks[n - 1],
        Offset(c, d.offsets[n - 1]));
    }
  }

  // ---- Protection of the primary block -----------------------------------------------------------

  predicate AtMostOneBit(masks: seq<bv8>) {
    forall i: nat :: i < |masks| ==> masks[i] == 0 || PopCount(masks[i] as bv64) == 1
  }

  lemma StrikeCorrected(c: Config, s: State, b: nat, partner: Option<nat>, f: Fault, mask: bv8, off: nat)
    requires Shape(c, s) && b < |s.blocks| && off < c.blockSize
    requires partner.Some? ==> partner.value < |s.blocks| && partner.value != b
    requires c.target == Data && c.protection != Unprotected && (mask == 0 || PopCount(mask as bv64) == 1)
    ensures Strike(c, s, b, partner, f, mask, off).blocks[b] == s.blocks[b]
  {
    hide SetByte, Record, ApplyByte, PopCount, CountFault, CountOutcome;
    var data := s.blocks[b].data;
    assert data[off := data[off]] == data;
  }

  /** One-bit masks under any protection model: the attack leaves the primary block exactly as it was. */
  lemma {:induction false} PrimaryUnchanged(
    c: Config, s: State, b: nat, partner: Option<nat>, d: Draws, n: nat)
    requires Shape(c, s) && b < |s.blocks| && DrawsOk(c, d) && n <= c.corruptionSize
    requires partner.Some? ==> partner.value < |s.blocks| && partner.value != b
    requires c.target == Data && c.protection != Unprotected && AtMostOneBit(d.masks)
    ensures Strikes(c, s, b, partner, d, n).blocks[b] == s.blocks[b]
    decreases n
  {
    hide Strike, Offset, PopCount;
    if n > 0 {
      PrimaryUnchanged(c, s, b, partner, d, n - 1);
      StrikeCorrected(c, Strikes(c, s, b, partner, d, n - 1), b, partner, d.fault, d.masks[n - 1],
        Offset(c, d.offsets[n - 1]));
    }
  }

  /** The same, for the whole attack event. */
  lemma AttackLeavesPrimary(c: Config, s: State, d: Draws)
    requires Shape(c, s) && DrawsOk(c, d) && s.attackAt.Some? && Primary(c, s.blocks, d).Some?
    requires c.target == Data && c.protection != Unprotected && AtMostOneBit(d.masks)
    ensures Attack(c, s, d).blocks[Primary(c, s.blocks, d).value] == s.blocks[Primary(c, s.blocks, d).value]
  {
    hide Strikes, Primary, Partner, Interval, AtMostOneBit;
    var b := Primary(c, s.blocks, d).value;
    PrimaryUnchanged(c, s, b, Partner(c, s.blocks, b), d, c.corruptionSize);
  }

  /** Blocks other than the primary and its partner are never touched. */
  lemma {:induction false} OthersUntouched(
    c: Config, s: State, b: nat, partner: Option<nat>, d: Draws, n: nat, k: nat)
    requires Shape(c, s) && b < |s.blocks| && DrawsOk(c, d) && n <= c.corruptionSize
    requires partner.Some? ==> partner.value < |s.blocks|
    requires k < |s.blocks| && k != b && partner != Some(k)
    ensures Strikes(c, s, b, partner, d, n).blocks[k] == s.blocks[k]
    decreases n
  {
    hide Offset, SetByte, Record, ApplyByte, Judge, FieldBytes, CountFault, CountOutcome;
    if n > 0 {
      OthersUntouched(c, s, b, partner, d, n - 1, k);
    }
  }

  /** Strikes never change which block sits where. */
  lemma {:induction false} StrikesKeepTags(
    c: Config, s: State, b: nat, partner: Option<nat>, d: Draws, n: nat, k: nat)
    requires Shape(c, s) && b < |s.blocks| && DrawsOk(c, d) && n <= c.corruptionSize
    requires (partner.Some? ==> partner.value < |s.blocks|) && k < |s.blocks|
    ensures SameTag(s.blocks[k], Strikes(c, s, b, partner, d, n).blocks[k])
    decreases n
  {
    hide Offset, SetByte, Record, ApplyByte, Judge, FieldBytes, CountFault, CountOutcome;
    if n > 0 {
      StrikesKeepTags(c, s, b, partner, d, n - 1, k);
    }
  }

  // ---- Re-application -----------------------------------------------------------------------------------

  predicate IsLast(blocks: seq<Block>, k: nat)
    requires k < |blocks|
  {
    blocks[k].valid && forall j: nat :: k < j < |blocks| && blocks[j].valid ==> blocks[j].number != blocks[k].number
  }

  function RecheckByte(blocks: seq<Block>, stuck: map<Place, Stuck>, k: nat, o: nat): bv8
    requires k < |blocks| && o < |blocks[k].data|
  {
    var at := Place(blocks[k].number, o);
    if IsLast(blocks, k) && at in stuck then ApplyByte(stuck[at].fault, blocks[k].data[o], stuck[at].mask)
    else blocks[k].data[o]
  }

  function RecheckData(blocks: seq<Block>, stuck: map<Place, Stuck>, k: nat): (r: seq<bv8>)
    requires k < |blocks|
    ensures |r| == |blocks[k].data| && forall o: nat :: o < |r| ==> r[o] == RecheckByte(blocks, stuck, k, o)
  {
    seq(|blocks[k].data|, o requires 0 <= o < |blocks[k].data| => RecheckByte(blocks, stuck, k, o))
  }

  /** Every recorded stuck-at whose block is resident, applied again. */
  function Rechecked(blocks: seq<Block>, stuck: map<Place, Stuck>): (r: seq<Block>)
    ensures |r| == |blocks|
    ensures forall k: nat :: k < |r| ==> r[k] == blocks[k].(data := RecheckData(blocks, stuck, k))
  {
    seq(|blocks|, k requires 0 <= k < |blocks| => blocks[k].(data := RecheckData(blocks, stuck, k)))
  }

  /** The blocks when the places in todo are still to be checked. */
  ghost predicate PartlyRechecked(before: seq<Block>, stuck: map<Place, Stuck>, now: seq<Block>, todo: set<Place>) {
    && |now| == |before|
    && (forall k: nat :: k < |now| ==> SameTag(before[k], now[k]))
    && (forall k: nat, o: nat :: k < |now| && o < |before[k].data| ==>
      now[k].data[o] == if Place(before[k].number, o) in todo then before[k].data[o]
                        else RecheckByte(before, stuck, k, o))
  }

  predicate SameTag(a: Block, b: Block) {
    a.valid == b.valid && a.number == b.number && |a.data| == |b.data|
  }

  lemma SameLast(before: seq<Block>, now: seq<Block>, k: nat)
    requires |now| == |before| && k < |now| && forall j: nat :: j < |now| ==> SameTag(before[j], now[j])
    ensures IsLast(before, k) <==> IsLast(now, k)
  {
    assert SameTag(before[k], now[k]);
    if !IsLast(before, k) && before[k].valid {
      var j: nat :| k < j < |before| && before[j].valid && before[j].number == before[k].number;
      assert SameTag(before[j], now[j]);
    }
    if !IsLast(now, k) && now[k].valid {
      var j: nat :| k < j < |now| && now[j].valid && now[j].number == now[k].number;
      assert SameTag(before[j], now[j]);
    }
  }

  /** Checking one place moves it from the pending places to the checked ones. */
  lemma CheckPlace(
    before: seq<Block>, stuck: map<Place, Stuck>, now: seq<Block>, todo: set<Place>, p: Place, k: nat)
    requires PartlyRechecked(before, stuck, now, todo) && p in todo && p in stuck
    requires k < |now| && IsLast(now, k) && now[k].number == p.number && p.off < |now[k].data|
    ensures PartlyRechecked(before, stuck,
      SetByte(now, k, p.off, ApplyByte(stuck[p].fault, now[k].data[p.off], stuck[p].mask)), todo - {p})
  {
    hide ApplyByte, SetByte, IsLast;
    var after := SetByte(now, k, p.off, ApplyByte(stuck[p].fault, now[k].data[p.off], stuck[p].mask));
    assert SameTag(before[k], now[k]);
    forall j: nat | j < |after| ensures SameTag(before[j], after[j]) {
      assert SameTag(before[j], now[j]);
    }
    SameLast(before, now, k);
    forall j: nat, o: nat | j < |after| && o < |before[j].data|
      ensures after[j].data[o]
           == if Place(before[j].number, o) in todo - {p} then before[j].data[o] else RecheckByte(before, stuck, j, o)
    {
      assert SameTag(before[j], now[j]);
      if Place(before[j].number, o) == p && j != k {
        LastIsUnique(before, k, j);
      }
    }
  }

  lemma LastIsUnique(blocks: seq<Block>, k: nat, j: nat)
    ensures k < |blocks| && j < |blocks| && IsLast(blocks, k) && blocks[j].number == blocks[k].number && j != k ==>
      !IsLast(blocks, j)
  {
  }

  /** A place whose block is not resident has nothing to check. */
  lemma SkipPlace(before: seq<Block>, stuck: map<Place, Stuck>, now: seq<Block>, todo: set<Place>, p: Place)
    requires PartlyRechecked(before, stuck, now, todo) && p in todo
    requires forall k: nat :: k < |now| && now[k].valid ==> now[k].number != p.number
    ensures PartlyRechecked(before, stuck, now, todo - {p})
  {
    hide ApplyByte;
    forall j: nat, o: nat | j < |now| && o < |before[j].data|
      ensures now[j].data[o]
           == if Place(before[j].number, o) in todo - {p} then before[j].data[o] else RecheckByte(before, stuck, j, o)
    {
      assert SameTag(before[j], now[j]);
    }
  }

  lemma AllRechecked(before: seq<Block>, stuck: map<Place, Stuck>, now: seq<Block>)
    requires PartlyRechecked(before, stuck, now, {})
    ensures now == Rechecked(before, stuck)
  {
    hide RecheckByte, Rechecked, RecheckData;
    var r := Rechecked(before, stuck);
    forall k: nat | k < |now| ensures now[k] == r[k] {
      assert SameTag(before[k], now[k]);
      assert now[k].data == RecheckData(before, stuck, k);
    }
  }

  /** The check event; nothing schedules another one. */
  function Check(c: Config, s: State): (r: State)
    requires Shape(c, s)
    ensures Shape(c, r) && |r.blocks| == |s.blocks|
  {
    s.(blocks := Rechecked(s.blocks, s.stuck), checkAt := None)
  }

  // ---- Runs ------------------------------------------------------------------------------------------------

  datatype Step =
    | Replace(b: nat, block: Block)
    | AttackEvent(draws: Draws)
    | CheckEvent

  predicate Enabled(c: Config, s: State, step: Step) {
    match step
    case Replace(b, block) => b < |s.blocks| && |block.data| == c.blockSize
    case AttackEvent(d) => s.attackAt.Some? && DrawsOk(c, d)
    case CheckEvent => s.checkAt.Some?
  }

  function Next(c: Config, s: State, step: Step): (r: State)
    requires Shape(c, s) && Enabled(c, s, step)
    ensures Shape(c, r) && |r.blocks| == |s.blocks|
  {
    match step
    case Replace(b, block) => s.(blocks := s.blocks[b := block])
    case AttackEvent(d) => Attack(c, s, d)
    case CheckEvent => Check(c, s)
  }

  function Started(c: Config, blocks: seq<Block>, distance: nat): State {
    State(blocks, map[], Stats(0, 0, 0, 0, 0, 0, 0, 0), 0,
          Some(c.firstTick + (distance * c.ratio) % 0x1_0000_0000), Some(c.firstTick + c.checkDelay))
  }

  predicate Follows(c: Config, s: State, step: Step, t: State) {
    Shape(c, s) && Enabled(c, s, step) && t == Next(c, s, step)
  }

  /** The states of a run: blocks are filled, written and evicted between injector events at will. */
  ghost predicate IsRun(c: Config, states: seq<State>, steps: seq<Step>) {
    && |states| == |steps| + 1
    && Shape(c, states[0])
    && (exists blocks: seq<Block>, distance: nat :: states[0] == Started(c, blocks, distance))
    && (forall i: nat :: i < |steps| ==> Follows(c, states[i], steps[i], states[i + 1]))
  }

  lemma StepBalanced(c: Config, s: State, step: Step)
    requires Shape(c, s) && Enabled(c, s, step) && Balanced(s.stats)
    ensures Balanced(Next(c, s, step).stats)
  {
    hide Balanced, Strikes, Primary, Partner, Interval, Rechecked;
    if step.AttackEvent? {
      var b := Primary(c, s.blocks, step.draws);
      if b.Some? {
        StrikesBalanced(c, s, b.value, Partner(c, s.blocks, b.value), step.draws, c.corruptionSize);
      }
    }
  }

  /** In every state of every run, data faults by type add up to data faults by outcome. */
  lemma {:induction false} OutcomesBalance(c: Config, states: seq<State>, steps: seq<Step>, n: nat)
    requires IsRun(c, states, steps) && n <= |steps|
    ensures |states| == |steps| + 1 && Balanced(states[n].stats)
    decreases n
  {
    hide Next, Enabled, Shape;
    if n > 0 {
      OutcomesBalance(c, states, steps, n - 1);
      assert Follows(c, states[n - 1], steps[n - 1], states[n - 1 + 1]);
      StepBalanced(c, states[n - 1], steps[n - 1]);
    }
  }

  function Checks(steps: seq<Step>, n: nat): nat
    requires n <= |steps|
  {
    if n == 0 then 0 else Checks(steps, n - 1) + (if steps[n - 1].CheckEvent? then 1 else 0)
  }

  lemma {:induction false} StrikesEvents(c: Config, s: State, b: nat, partner: Option<nat>, d: Draws, n: nat)
    requires Shape(c, s) && b < |s.blocks| && (partner.Some? ==> partner.value < |s.blocks|)
    requires DrawsOk(c, d) && n <= c.corruptionSize
    ensures Strikes(c, s, b, partner, d, n).checkAt == s.checkAt
    ensures c.target == Data ==> Strikes(c, s, b, partner, d, n).count == s.count
    decreases n
  {
    hide Offset, SetByte, Record, ApplyByte, Judge, FieldBytes, CountFault, CountOutcome;
    if n > 0 {
      StrikesEvents(c, s, b, partner, d, n - 1);
    }
  }

  lemma StepChecks(c: Config, s: State, step: Step)
    requires Shape(c, s) && Enabled(c, s, step)
    ensures Next(c, s, step).checkAt == if step.CheckEvent? then None else s.checkAt
  {
    hide Strikes, Primary, Partner, Interval, Rechecked;
    if step.AttackEvent? {
      var b := Primary(c, s.blocks, step.draws);
      if b.Some? {
        StrikesEvents(c, s, b.value, Partner(c, s.blocks, b.value), step.draws, c.corruptionSize);
      }
    }
  }

  /** Stuck-at faults are re-applied at most once in a run: the check never reschedules itself. */
  lemma {:induction false} AtMostOneCheck(c: Config, states: seq<State>, steps: seq<Step>, n: nat)
    requires IsRun(c, states, steps) && n <= |steps|
    ensures |states| == |steps| + 1
    ensures Checks(steps, n) + (if states[n].checkAt.Some? then 1 else 0) == 1
    decreases n
  {
    hide Next, Shape;
    if n > 0 {
      AtMostOneCheck(c, states, steps, n - 1);
      assert Follows(c, states[n - 1], steps[n - 1], states[n - 1 + 1]);
      StepChecks(c, states[n - 1], steps[n - 1]);
    }
  }
}
