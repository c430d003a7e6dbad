/** Whole runs of the rename-map injector: budget, pins, and the times of its events. */
module RenameRuns {
  import opened Options
  import opened RenameSpec

  // ---- Events --------------------------------------------------------------------------------

  /** One thread's part of an attack event; a halted thread is skipped. */
  function Attempt(c: Config, s: State, tid: nat, d: Draws): (r: State)
    requires InRange(c, s) && tid < c.threads
    ensures InRange(c, r)
    ensures s.faults <= r.faults && (c.maxFaults != 0 && s.faults <= c.maxFaults ==> r.faults <= c.maxFaults)
    ensures r.attackAt == s.attackAt && r.checkAt == s.checkAt
  {
    ProcessInRange(c, s, tid, d);
    if d.halted then s else Process(c, s, tid, d)
  }

  /** All threads in order. */
  function AttackThreads(c: Config, s: State, draws: seq<Draws>, n: nat): (r: State)
    requires InRange(c, s) && n <= c.threads == |draws|
    ensures InRange(c, r)
    ensures s.faults <= r.faults && (c.maxFaults != 0 && s.faults <= c.maxFaults ==> r.faults <= c.maxFaults)
    ensures r.attackAt == s.attackAt && r.checkAt == s.checkAt
  {
    if n == 0 then s else Attempt(c, AttackThreads(c, s, draws, n - 1), n - 1, draws[n - 1])
  }

  /** Distance to the next attack: at least one cycle when nothing landed. */
  function Backoff(landed: bool, distance: nat): nat {
    if !landed && distance < 1 then 1 else distance
  }

  function Rescheduled(c: Config, s: State, now: nat, wait: nat): Option<nat> {
    if Capped(c, s) then None
    else if c.lastClock == 0 || now + wait <= c.lastClock then Some(now + wait)
    else None
  }

  function Attack(c: Config, s: State, draws: seq<Draws>, distance: nat): (r: State)
    requires InRange(c, s) && |draws| == c.threads && s.attackAt.Some?
    ensures InRange(c, r)
  {
    var after := AttackThreads(c, s, draws, c.threads);
    after.(attackAt := Rescheduled(c, after, s.attackAt.value, Backoff(after.faults > s.faults, distance)))
  }

  /** Cycle of the next check: the absolute cycle plus the period is used as a delay. */
  function NextCheck(now: nat): nat {
    now + (now + 100000)
  }

  /** Every pinned entry set to its pin. */
  function Repinned(c: Config, s: State): (r: seq<Row>)
    requires Shape(c, s)
    ensures |r| == c.threads && forall t: nat :: t < c.threads ==> |r[t]| == c.archRegs
    ensures forall t: nat, a: nat :: t < c.threads && a < c.archRegs ==>
      r[t][a] == PinnedEntry(s.pins, t, a, s.rat[t][a])
  {
    seq(c.threads, t requires 0 <= t < c.threads && Shape(c, s) =>
      seq(c.archRegs, a requires 0 <= a < c.archRegs && |s.rat[t]| == c.archRegs =>
        PinnedEntry(s.pins, t, a, s.rat[t][a])))
  }

  function PinnedEntry(pins: map<Key, nat>, t: nat, a: nat, entry: Option<nat>): Option<nat> {
    if Key(t, a) in pins then Some(pins[Key(t, a)]) else entry
  }

  function Check(c: Config, s: State): (r: State)
    requires Shape(c, s) && s.checkAt.Some?
  {
    s.(rat := Repinned(c, s), checkAt := Some(NextCheck(s.checkAt.value)))
  }

  datatype Step =
    | Rename(tid: nat, arch: nat, phys: Option<nat>)
    | AttackEvent(draws: seq<Draws>, distance: nat)
    | CheckEvent

  predicate Enabled(c: Config, s: State, step: Step) {
    match step
    case Rename(t, a, p) => t < c.threads && a < c.archRegs && Mapping(c, p)
    case AttackEvent(draws, _) => |draws| == c.threads && s.attackAt.Some?
    case CheckEvent => s.checkAt.Some?
  }

  function Next(c: Config, s: State, step: Step): (r: State)
    requires InRange(c, s) && Enabled(c, s, step)
  {
    match step
    case Rename(t, a, p) => s.(rat := SetEntry(s.rat, t, a, p))
    case AttackEvent(draws, distance) => Attack(c, s, draws, distance)
    case CheckEvent => Check(c, s)
  }

  function Started(c: Config, rat: seq<Row>, distance: nat): State {
    State(rat, map[], 0, Some(c.firstClock + distance),
          if c.mode == F4FieldStuck then Some(c.firstClock + 1) else None)
  }

  // ---- What every step keeps ------------------------------------------------------------------

  predicate Invariant(c: Config, s: State) {
    && InRange(c, s)
    && (c.maxFaults != 0 ==> s.faults <= c.maxFaults && (s.attackAt.Some? ==> s.faults < c.maxFaults))
    && (c.mode == F4FieldStuck <==> s.checkAt.Some?)
    && (c.mode != F4FieldStuck ==> s.pins == map[])
  }

  lemma RepinnedInRange(c: Config, s: State)
    requires InRange(c, s) && s.checkAt.Some?
    ensures InRange(c, Check(c, s))
  {
    hide Repinned;
    var r := Repinned(c, s);
    forall t: nat, a: nat | t < c.threads && a < c.archRegs ensures Mapping(c, r[t][a]) {
      assert Mapping(c, s.rat[t][a]);
    }
  }

  lemma ProcessPins(c: Config, s: State, tid: nat, d: Draws)
    requires InRange(c, s) && tid < c.threads && c.mode != F4FieldStuck
    ensures Process(c, s, tid, d).pins == s.pins
  {
    hide Victim, Redirect, SetEntry;
    var v := Victim(c, s.rat[tid], d);
    if v.Some? {
      assert Mapping(c, s.rat[tid][v.value]);
    }
  }

  lemma {:induction false} AttackPins(c: Config, s: State, draws: seq<Draws>, n: nat)
    requires InRange(c, s) && n <= c.threads == |draws| && c.mode != F4FieldStuck
    ensures AttackThreads(c, s, draws, n).pins == s.pins
  {
    hide InRange, Process;
    if n > 0 {
      AttackPins(c, s, draws, n - 1);
      if !draws[n - 1].halted {
        ProcessPins(c, AttackThreads(c, s, draws, n - 1), n - 1, draws[n - 1]);
      }
    }
  }

  /** Ranges, budget and pending events survive every step. */
  lemma StepKeeps(c: Config, s: State, step: Step)
    requires Invariant(c, s) && Enabled(c, s, step)
    ensures Invariant(c, Next(c, s, step))
  {
    hide InRange, AttackThreads, Repinned, SetEntry;
    match step
    case Rename(t, a, p) =>
      SetInRange(c, s, t, a, p);
    case AttackEvent(draws, distance) =>
      if c.mode != F4FieldStuck {
        AttackPins(c, s, draws, c.threads);
      }
    case CheckEvent =>
      RepinnedInRange(c, s);
  }

  // ---- Runs ------------------------------------------------------------------------------------

  /** The states of a run: every step enabled where it is taken. */
  ghost predicate IsRun(c: Config, states: seq<State>, steps: seq<Step>) {
    && |states| == |steps| + 1
    && InRange(c, states[0])
    && (exists rat: seq<Row>, distance: nat :: states[0] == Started(c, rat, distance))
    && (forall i: nat :: i < |steps| ==> Follows(c, states[i], steps[i], states[i + 1]))
  }

  predicate Follows(c: Config, s: State, step: Step, t: State) {
    InRange(c, s) && Enabled(c, s, step) && t == Next(c, s, step)
  }

  /** In every reachable state every entry and pin is a real register, and the budget holds. */
  lemma {:induction false} RunInvariant(c: Config, states: seq<State>, steps: seq<Step>, n: nat)
    requires IsRun(c, states, steps) && n <= |steps|
    ensures |states| == |steps| + 1 && Invariant(c, states[n])
  {
    hide Next, Enabled, InRange;
    if n > 0 {
      RunInvariant(c, states, steps, n - 1);
      assert Follows(c, states[n - 1], steps[n - 1], states[n - 1 + 1]);
      StepKeeps(c, states[n - 1], steps[n - 1]);
    }
  }

  /** Right after a check every pin holds, whatever renames came before it. */
  lemma PinsHold(c: Config, states: seq<State>, steps: seq<Step>, n: nat, k: Key)
    requires IsRun(c, states, steps) && n < |steps| && steps[n] == CheckEvent
    ensures |states| == |steps| + 1
    ensures k in states[n].pins ==>
      && k in states[n + 1].pins && k.tid < |states[n + 1].rat| && k.arch < |states[n + 1].rat[k.tid]|
      && states[n + 1].rat[k.tid][k.arch] == Some(states[n + 1].pins[k])
  {
    hide Repinned;
    RunInvariant(c, states, steps, n);
    assert Follows(c, states[n], steps[n], states[n + 1]);
    if k in states[n].pins {
      var s := states[n];
      assert Repinned(c, s)[k.tid][k.arch] == PinnedEntry(s.pins, k.tid, k.arch, s.rat[k.tid][k.arch]);
    }
  }

  /** A check changes no entry that is not pinned, and checking again changes nothing. */
  lemma CheckIdempotent(c: Config, s: State)
    requires InRange(c, s) && s.checkAt.Some?
    ensures Repinned(c, Check(c, s)) == Repinned(c, s)
  {
    hide Repinned;
    var once := Repinned(c, s);
    var t := Check(c, s);
    var twice := Repinned(c, t);
    forall i: nat | i < c.threads ensures twice[i] == once[i] {
      forall a: nat | a < c.archRegs ensures twice[i][a] == once[i][a] {
        assert once[i][a] == PinnedEntry(s.pins, i, a, s.rat[i][a]);
        assert twice[i][a] == PinnedEntry(s.pins, i, a, once[i][a]);
      }
    }
  }

  /** A whole attack event, over all threads, maps no physical register that was not mapped before. */
  lemma {:induction false} AttackStaysMapped(c: Config, s: State, draws: seq<Draws>, n: nat, t: nat)
    requires InRange(c, s) && n <= c.threads == |draws| && t < c.threads && c.mode != MapBitFlip
    ensures |AttackThreads(c, s, draws, n).rat| == c.threads
    ensures Mentioned(AttackThreads(c, s, draws, n).rat[t]) <= Mentioned(s.rat[t])
    decreases n
  {
    hide Process, Mentioned;
    if n > 0 {
      AttackStaysMapped(c, s, draws, n - 1, t);
      SubstitutionStaysMapped(c, AttackThreads(c, s, draws, n - 1), n - 1, draws[n - 1], t);
    }
  }

  /**
   * A check can map a register again that is no longer in the map: it maps nothing new exactly when
   * every pin of the thread is still mapped.
   */
  lemma CheckMapsIff(c: Config, s: State, t: nat)
    requires InRange(c, s) && s.checkAt.Some? && t < c.threads
    ensures |Check(c, s).rat| == c.threads
    ensures Mentioned(Check(c, s).rat[t]) <= Mentioned(s.rat[t]) <==>
      forall k :: k in s.pins && k.tid == t ==> s.pins[k] in Mentioned(s.rat[t])
  {
    hide Repinned;
    var before, after := s.rat[t], Repinned(c, s)[t];
    forall a: nat | a < c.archRegs ensures after[a] == PinnedEntry(s.pins, t, a, before[a]) {
    }
    if forall k :: k in s.pins && k.tid == t ==> s.pins[k] in Mentioned(before) {
      forall x | x in Mentioned(after) ensures x in Mentioned(before) {
        var i :| 0 <= i < |after| && after[i].Some? && after[i].value == x;
        assert Key(t, i) in s.pins || before[i] == after[i];
      }
    }
    if Mentioned(after) <= Mentioned(before) {
      forall k | k in s.pins && k.tid == t ensures s.pins[k] in Mentioned(before) {
        assert k == Key(t, k.arch) && after[k.arch] == Some(s.pins[k]);
        assert s.pins[k] in Mentioned(after);
      }
    }
  }

  // ---- The pins are the latest landings ----------------------------------------------------------

  function Lookup(pins: map<Key, nat>, k: Key): Option<nat> {
    if k in pins then Some(pins[k]) else None
  }

  /** The physical register an attack event lands on for a register, if it lands there. */
  function LandedOn(c: Config, s: State, draws: seq<Draws>, k: Key): Option<nat>
    requires InRange(c, s) && |draws| == c.threads
  {
    if k.tid >= c.threads || draws[k.tid].halted then None
    else
      match Lands(c, AttackThreads(c, s, draws, k.tid), k.tid, draws[k.tid])
      case None => None
      case Some(l) => if l.arch == k.arch then Some(l.phys) else None
  }

  lemma {:induction false} PinsAfterThreads(c: Config, s: State, draws: seq<Draws>, n: nat, k: Key)
    requires InRange(c, s) && n <= c.threads == |draws| && c.mode == F4FieldStuck
    ensures Lookup(AttackThreads(c, s, draws, n).pins, k)
         == if k.tid < n && LandedOn(c, s, draws, k).Some? then LandedOn(c, s, draws, k) else Lookup(s.pins, k)
    decreases n
  {
    hide InRange, Lands, SetEntry;
    if n > 0 {
      PinsAfterThreads(c, s, draws, n - 1, k);
    }
  }

  /** The latest landing on a register among the first n steps of a run. */
  ghost function LatestPin(c: Config, states: seq<State>, steps: seq<Step>, n: nat, k: Key): Option<nat>
    requires n <= |steps| < |states|
  {
    if n == 0 then None
    else
      var before := LatestPin(c, states, steps, n - 1, k);
      if steps[n - 1].AttackEvent? && Follows(c, states[n - 1], steps[n - 1], states[n]) then
        var l := LandedOn(c, states[n - 1], steps[n - 1].draws, k);
        if l.Some? then l else before
      else before
  }

  lemma PinStep(c: Config, s: State, step: Step, t: State, k: Key)
    requires Follows(c, s, step, t) && c.mode == F4FieldStuck
    ensures Lookup(t.pins, k)
         == if step.AttackEvent? && LandedOn(c, s, step.draws, k).Some? then LandedOn(c, s, step.draws, k)
            else Lookup(s.pins, k)
  {
    hide InRange, AttackThreads, Repinned, SetEntry, Lookup, LandedOn;
    if step.AttackEvent? {
      PinsAfterThreads(c, s, step.draws, c.threads, k);
      NoSuchThread(c, s, step.draws, k);
    }
  }

  lemma NoSuchThread(c: Config, s: State, draws: seq<Draws>, k: Key)
    requires InRange(c, s) && |draws| == c.threads
    ensures k.tid >= c.threads ==> LandedOn(c, s, draws, k) == None
  {
  }

  /** In every pinning run the pins are exactly the latest landed fault of each register. */
  lemma {:induction false} PinsAreLatest(c: Config, states: seq<State>, steps: seq<Step>, n: nat, k: Key)
    requires IsRun(c, states, steps) && n <= |steps| && c.mode == F4FieldStuck
    ensures |states| == |steps| + 1 && Lookup(states[n].pins, k) == LatestPin(c, states, steps, n, k)
    decreases n
  {
    hide InRange, Follows, LandedOn;
    if n > 0 {
      PinsAreLatest(c, states, steps, n - 1, k);
      assert Follows(c, states[n - 1], steps[n - 1], states[n - 1 + 1]);
      PinStep(c, states[n - 1], steps[n - 1], states[n], k);
    }
  }

  // ---- Attacks within one cycle ---------------------------------------------------------------

  predicate AttacksNow(s: State, step: Step, cycle: nat) {
    step.AttackEvent? && s.attackAt == Some(cycle)
  }

  /** Attack events at the given cycle among steps m to n. */
  function AttacksAt(states: seq<State>, steps: seq<Step>, cycle: nat, m: nat, n: nat): nat
    requires m <= n <= |steps| < |states|
    decreases n - m
  {
    if n == m then 0
    else AttacksAt(states, steps, cycle, m, n - 1) + (if AttacksNow(states[n - 1], steps[n - 1], cycle) then 1 else 0)
  }

  lemma AttackTime(c: Config, s: State, step: Step)
    requires InRange(c, s) && Enabled(c, s, step)
    ensures !step.AttackEvent? ==> Next(c, s, step).attackAt == s.attackAt && Next(c, s, step).faults == s.faults
    ensures step.AttackEvent? ==> Next(c, s, step).faults >= s.faults
    ensures step.AttackEvent? && Next(c, s, step).attackAt.Some? ==>
      && Next(c, s, step).attackAt.value >= s.attackAt.value
      && (Next(c, s, step).attackAt == s.attackAt ==> Next(c, s, step).faults > s.faults)
  {
    hide InRange, AttackThreads, Repinned, SetEntry;
  }

  /** What holds along a run about the attacks of one cycle. */
  predicate OneCycle(c: Config, first: State, s: State, attacks: nat, cycle: nat) {
    && s.faults >= first.faults
    && (attacks > 0 && s.attackAt.Some? ==> s.attackAt.value >= cycle)
    && (s.attackAt == Some(cycle) ==> first.faults + attacks <= s.faults)
    && (c.maxFaults != 0 && attacks > 0 ==> first.faults + attacks <= c.maxFaults)
  }

  lemma OneCycleStep(c: Config, first: State, s: State, step: Step, attacks: nat, cycle: nat)
    requires Invariant(c, s) && Enabled(c, s, step) && OneCycle(c, first, s, attacks, cycle)
    ensures OneCycle(c, first, Next(c, s, step),
      attacks + (if AttacksNow(s, step, cycle) then 1 else 0), cycle)
  {
    hide InRange, Next;
    AttackTime(c, s, step);
  }

  lemma {:induction false} OneCycleRun(
    c: Config, states: seq<State>, steps: seq<Step>, cycle: nat, m: nat, n: nat)
    requires IsRun(c, states, steps) && m <= n <= |steps|
    ensures |states| == |steps| + 1
    ensures OneCycle(c, states[m], states[n], AttacksAt(states, steps, cycle, m, n), cycle)
    decreases n - m
  {
    hide Next, Enabled, InRange;
    if m < n {
      OneCycleRun(c, states, steps, cycle, m, n - 1);
      RunInvariant(c, states, steps, n - 1);
      assert Follows(c, states[n - 1], steps[n - 1], states[n - 1 + 1]);
      OneCycleStep(c, states[m], states[n - 1], steps[n - 1], AttacksAt(states, steps, cycle, m, n - 1), cycle);
    }
  }

  /** From any point of any capped run on, one cycle holds at most as many attacks as faults are left. */
  lemma AttacksPerCycleBounded(c: Config, states: seq<State>, steps: seq<Step>, cycle: nat, m: nat, n: nat)
    requires IsRun(c, states, steps) && m <= n <= |steps| && c.maxFaults != 0
    ensures |states| == |steps| + 1 && states[m].faults <= c.maxFaults
    ensures AttacksAt(states, steps, cycle, m, n) <= c.maxFaults - states[m].faults
  {
    hide IsRun, InRange;
    OneCycleRun(c, states, steps, cycle, m, n);
    RunInvariant(c, states, steps, m);
  }

  // ---- Without a cap ------------------------------------------------------------------------------

  const ONE_REGISTER := Config(MapBitFlip, 1, 1, 2, 0, 0, 0, 0)
  const FLIP_LOW := [Draws(false, 0, 1, [])]

  function FlippedTimes(n: nat): State {
    State([[Some(n % 2)]], map[], n, Some(0), None)
  }

  lemma FlipLowBit(n: nat)
    ensures Flipped(n % 2, 1) == (n + 1) % 2
  {
    assert Flipped(0, 1) == 1 && Flipped(1, 1) == 0;
  }

  lemma FlipAgain(n: nat)
    ensures Follows(ONE_REGISTER, FlippedTimes(n), AttackEvent(FLIP_LOW, 0), FlippedTimes(n + 1))
  {
    hide Flipped;
    var c, s := ONE_REGISTER, FlippedTimes(n);
    FlipLowBit(n);
    assert Victim(c, s.rat[0], FLIP_LOW[0]) == Some(0);
    assert Redirect(c, s.rat[0], 0, FLIP_LOW[0]) == Some((n + 1) % 2);
    assert s.rat[0][0 := Some((n + 1) % 2)] == [Some((n + 1) % 2)];
    assert s.rat[0 := [Some((n + 1) % 2)]] == [[Some((n + 1) % 2)]];
    assert AttackThreads(c, s, FLIP_LOW, 0) == s;
    assert AttackThreads(c, s, FLIP_LOW, 1) == Process(c, s, 0, FLIP_LOW[0]);
  }

  lemma {:induction false} AllInOneCycle(states: seq<State>, steps: seq<Step>, n: nat)
    requires n <= |steps| < |states|
    requires forall i: nat :: i < |steps| ==> AttacksNow(states[i], steps[i], 0)
    ensures AttacksAt(states, steps, 0, 0, n) == n
    decreases n
  {
    if n > 0 {
      AllInOneCycle(states, steps, n - 1);
      assert AttacksNow(states[n - 1], steps[n - 1], 0);
    }
  }

  /** Uncapped, one cycle can hold any number of attacks. */
  lemma UncappedUnbounded(n: nat) returns (states: seq<State>, steps: seq<Step>)
    ensures IsRun(ONE_REGISTER, states, steps) && |steps| == n
    ensures AttacksAt(states, steps, 0, 0, n) == n
  {
    hide Next, Enabled;
    states := seq(n + 1, i requires 0 <= i <= n => FlippedTimes(i));
    steps := seq(n, _ => AttackEvent(FLIP_LOW, 0));
    forall i: nat | i < n ensures Follows(ONE_REGISTER, states[i], steps[i], states[i + 1]) {
      FlipAgain(i);
    }
    assert states[0] == Started(ONE_REGISTER, [[Some(0)]], 0);
    AllInOneCycle(states, steps, n);
  }

  // ---- The times of the checks ------------------------------------------------------------------------

  function Checks(steps: seq<Step>, n: nat): nat
    requires n <= |steps|
  {
    if n == 0 then 0 else Checks(steps, n - 1) + (if steps[n - 1].CheckEvent? then 1 else 0)
  }

  function Pow2(n: nat): (p: nat)
    ensures p >= 1
  {
    if n == 0 then 1 else 2 * Pow2(n - 1)
  }

  lemma CheckTimeStep(c: Config, s: State, step: Step)
    requires InRange(c, s) && Enabled(c, s, step)
    ensures step.CheckEvent? ==> s.checkAt.Some? && Next(c, s, step).checkAt == Some(NextCheck(s.checkAt.value))
    ensures !step.CheckEvent? ==> Next(c, s, step).checkAt == s.checkAt
  {
    hide InRange, AttackThreads, Repinned, SetEntry;
  }

  lemma Doubling(i: nat, base: nat)
    ensures Pow2(i + 1) * base == 2 * (Pow2(i) * base)
  {
    assert Pow2(i + 1) == 2 * Pow2(i);
  }

  /**
   * In every pinning run check number i is pending at cycle 2^i * (firstClock + 100001) - 100000:
   * the gaps between checks double instead of staying at 100000 cycles.
   */
  lemma {:induction false} CheckGapsDouble(c: Config, states: seq<State>, steps: seq<Step>, n: nat)
    requires IsRun(c, states, steps) && n <= |steps| && c.mode == F4FieldStuck
    ensures |states| == |steps| + 1
    ensures states[n].checkAt == Some(Pow2(Checks(steps, n)) * (c.firstClock + 100001) - 100000)
    decreases n
  {
    hide Next, Enabled, InRange, Pow2;
    var base := c.firstClock + 100001;
    if n == 0 {
      assert Pow2(0) == 1 by { PowZero(); }
    } else {
      CheckGapsDouble(c, states, steps, n - 1);
      assert Follows(c, states[n - 1], steps[n - 1], states[n - 1 + 1]);
      CheckTimeStep(c, states[n - 1], steps[n - 1]);
      Doubling(Checks(steps, n - 1), base);
    }
  }

  lemma PowZero()
    ensures Pow2(0) == 1
  {
  }
}
