/**
 * The memory injector as a state machine: attacks, periodic re-application of stuck-at
 * faults, and program writes, interleaved in any order.
 */
module MemSpec {
  import opened Options
  import opened ByteWindow
  import opened Injection

  datatype Protection = Unprotected | Secded | EccLogicFault

  // ---- The target window ------------------------------------------------------------------

  datatype Range = Range(first: nat, last: nat)

  /** The constructor's clamping of the configured address range; both ends inclusive. */
  function Clamp(addrStart: nat, addrEnd: nat, memStart: nat, memSize: nat): Range
    requires memSize > 0
  {
    var first := if addrStart < memStart then memStart else addrStart;
    var lastByte := memStart + memSize - 1;
    var chosen := if addrEnd == 0 || addrEnd < first then lastByte else addrEnd;
    Range(first, if chosen > lastByte then lastByte else chosen)
  }

  /** The clamped window is a nonempty part of memory exactly when the range starts before its end. */
  lemma WindowInsideMemoryIff(addrStart: nat, addrEnd: nat, memStart: nat, memSize: nat)
    requires memSize > 0
    ensures var w := Clamp(addrStart, addrEnd, memStart, memSize);
      memStart <= w.first <= w.last < memStart + memSize <==> addrStart < memStart + memSize
  {
  }

  /** A range that already lies in memory is kept as it is, single bytes included. */
  lemma WindowKept(addrStart: nat, addrEnd: nat, memStart: nat, memSize: nat)
    requires 0 < memSize && memStart <= addrStart <= addrEnd < memStart + memSize && addrEnd > 0
    ensures Clamp(addrStart, addrEnd, memStart, memSize) == Range(addrStart, addrEnd)
  {
  }

  // ---- Configuration, state, steps -----------------------------------------------------------

  datatype Config = Config(
    memStart: nat,
    memSize: nat,
    window: Range,
    redirect: Option<bv64>,
    protection: Protection,
    maxFaults: nat,
    ratio: nat,
    firstTick: nat,
    lastTick: nat,
    period: nat)

  predicate Legal(c: Config) {
    && 0 < c.memSize && c.memStart + c.memSize <= 0x1_0000_0000_0000_0000
    && c.memStart <= c.window.first <= c.window.last < c.memStart + c.memSize
    && 0 < c.ratio < 0x8000_0000
  }

  datatype State = State(
    mem: seq<bv8>,
    stuck: map<nat, Stuck>,
    ecc: Ecc,
    count: nat,
    attackAt: Option<nat>,
    checkAt: Option<nat>)

  /** One attack's random choices. */
  datatype Draws = Draws(addr: nat, mask: bv8, fault: Fault, distance: nat)

  datatype Step = Write(addr: nat, value: bv8) | Attack(draws: Draws) | Check

  predicate InMemory(c: Config, a: nat) {
    c.memStart <= a < c.memStart + c.memSize
  }

  predicate DrawsOk(c: Config, d: Draws) {
    c.window.first <= d.addr <= c.window.last && d.distance < 0x1_0000_0000
  }

  function Redirected(a: nat, mask: bv64): nat
    requires a < 0x1_0000_0000_0000_0000
  {
    ((a as bv64) ^ mask) as nat
  }

  function Target(c: Config, d: Draws): nat {
    if c.redirect.Some? && d.addr < 0x1_0000_0000_0000_0000 then Redirected(d.addr, c.redirect.value) else d.addr
  }

  /** The outcome counters of the protection model. */
  datatype Ecc = Ecc(corrected: nat, contained: nat, latent: nat, missed: nat)

  predicate Corrects(p: Protection, mask: bv8) {
    p == Secded && PopCount(mask as bv64) == 1
  }

  function Booked(p: Protection, e: Ecc, mask: bv8): Ecc {
    var bits := PopCount(mask as bv64);
    if p == Unprotected then e
    else if p == EccLogicFault && bits == 1 then e.(missed := e.missed + 1)
    else if bits == 1 then e.(corrected := e.corrected + 1)
    else if bits == 2 then e.(contained := e.contained + 1)
    else e.(latent := e.latent + 1)
  }

  /** The ECC proxy: only SECDED reverts, and only a single-bit fault. */
  function Stored(p: Protection, before: bv8, d: Draws): bv8 {
    if Corrects(p, d.mask) then before else ApplyByte(d.fault, before, d.mask)
  }

  function ReapplyByte(stuck: map<nat, Stuck>, a: nat, b: bv8): bv8 {
    if a in stuck then ApplyByte(stuck[a].fault, b, stuck[a].mask) else b
  }

  lemma ReapplyUnfold(stuck: map<nat, Stuck>, a: nat, v: bv8)
    ensures ReapplyByte(stuck, a, v) == if a in stuck then ApplyByte(stuck[a].fault, v, stuck[a].mask) else v
  {
  }

  /** Re-apply every recorded stuck-at to its byte. */
  function Reapply(c: Config, mem: seq<bv8>, stuck: map<nat, Stuck>): (r: seq<bv8>)
    ensures |r| == |mem|
    ensures forall i: nat :: i < |mem| ==> r[i] == ReapplyByte(stuck, c.memStart + i, mem[i])
  {
    seq(|mem|, i requires 0 <= i < |mem| => ReapplyByte(stuck, c.memStart + i, mem[i]))
  }

  function Initial(c: Config, mem: seq<bv8>, distance: nat): State {
    State(mem, map[], Ecc(0, 0, 0, 0), 0,
          Some(c.firstTick + (distance * c.ratio) % 0x1_0000_0000), Some(c.firstTick + c.period))
  }

  predicate Enabled(c: Config, s: State, step: Step) {
    match step
    case Write(a, _) => InMemory(c, a)
    case Attack(d) => s.attackAt.Some? && Legal(c) && DrawsOk(c, d)
    case Check => s.checkAt.Some?
  }

  function AttackOnce(c: Config, s: State, d: Draws): State
    requires Legal(c) && |s.mem| == c.memSize && s.attackAt.Some? && DrawsOk(c, d)
  {
    var a := Target(c, d);
    if InMemory(c, a) then
      State(s.mem[a - c.memStart := Stored(c.protection, s.mem[a - c.memStart], d)],
            if d.fault == BitFlip then s.stuck else s.stuck[a := Stuck(d.fault, d.mask)],
            Booked(c.protection, s.ecc, d.mask),
            s.count + 1,
            Rescheduled(c.maxFaults, c.lastTick, c.ratio, s.count + 1, s.attackAt.value, d.distance),
            s.checkAt)
    else
      s.(attackAt := Rescheduled(c.maxFaults, c.lastTick, c.ratio, s.count, s.attackAt.value, d.distance))
  }

  function CheckOnce(c: Config, s: State): State
    requires s.checkAt.Some?
  {
    s.(mem := Reapply(c, s.mem, s.stuck), checkAt := Some(s.checkAt.value + c.period))
  }

  function Next(c: Config, s: State, step: Step): (r: State)
    requires |s.mem| == c.memSize && Enabled(c, s, step)
    ensures |r.mem| == c.memSize
  {
    match step
    case Write(a, v) => s.(mem := s.mem[a - c.memStart := v])
    case Attack(d) => AttackOnce(c, s, d)
    case Check => CheckOnce(c, s)
  }

  /** The states of a run: every step enabled where it is taken. */
  ghost predicate IsRun(c: Config, states: seq<State>, steps: seq<Step>) {
    && Legal(c)
    && |states| == |steps| + 1
    && (exists mem: seq<bv8>, distance: nat :: |mem| == c.memSize && states[0] == Initial(c, mem, distance))
    && (forall i: nat :: i < |steps| ==>
      |states[i].mem| == c.memSize && Enabled(c, states[i], steps[i]) && states[i + 1] == Next(c, states[i], steps[i]))
  }

  // ---- What every step keeps -------------------------------------------------------------------

  /** Under a protection model every fault is booked under one outcome, and only under those the model has. */
  predicate Accounted(c: Config, s: State) {
    match c.protection
    case Unprotected => s.ecc == Ecc(0, 0, 0, 0)
    case Secded => s.ecc.missed == 0 && s.count == s.ecc.corrected + s.ecc.contained + s.ecc.latent
    case EccLogicFault => s.ecc.corrected == 0 && s.count == s.ecc.missed + s.ecc.contained + s.ecc.latent
  }

  predicate Invariant(c: Config, s: State) {
    && |s.mem| == c.memSize
    && s.checkAt.Some?
    && Accounted(c, s)
    && (c.maxFaults != 0 ==> s.count <= c.maxFaults && (s.attackAt.Some? ==> s.count < c.maxFaults))
    && (forall a :: a in s.stuck ==> InMemory(c, a) && s.stuck[a].fault != BitFlip)
  }

  lemma StepKeeps(c: Config, s: State, step: Step)
    requires Invariant(c, s) && Enabled(c, s, step)
    ensures Invariant(c, Next(c, s, step))
  {
    hide Stored, Target, Reapply, Interval, PopCount;
  }

  lemma RunStep(c: Config, states: seq<State>, steps: seq<Step>)
    requires IsRun(c, states, steps) && steps != []
    ensures IsRun(c, states[..|steps|], steps[..|steps| - 1])
    ensures |states| == |steps| + 1
    ensures |states[|steps| - 1].mem| == c.memSize && Enabled(c, states[|steps| - 1], steps[|steps| - 1])
    ensures states[|steps|] == Next(c, states[|steps| - 1], steps[|steps| - 1])
  {
    hide Next, Enabled, Initial;
    var front, less := states[..|steps|], steps[..|steps| - 1];
    var mem: seq<bv8>, distance: nat :| |mem| == c.memSize && states[0] == Initial(c, mem, distance);
    assert front[0] == Initial(c, mem, distance);
    var n: nat := |steps| - 1;
    assert |states[n].mem| == c.memSize && Enabled(c, states[n], steps[n]);
    assert states[n + 1] == Next(c, states[n], steps[n]);
  }

  /**
   * In every state of every run: the budget holds, a pending attack has budget left, a check
   * is pending, and only stuck-at faults on memory addresses are recorded.
   */
  lemma {:induction false} RunInvariant(c: Config, states: seq<State>, steps: seq<Step>)
    requires IsRun(c, states, steps)
    ensures |states| == |steps| + 1 && Invariant(c, states[|steps|])
    decreases |steps|
  {
    hide IsRun, Next, Enabled;
    if steps == [] {
      RunStart(c, states);
    } else {
      var n: nat := |steps| - 1;
      RunStep(c, states, steps);
      RunInvariant(c, states[..n + 1], steps[..n]);
      StepKeeps(c, states[n], steps[n]);
    }
  }

  lemma RunStart(c: Config, states: seq<State>)
    requires IsRun(c, states, [])
    ensures |states| == 1 && Invariant(c, states[0])
    ensures states[0].stuck == map[] && states[0].count == 0
  {
  }

  // ---- Attack times --------------------------------------------------------------------------

  ghost predicate NoAttack(steps: seq<Step>, i: nat, j: nat) {
    forall k: nat :: i <= k < j && k < |steps| ==> !steps[k].Attack?
  }

  lemma RunPrefix(c: Config, states: seq<State>, steps: seq<Step>, n: nat)
    requires IsRun(c, states, steps) && n <= |steps|
    ensures |states| == |steps| + 1 && IsRun(c, states[..n + 1], steps[..n])
  {
    hide Next, Enabled, Initial;
    var mem: seq<bv8>, distance: nat :| |mem| == c.memSize && states[0] == Initial(c, mem, distance);
    assert states[..n + 1][0] == Initial(c, mem, distance);
  }

  lemma RunAt(c: Config, states: seq<State>, steps: seq<Step>, i: nat)
    requires IsRun(c, states, steps) && i < |steps|
    ensures |states| == |steps| + 1 && Legal(c)
    ensures |states[i].mem| == c.memSize && Enabled(c, states[i], steps[i])
    ensures states[i + 1] == Next(c, states[i], steps[i])
  {
    hide Next, Enabled, Initial;
    assert |states[i].mem| == c.memSize;
  }

  lemma AttackTimeAfter(c: Config, s: State, step: Step)
    requires |s.mem| == c.memSize && Enabled(c, s, step)
    ensures !step.Attack? ==> Next(c, s, step).attackAt == s.attackAt
    ensures step.Attack? && Next(c, s, step).attackAt.Some? ==>
      var next := Next(c, s, step).attackAt.value;
      next == s.attackAt.value + Interval(c.ratio, step.draws.distance) && (c.lastTick == 0 || next <= c.lastTick)
  {
    hide Stored, Target, Reapply, Interval;
  }

  /** Between attacks the pending attack time does not move. */
  lemma {:induction false} AttackTimeHeld(c: Config, states: seq<State>, steps: seq<Step>, i: nat, j: nat)
    requires IsRun(c, states, steps) && i <= j <= |steps| && NoAttack(steps, i, j)
    ensures |states| == |steps| + 1 && states[j].attackAt == states[i].attackAt
    decreases j - i
  {
    hide IsRun, Next, Enabled;
    RunPrefix(c, states, steps, 0);
    if i < j {
      RunAt(c, states, steps, i);
      AttackTimeAfter(c, states[i], steps[i]);
      AttackTimeHeld(c, states, steps, i + 1, j);
    }
  }

  /**
   * Consecutive attacks i and j of any run: the second comes one sampled interval after the
   * first, and not after a nonzero last tick.
   */
  lemma NextAttackTime(c: Config, states: seq<State>, steps: seq<Step>, i: nat, j: nat)
    requires IsRun(c, states, steps) && i < j < |steps|
    requires steps[i].Attack? && steps[j].Attack? && NoAttack(steps, i + 1, j)
    ensures |states| == |steps| + 1 && states[i].attackAt.Some? && states[j].attackAt.Some?
    ensures states[j].attackAt.value == states[i].attackAt.value + Interval(c.ratio, steps[i].draws.distance)
    ensures c.lastTick == 0 || states[j].attackAt.value <= c.lastTick
  {
    hide IsRun, Next, Interval;
    RunAt(c, states, steps, i);
    RunAt(c, states, steps, j);
    AttackTimeAfter(c, states[i], steps[i]);
    AttackTimeHeld(c, states, steps, i + 1, j);
  }

  /** Over a whole run whose distances do not wrap, consecutive attacks are a clock ratio apart. */
  lemma AttacksSpaced(c: Config, states: seq<State>, steps: seq<Step>, i: nat, j: nat)
    requires IsRun(c, states, steps) && i < j < |steps|
    requires steps[i].Attack? && steps[j].Attack? && NoAttack(steps, i + 1, j)
    requires steps[i].draws.distance * c.ratio < 0x1_0000_0000
    ensures |states| == |steps| + 1 && states[i].attackAt.Some? && states[j].attackAt.Some?
    ensures states[j].attackAt.value >= states[i].attackAt.value + c.ratio
  {
    hide IsRun, Interval, NoAttack;
    RunAt(c, states, steps, i);
    NextAttackTime(c, states, steps, i, j);
    NoWrap(c.ratio, steps[i].draws.distance);
  }
}
