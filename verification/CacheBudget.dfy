/** The cache injector's fault budget against the faults it really injects. */
module CacheBudget {
  import opened Options
  import opened IntArith
  import opened ByteWindow
  import opened Injection
  import opened CacheSpec
  import opened CacheRuns

  function Attacks(steps: seq<Step>, n: nat): nat
    requires n <= |steps|
  {
    if n == 0 then 0 else Attacks(steps, n - 1) + (if steps[n - 1].AttackEvent? then 1 else 0)
  }

  function Nonzero(masks: seq<bv8>, n: nat): (r: nat)
    requires n <= |masks|
    ensures r <= n
  {
    if n == 0 then 0 else Nonzero(masks, n - 1) + (if masks[n - 1] != 0 then 1 else 0)
  }

  /** What the strikes of one attack add to the two counters. */
  lemma {:induction false} StrikesCharge(c: Config, s: State, b: nat, partner: Option<nat>, d: Draws, n: nat)
    requires Shape(c, s) && b < |s.blocks| && (partner.Some? ==> partner.value < |s.blocks|)
    requires DrawsOk(c, d) && n <= c.corruptionSize
    ensures var r, k := Strikes(c, s, b, partner, d, n), Nonzero(d.masks, n);
      && r.count == s.count + (if c.target == Data then 0 else k)
      && r.stats.injected == s.stats.injected + k + (if c.target == Data && partner.Some? then k else 0)
    decreases n
  {
    hide Offset, SetByte, Record, ApplyByte, Judge, FieldBytes;
    if n > 0 {
      StrikesCharge(c, s, b, partner, d, n - 1);
    }
  }

  /** How many copies of each struck byte's fault an attack injects: none, one, or the pair. */
  function Copies(c: Config, blocks: seq<Block>, d: Draws): (n: nat)
    requires Legal(c)
    ensures n <= MaxCopies(c, |blocks|)
  {
    var b := Primary(c, blocks, d);
    if b.None? then 0
    else if c.target == Data && Partner(c, blocks, b.value).Some? then 2
    else 1
  }

  function MaxCopies(c: Config, slots: nat): nat {
    if slots == 0 then 0 else if c.target == Data && c.paired && slots > 1 then 2 else 1
  }

  /**
   * The budget charged by one attack and the faults it injects.  The corruption size is charged
   * even if nothing was struck, a pair is charged as one byte, and each byte struck in an
   * instruction field is charged once more.
   */
  lemma AttackCharge(c: Config, s: State, d: Draws)
    requires Shape(c, s) && DrawsOk(c, d) && s.attackAt.Some?
    ensures var r, k, n := Attack(c, s, d), Nonzero(d.masks, c.corruptionSize), Copies(c, s.blocks, d);
      && r.count == s.count + c.corruptionSize + (if c.target == Data then 0 else n * k)
      && r.stats.injected == s.stats.injected + n * k
      && (n == 0 ==> r.stats == s.stats && r.blocks == s.blocks)
  {
    hide Strikes, Primary, Partner, Interval, Nonzero;
    var b := Primary(c, s.blocks, d);
    if b.Some? {
      StrikesCharge(c, s, b.value, Partner(c, s.blocks, b.value), d, c.corruptionSize);
    }
  }

  // ---- What every run keeps ------------------------------------------------------------------------

  /** Attack number k can happen as far as the window goes: intervals can be as short as ratio % 2. */
  predicate InTime(c: Config, k: nat) {
    k <= 1 || c.lastTick == 0 || c.firstTick + (k - 1) * (c.ratio % 2) <= c.lastTick
  }

  /** Attack number k can happen as far as the cap goes, when every attack charges the corruption size alone. */
  predicate InBudget(c: Config, k: nat) {
    k <= 1 || c.maxFaults == 0 || (k - 1) * c.corruptionSize < c.maxFaults
  }

  predicate DataWithin(c: Config, slots: nat, s: State, k: nat) {
    && s.count == k * c.corruptionSize
    && s.stats.injected <= k * (MaxCopies(c, slots) * c.corruptionSize)
  }

  predicate FieldWithin(c: Config, s: State, k: nat) {
    && s.count == k * c.corruptionSize + s.stats.injected
    && (k == 0 ==> s.stats.injected == 0)
    && (k == 1 ==> s.stats.injected <= c.corruptionSize)
    && (k > 1 && c.maxFaults != 0 ==> s.stats.injected < c.maxFaults)
  }

  /** What k attacks can have done. */
  predicate Within(c: Config, slots: nat, s: State, k: nat) {
    && |s.blocks| == slots
    && (slots == 0 ==> s.stats.injected == 0)
    && (if c.target == Data then DataWithin(c, slots, s, k) else FieldWithin(c, s, k))
    && InTime(c, k) && InBudget(c, k)
  }

  /** And when the next one can come. */
  predicate Pending(c: Config, s: State, k: nat) {
    s.attackAt.Some? ==>
      && s.attackAt.value >= c.firstTick + k * (c.ratio % 2)
      && (k > 0 && c.lastTick != 0 ==> s.attackAt.value <= c.lastTick)
      && (c.maxFaults != 0 ==> s.count < c.maxFaults)
  }

  lemma QuietStep(c: Config, s: State, step: Step)
    requires Shape(c, s) && Enabled(c, s, step) && !step.AttackEvent?
    ensures var t := Next(c, s, step);
      t.count == s.count && t.stats == s.stats && t.attackAt == s.attackAt && |t.blocks| == |s.blocks|
  {
    hide Rechecked;
  }

  lemma AttackTiming(c: Config, s: State, d: Draws)
    requires Shape(c, s) && DrawsOk(c, d) && s.attackAt.Some?
    ensures var t := Attack(c, s, d);
      t.attackAt.Some? ==>
        && t.attackAt.value >= s.attackAt.value + c.ratio % 2
        && (c.lastTick != 0 ==> t.attackAt.value <= c.lastTick)
        && (c.maxFaults != 0 ==> t.count < c.maxFaults)
  {
    hide Struck, Interval;
    var _ := LeastInterval(c.ratio);
  }

  lemma CopyBound(n: nat, m: nat, k: nat, size: nat)
    requires n <= m && k <= size
    ensures n * k <= m * size
  {
    MulOrder(n, m, k);
    MulOrder(k, size, m);
  }

  lemma AttackWithin(c: Config, slots: nat, s: State, d: Draws, k: nat)
    requires Shape(c, s) && DrawsOk(c, d) && s.attackAt.Some? && Within(c, slots, s, k) && Pending(c, s, k)
    ensures Within(c, slots, Attack(c, s, d), k + 1) && Pending(c, Attack(c, s, d), k + 1)
  {
    hide Attack, Copies, MaxCopies, Nonzero;
    AttackCharge(c, s, d);
    AttackTiming(c, s, d);
    var n, j := Copies(c, s.blocks, d), Nonzero(d.masks, c.corruptionSize);
    CopyBound(n, MaxCopies(c, slots), j, c.corruptionSize);
    NextMultiple(k, c.corruptionSize);
    NextMultiple(k, MaxCopies(c, slots) * c.corruptionSize);
    NextMultiple(k, c.ratio % 2);
    NoCopies(c, slots);
    if k > 0 {
      MulOrder(1, k, c.corruptionSize);
    }
  }

  lemma NoCopies(c: Config, slots: nat)
    ensures slots == 0 ==> MaxCopies(c, slots) == 0
    ensures c.target != Data ==> MaxCopies(c, slots) <= 1
  {
  }

  /**
   * In every run of every configuration, after k attacks: the count, the faults injected, and how
   * late and how far into the budget the last attack can have come.
   */
  lemma {:induction false} RunWithin(c: Config, states: seq<State>, steps: seq<Step>, n: nat)
    requires IsRun(c, states, steps) && n <= |steps|
    ensures |states| == |steps| + 1
    ensures Within(c, |states[0].blocks|, states[n], Attacks(steps, n)) && Pending(c, states[n], Attacks(steps, n))
    decreases n
  {
    hide Next, Enabled, Shape, Within, Pending;
    if n == 0 {
      StartWithin(c, states, steps);
    } else {
      RunWithin(c, states, steps, n - 1);
      var s, step := states[n - 1], steps[n - 1];
      assert Follows(c, s, step, states[n - 1 + 1]);
      StepWithin(c, |states[0].blocks|, s, step, Attacks(steps, n - 1));
    }
  }

  lemma StartWithin(c: Config, states: seq<State>, steps: seq<Step>)
    requires IsRun(c, states, steps)
    ensures Within(c, |states[0].blocks|, states[0], 0) && Pending(c, states[0], 0)
  {
    hide Follows, Shape;
  }

  lemma StepWithin(c: Config, slots: nat, s: State, step: Step, k: nat)
    requires Shape(c, s) && Enabled(c, s, step) && Within(c, slots, s, k) && Pending(c, s, k)
    ensures var more := k + (if step.AttackEvent? then 1 else 0);
      Within(c, slots, Next(c, s, step), more) && Pending(c, Next(c, s, step), more)
  {
    hide Attack, Rechecked;
    if step.AttackEvent? {
      AttackWithin(c, slots, s, step.draws, k);
    } else {
      QuietStep(c, s, step);
    }
  }
}
