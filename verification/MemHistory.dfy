/** The memory injector's schedule and outcome counters over whole runs, read off the steps. */
module MemHistory {
  import opened Options
  import opened ByteWindow
  import opened Bits
  import opened IntArith
  import opened Injection
  import opened MemSpec

  /** The clamped window, byte by byte: which addresses attacks may draw. */
  lemma WindowIff(addrStart: nat, addrEnd: nat, memStart: nat, memSize: nat, a: nat)
    requires memSize > 0
    ensures var w := Clamp(addrStart, addrEnd, memStart, memSize);
      w.first <= a <= w.last <==>
        && memStart <= a < memStart + memSize && addrStart <= a
        && (a <= addrEnd || addrEnd < addrStart || addrEnd < memStart || addrEnd == 0)
  {
  }

  // ---- When attacks and checks happen ------------------------------------------------------------

  lemma Unmoved(c: Config, states: seq<State>, steps: seq<Step>, n: nat)
    requires IsRun(c, states, steps) && n <= |steps| && NoAttack(steps, 0, n)
    ensures |states| == |steps| + 1 && states[n].attackAt == states[0].attackAt
  {
    hide IsRun;
    RunPrefix(c, states, steps, 0);
    AttackTimeHeld(c, states, steps, 0, n);
  }

  /** The first attack: one delay, a 32-bit product, after the first tick. */
  lemma FirstAttack(c: Config, states: seq<State>, steps: seq<Step>, n: nat) returns (distance: nat)
    requires IsRun(c, states, steps) && n <= |steps| && NoAttack(steps, 0, n)
    ensures |states| == |steps| + 1
    ensures states[n].attackAt == Some(c.firstTick + (distance * c.ratio) % 0x1_0000_0000)
  {
    hide Next, Enabled;
    var mem: seq<bv8>, d: nat :| |mem| == c.memSize && states[0] == Initial(c, mem, d);
    distance := d;
    Unmoved(c, states, steps, n);
  }

  /** No attack is pending before the first tick, in any state of any run. */
  lemma {:induction false} NeverEarly(c: Config, states: seq<State>, steps: seq<Step>, n: nat)
    requires IsRun(c, states, steps) && n <= |steps|
    ensures |states| == |steps| + 1 && (states[n].attackAt.Some? ==> states[n].attackAt.value >= c.firstTick)
  {
    hide Next, Enabled, Interval, IsRun;
    if n == 0 {
      var _ := FirstAttack(c, states, steps, 0);
    } else {
      NeverEarly(c, states, steps, n - 1);
      RunAt(c, states, steps, n - 1);
      AttackEnabled(c, states[n - 1], steps[n - 1]);
      AttackTimeAfter(c, states[n - 1], steps[n - 1]);
    }
  }

  lemma AttackEnabled(c: Config, s: State, step: Step)
    requires Enabled(c, s, step)
    ensures step.Attack? ==> s.attackAt.Some?
  {
  }

  /**
   * The last tick binds every attack but the first, whose delay is not held against it: an
   * attack after a nonzero last tick is the first of its run.
   */
  lemma {:induction false} LateIsFirst(c: Config, states: seq<State>, steps: seq<Step>, n: nat)
    requires IsRun(c, states, steps) && n <= |steps| && c.lastTick != 0
    ensures |states| == |steps| + 1
    ensures states[n].attackAt.Some? && states[n].attackAt.value > c.lastTick ==> NoAttack(steps, 0, n)
  {
    hide Next, Enabled, Interval, IsRun;
    RunPrefix(c, states, steps, 0);
    if n > 0 {
      LateIsFirst(c, states, steps, n - 1);
      RunAt(c, states, steps, n - 1);
      AttackTimeAfter(c, states[n - 1], steps[n - 1]);
    }
  }

  function Checks(steps: seq<Step>, n: nat): nat
    requires n <= |steps|
  {
    if n == 0 then 0 else Checks(steps, n - 1) + if steps[n - 1] == Check then 1 else 0
  }

  lemma CheckTimeAfter(c: Config, s: State, step: Step)
    requires |s.mem| == c.memSize && Enabled(c, s, step)
    ensures Next(c, s, step).checkAt
         == if step == Check then Some(s.checkAt.value + c.period) else s.checkAt
  {
    hide Stored, Target, Reapply, Interval, Booked;
  }

  /** Checks come one period apart, the first of them one period after the first tick. */
  lemma {:induction false} CheckTimes(c: Config, states: seq<State>, steps: seq<Step>, n: nat)
    requires IsRun(c, states, steps) && n <= |steps|
    ensures |states| == |steps| + 1
    ensures states[n].checkAt == Some(c.firstTick + c.period * (1 + Checks(steps, n)))
  {
    hide Next, Enabled;
    if n > 0 {
      CheckTimes(c, states, steps, n - 1);
      RunAt(c, states, steps, n - 1);
      CheckTimeAfter(c, states[n - 1], steps[n - 1]);
      var k := 1 + Checks(steps, n - 1);
      assert c.period * (k + 1) == c.period * k + c.period;
    }
  }

  // ---- What the counters count ---------------------------------------------------------------------

  datatype Outcome = Corrected | Contained | Latent | Missed

  /** The outcome of a fault under a protection model, by the number of bits in its mask. */
  function Verdict(p: Protection, mask: bv8): Option<Outcome> {
    if p == Unprotected then None
    else if BitsIn(mask) == 1 then Some(if p == Secded then Corrected else Missed)
    else if BitsIn(mask) == 2 then Some(Contained)
    else Some(Latent)
  }

  predicate Landed(c: Config, step: Step) {
    step.Attack? && InMemory(c, Target(c, step.draws))
  }

  predicate Ends(c: Config, step: Step, o: Outcome) {
    Landed(c, step) && Verdict(c.protection, step.draws.mask) == Some(o)
  }

  /** The attacks of a run that landed with an outcome. */
  function WithOutcome(c: Config, steps: seq<Step>, o: Outcome): set<nat> {
    set k: nat | k < |steps| && Ends(c, steps[k], o)
  }

  function Attempts(c: Config, steps: seq<Step>): set<nat> {
    set k: nat | k < |steps| && Landed(c, steps[k])
  }

  lemma BookedVerdict(p: Protection, e: Ecc, mask: bv8)
    ensures Booked(p, e, mask) == match Verdict(p, mask)
      case None => e
      case Some(Corrected) => e.(corrected := e.corrected + 1)
      case Some(Contained) => e.(contained := e.contained + 1)
      case Some(Latent) => e.(latent := e.latent + 1)
      case Some(Missed) => e.(missed := e.missed + 1)
  {
    hide PopCount, BitsIn;
    ByteCount(mask);
  }

  lemma CountedStep(c: Config, s: State, step: Step)
    requires |s.mem| == c.memSize && Enabled(c, s, step)
    ensures var r := Next(c, s, step);
      if Landed(c, step) then r.count == s.count + 1 && r.ecc == Booked(c.protection, s.ecc, step.draws.mask)
      else r.count == s.count && r.ecc == s.ecc
  {
    hide Stored, Target, Reapply, Interval, Booked;
  }

  lemma OutcomeMember(c: Config, steps: seq<Step>, o: Outcome, k: nat)
    ensures k in WithOutcome(c, steps, o) <==> k < |steps| && Ends(c, steps[k], o)
  {
    hide Ends;
  }

  lemma OutcomeStep(c: Config, steps: seq<Step>, o: Outcome)
    requires steps != []
    ensures var n := |steps| - 1;
      |WithOutcome(c, steps, o)| == |WithOutcome(c, steps[..n], o)| + if Ends(c, steps[n], o) then 1 else 0
  {
    hide *;
    var n := |steps| - 1;
    forall k: nat
      ensures k in WithOutcome(c, steps, o) <==> k in WithOutcome(c, steps[..n], o) || (Ends(c, steps[n], o) && k == n)
      ensures k in WithOutcome(c, steps[..n], o) ==> k < n
    {
      OutcomeMember(c, steps, o, k);
      OutcomeMember(c, steps[..n], o, k);
    }
    OneMore(WithOutcome(c, steps, o), WithOutcome(c, steps[..n], o), n, Ends(c, steps[n], o));
  }

  lemma AttemptStep(c: Config, steps: seq<Step>)
    requires steps != []
    ensures var n := |steps| - 1;
      |Attempts(c, steps)| == |Attempts(c, steps[..n])| + if Landed(c, steps[n]) then 1 else 0
  {
    hide Landed;
    var n := |steps| - 1;
    OneMore(Attempts(c, steps), Attempts(c, steps[..n]), n, Landed(c, steps[n]));
  }

  /** In every run each counter is the number of landed attacks with that outcome. */
  lemma {:induction false} CountersCount(c: Config, states: seq<State>, steps: seq<Step>)
    requires IsRun(c, states, steps)
    ensures |states| == |steps| + 1
    ensures var s := states[|steps|];
      && s.count == |Attempts(c, steps)|
      && s.ecc == Ecc(|WithOutcome(c, steps, Corrected)|, |WithOutcome(c, steps, Contained)|,
                      |WithOutcome(c, steps, Latent)|, |WithOutcome(c, steps, Missed)|)
    decreases |steps|
  {
    hide IsRun, Next, Enabled, Landed, Verdict, WithOutcome, Attempts, Booked;
    if steps == [] {
      NothingYet(c, states, steps);
    } else {
      var n: nat := |steps| - 1;
      RunStep(c, states, steps);
      CountersCount(c, states[..n + 1], steps[..n]);
      CountedStep(c, states[n], steps[n]);
      AttemptStep(c, steps);
      OutcomeStep(c, steps, Corrected);
      OutcomeStep(c, steps, Contained);
      OutcomeStep(c, steps, Latent);
      OutcomeStep(c, steps, Missed);
      if Landed(c, steps[n]) {
        LandedIsAttack(c, steps[n]);
        BookedVerdict(c.protection, states[n].ecc, steps[n].draws.mask);
      }
    }
  }

  lemma LandedIsAttack(c: Config, step: Step)
    ensures Landed(c, step) ==> step.Attack?
  {
  }

  lemma NothingYet(c: Config, states: seq<State>, steps: seq<Step>)
    requires IsRun(c, states, steps) && steps == []
    ensures |states| == 1 && states[0].count == 0 && states[0].ecc == Ecc(0, 0, 0, 0)
    ensures |Attempts(c, steps)| == 0 && forall o :: |WithOutcome(c, steps, o)| == 0
  {
    hide Next, Enabled;
    assert Attempts(c, steps) == {};
    forall o ensures |WithOutcome(c, steps, o)| == 0 {
      assert WithOutcome(c, steps, o) == {};
    }
  }
}
