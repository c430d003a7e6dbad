/** Stuck-at persistence of the memory injector, over whole runs. */
module MemStuck {
  import opened Options
  import opened ByteWindow
  import opened Injection
  import opened MemSpec

  /** The stuck-at an attack records, if any. */
  function RecordedBy(c: Config, step: Step, a: nat): Option<Stuck> {
    if step.Attack? && step.draws.fault != BitFlip && Target(c, step.draws) == a && InMemory(c, a)
    then Some(Stuck(step.draws.fault, step.draws.mask))
    else None
  }

  /** The latest stuck-at a history of steps left on an address. */
  function Latest(c: Config, steps: seq<Step>, a: nat): Option<Stuck> {
    if steps == [] then None
    else if RecordedBy(c, steps[|steps| - 1], a).Some? then RecordedBy(c, steps[|steps| - 1], a)
    else Latest(c, steps[..|steps| - 1], a)
  }

  function Lookup(stuck: map<nat, Stuck>, a: nat): Option<Stuck> {
    if a in stuck then Some(stuck[a]) else None
  }

  lemma RecordStep(c: Config, s: State, step: Step, a: nat)
    requires |s.mem| == c.memSize && Enabled(c, s, step)
    ensures Lookup(Next(c, s, step).stuck, a)
         == if RecordedBy(c, step, a).Some? then RecordedBy(c, step, a) else Lookup(s.stuck, a)
  {
    hide Stored, Target, Reapply, Interval;
  }

  /** In every run the fault table holds exactly the latest stuck-at of each address. */
  lemma {:induction false} TableIsLatest(c: Config, states: seq<State>, steps: seq<Step>, a: nat)
    requires IsRun(c, states, steps)
    ensures |states| == |steps| + 1 && Lookup(states[|steps|].stuck, a) == Latest(c, steps, a)
    decreases |steps|
  {
    hide IsRun, Next, Enabled, RecordedBy;
    if steps == [] {
      RunStart(c, states);
    } else {
      var n: nat := |steps| - 1;
      RunStep(c, states, steps);
      TableIsLatest(c, states[..n + 1], steps[..n], a);
      RecordStep(c, states[n], steps[n], a);
    }
  }

  // ---- Re-application -------------------------------------------------------------------------------

  /** Right after a check, in any run: recorded addresses show their latest stuck-at, all others are untouched. */
  lemma CheckRestores(c: Config, states: seq<State>, steps: seq<Step>, a: nat)
    requires IsRun(c, states, steps) && steps != [] && steps[|steps| - 1] == Check && InMemory(c, a)
    ensures |states| == |steps| + 1
    ensures |states[|steps|].mem| == |states[|steps| - 1].mem| == c.memSize
    ensures match Latest(c, steps, a)
      case Some(s) =>
        && Shows(states[|steps|].mem[a - c.memStart], s)
        && states[|steps|].mem[a - c.memStart] == ApplyByte(s.fault, states[|steps| - 1].mem[a - c.memStart], s.mask)
      case None => states[|steps|].mem[a - c.memStart] == states[|steps| - 1].mem[a - c.memStart]
  {
    hide IsRun, ApplyByte, Shows, Latest;
    var n: nat := |steps| - 1;
    RunStep(c, states, steps);
    RunInvariant(c, states, steps);
    TableIsLatest(c, states, steps, a);
    var i: nat := a - c.memStart;
    var stuck := states[n].stuck;
    assert states[|steps|].mem[i] == ReapplyByte(stuck, c.memStart + i, states[n].mem[i]);
    if a in stuck {
      AppliedShows(states[n].mem[i], stuck[a]);
    }
  }

  /** Checking twice is checking once. */
  lemma ReapplyTwice(c: Config, mem: seq<bv8>, stuck: map<nat, Stuck>)
    requires forall a :: a in stuck ==> stuck[a].fault != BitFlip
    ensures Reapply(c, Reapply(c, mem, stuck), stuck) == Reapply(c, mem, stuck)
  {
    hide ApplyByte, Reapply;
    var once := Reapply(c, mem, stuck);
    var twice := Reapply(c, once, stuck);
    forall i: nat | i < |mem| ensures twice[i] == once[i] {
      var a := c.memStart + i;
      if a in stuck {
        ByteTwice(stuck[a].fault, mem[i], stuck[a].mask);
      }
    }
  }

  /** An attack changes at most masked bits of the one byte it targets. */
  lemma OnlyTargetChanges(c: Config, s: State, d: Draws, i: nat)
    requires Legal(c) && |s.mem| == c.memSize && s.attackAt.Some? && DrawsOk(c, d) && i < c.memSize
    ensures |AttackOnce(c, s, d).mem| == c.memSize
    ensures c.memStart + i != Target(c, d) ==> AttackOnce(c, s, d).mem[i] == s.mem[i]
    ensures (AttackOnce(c, s, d).mem[i] ^ s.mem[i]) & !d.mask == 0
  {
    hide ApplyByte, Target, Corrects, Booked, Interval;
    ByteOutsideMask(d.fault, s.mem[i], d.mask);
    NoChange(s.mem[i], d.mask);
  }

  lemma NoChange(b: bv8, m: bv8)
    ensures (b ^ b) & !m == 0
  {
  }

  // ---- Corrected faults ------------------------------------------------------------------------------

  /** The byte the next check leaves at the target of a corrected attack. */
  lemma CheckedTarget(c: Config, s: State, d: Draws, i: nat)
    requires Legal(c) && |s.mem| == c.memSize && s.attackAt.Some? && s.checkAt.Some? && DrawsOk(c, d)
    requires Corrects(c.protection, d.mask) && Target(c, d) == c.memStart + i && i < c.memSize
    ensures var t := AttackOnce(c, s, d);
      && t.mem == s.mem && t.checkAt == s.checkAt && |CheckOnce(c, s).mem| == |CheckOnce(c, t).mem| == c.memSize
      && (forall j: nat :: j < c.memSize && j != i ==> CheckOnce(c, t).mem[j] == CheckOnce(c, s).mem[j])
      && CheckOnce(c, s).mem[i] == ReapplyByte(s.stuck, c.memStart + i, s.mem[i])
      && CheckOnce(c, t).mem[i] == if d.fault == BitFlip then ReapplyByte(s.stuck, c.memStart + i, s.mem[i])
                                   else ApplyByte(d.fault, s.mem[i], d.mask)
  {
    hide ApplyByte, Target, Corrects, Booked, Interval, Reapply;
    var t := AttackOnce(c, s, d);
    assert t.mem == s.mem[i := s.mem[i]] == s.mem;
    forall j: nat | j < c.memSize
      ensures CheckOnce(c, t).mem[j] == ReapplyByte(t.stuck, c.memStart + j, t.mem[j])
      ensures CheckOnce(c, s).mem[j] == ReapplyByte(s.stuck, c.memStart + j, s.mem[j])
    {
    }
  }

  /**
   * A single-bit fault that SECDED corrects leaves memory as it was.  Whether it still does after
   * the next check is another matter: a stuck-at stays in the table.  Memory is the same as if the
   * attack had not happened exactly when the fault is a flip, or the byte it would leave is the one
   * the table leaves anyway; for an address not in the table, when the byte shows the bit already.
   */
  lemma CorrectedStaysIff(c: Config, s: State, d: Draws)
    requires Legal(c) && |s.mem| == c.memSize && s.attackAt.Some? && s.checkAt.Some? && DrawsOk(c, d)
    requires Corrects(c.protection, d.mask) && InMemory(c, Target(c, d))
    ensures var a, b := Target(c, d), s.mem[Target(c, d) - c.memStart];
      && AttackOnce(c, s, d).mem == s.mem
      && (CheckOnce(c, AttackOnce(c, s, d)).mem == CheckOnce(c, s).mem <==>
           d.fault == BitFlip || ApplyByte(d.fault, b, d.mask) == ReapplyByte(s.stuck, a, b))
      && (a !in s.stuck ==>
           (CheckOnce(c, AttackOnce(c, s, d)).mem == CheckOnce(c, s).mem <==>
             d.fault == BitFlip || Shows(b, Stuck(d.fault, d.mask))))
  {
    hide ApplyByte, Target, Corrects, AttackOnce, CheckOnce, Shows;
    var i: nat := Target(c, d) - c.memStart;
    CheckedTarget(c, s, d, i);
    var x, y := CheckOnce(c, AttackOnce(c, s, d)).mem, CheckOnce(c, s).mem;
    assert x[i] == y[i] ==> x == y;
    if d.fault != BitFlip {
      ShowsIff(s.mem[i], Stuck(d.fault, d.mask));
    }
  }

  lemma SameEffectBits(f: Fault, m: bv8, g: Fault, n: bv8)
    requires f != BitFlip && g != BitFlip && m != 0
    ensures (forall v: bv8 :: ApplyByte(f, v, m) == ApplyByte(g, v, n)) <==> f == g && m == n
  {
    if forall v: bv8 :: ApplyByte(f, v, m) == ApplyByte(g, v, n) {
      assert ApplyByte(f, 0, m) == ApplyByte(g, 0, n);
      assert ApplyByte(f, 0xff, m) == ApplyByte(g, 0xff, n);
    }
  }

  lemma NeverIdentity(f: Fault, m: bv8)
    requires f != BitFlip && m != 0
    ensures exists v: bv8 :: ApplyByte(f, v, m) != v
  {
    assert ApplyByte(f, if f == StuckAtZero then 0xff else 0, m) != if f == StuckAtZero then 0xff else 0;
  }

  /** The byte at address a after the program writes v there and the next check runs. */
  function WrittenChecked(c: Config, s: State, a: nat, v: bv8): bv8
    requires |s.mem| == c.memSize && s.checkAt.Some? && InMemory(c, a)
  {
    CheckOnce(c, Next(c, s, Write(a, v))).mem[a - c.memStart]
  }

  lemma WrittenByte(c: Config, s: State, a: nat, v: bv8)
    requires |s.mem| == c.memSize && s.checkAt.Some? && InMemory(c, a)
    ensures WrittenChecked(c, s, a, v) == ReapplyByte(s.stuck, a, v)
  {
    hide Reapply, ReapplyByte;
    var i: nat := a - c.memStart;
    var t := Next(c, s, Write(a, v));
    assert CheckOnce(c, t).mem[i] == ReapplyByte(t.stuck, c.memStart + i, t.mem[i]);
  }

  /**
   * A corrected fault has no effect on anything the program may later write exactly when it is a
   * flip, or repeats the stuck-at already recorded at the address.
   */
  lemma CorrectedForgottenIff(c: Config, s: State, d: Draws)
    requires Invariant(c, s) && Legal(c) && s.attackAt.Some? && DrawsOk(c, d)
    requires Corrects(c.protection, d.mask) && InMemory(c, Target(c, d))
    ensures |AttackOnce(c, s, d).mem| == c.memSize && AttackOnce(c, s, d).checkAt.Some?
    ensures (forall v: bv8 :: WrittenChecked(c, AttackOnce(c, s, d), Target(c, d), v)
                           == WrittenChecked(c, s, Target(c, d), v))
       <==> d.fault == BitFlip || Lookup(s.stuck, Target(c, d)) == Some(Stuck(d.fault, d.mask))
  {
    hide ApplyByte, Target, Booked, Interval, Stored, WrittenChecked;
    var a, t := Target(c, d), AttackOnce(c, s, d);
    forall v: bv8
      ensures WrittenChecked(c, t, a, v) == ReapplyByte(t.stuck, a, v)
      ensures WrittenChecked(c, s, a, v) == ReapplyByte(s.stuck, a, v)
    {
      WrittenByte(c, t, a, v);
      WrittenByte(c, s, a, v);
    }
    SameTableIff(s.stuck, a, d.fault, d.mask);
  }

  /** Recording a stuck-at changes what checks write exactly when it is not recorded already. */
  lemma SameTableIff(stuck: map<nat, Stuck>, a: nat, f: Fault, m: bv8)
    requires m != 0 && (a in stuck ==> stuck[a].fault != BitFlip)
    ensures f != BitFlip ==>
      ((forall v: bv8 :: ReapplyByte(stuck[a := Stuck(f, m)], a, v) == ReapplyByte(stuck, a, v)) <==>
        Lookup(stuck, a) == Some(Stuck(f, m)))
  {
    hide ApplyByte, ReapplyByte;
    var after := stuck[a := Stuck(f, m)];
    forall v: bv8
      ensures ReapplyByte(after, a, v) == ApplyByte(f, v, m)
      ensures ReapplyByte(stuck, a, v) == if a in stuck then ApplyByte(stuck[a].fault, v, stuck[a].mask) else v
    {
      ReapplyUnfold(after, a, v);
      ReapplyUnfold(stuck, a, v);
    }
    if f != BitFlip {
      if a in stuck {
        SameEffectBits(f, m, stuck[a].fault, stuck[a].mask);
        if forall v: bv8 :: ReapplyByte(after, a, v) == ReapplyByte(stuck, a, v) {
          forall v: bv8 ensures ApplyByte(f, v, m) == ApplyByte(stuck[a].fault, v, stuck[a].mask) {
            assert ReapplyByte(after, a, v) == ReapplyByte(stuck, a, v);
          }
        }
      } else {
        NeverIdentity(f, m);
        var v: bv8 :| ApplyByte(f, v, m) != v;
        assert ReapplyByte(after, a, v) != ReapplyByte(stuck, a, v);
      }
    }
  }

  // ---- Fixed addressing --------------------------------------------------------------------------------

  function Attacks(steps: seq<Step>): nat {
    if steps == [] then 0 else Attacks(steps[..|steps| - 1]) + if steps[|steps| - 1].Attack? then 1 else 0
  }

  /** Without redirection every target is in the clamped window, hence in memory. */
  lemma FixedTargets(c: Config, d: Draws)
    requires Legal(c) && DrawsOk(c, d) && c.redirect == None
    ensures c.window.first <= Target(c, d) <= c.window.last && InMemory(c, Target(c, d))
  {
  }

  /** So every attack of a run injects, and a run with a budget contains at most that many attacks. */
  lemma {:induction false} EveryAttackCounts(c: Config, states: seq<State>, steps: seq<Step>)
    requires IsRun(c, states, steps) && c.redirect == None
    ensures |states| == |steps| + 1 && states[|steps|].count == Attacks(steps)
    ensures c.maxFaults != 0 ==> Attacks(steps) <= c.maxFaults
    decreases |steps|
  {
    hide IsRun, Next, Enabled;
    RunInvariant(c, states, steps);
    if steps == [] {
      RunStart(c, states);
    } else {
      var n: nat := |steps| - 1;
      RunStep(c, states, steps);
      EveryAttackCounts(c, states[..n + 1], steps[..n]);
      CountStep(c, states[n], steps[n]);
    }
  }

  lemma CountStep(c: Config, s: State, step: Step)
    requires |s.mem| == c.memSize && Enabled(c, s, step) && c.redirect == None
    ensures Next(c, s, step).count == s.count + if step.Attack? then 1 else 0
  {
    hide Stored, Reapply, Interval;
    if step.Attack? {
      FixedTargets(c, step.draws);
    }
  }
}
