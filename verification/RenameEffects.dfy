/** Attempts and attacks of the rename-map injector, told by the map, the draws and the clock alone. */
module RenameEffects {
  import opened Options
  import opened IntArith
  import opened RenameSpec
  import opened RenameRuns

  /** Registers below n with an active mapping. */
  function MappedBelow(row: Row, n: nat): set<nat>
    requires n <= |row|
  {
    set a: nat | a < n && row[a].Some?
  }

  /**
   * The register attacked: the configured one if the class has it, and else the one with as many
   * active registers before it as the draw says, modulo their number.
   */
  predicate Chosen(c: Config, row: Row, d: Draws, a: nat) {
    && a < |row| && row[a].Some?
    && if 0 <= c.targetArch < |row| then a == c.targetArch
       else |MappedBelow(row, |row|)| > 0 && |MappedBelow(row, a)| == d.arch % |MappedBelow(row, |row|)|
  }

  /** Register k is another one, mapped, and mapped elsewhere than a. */
  predicate Steals(row: Row, a: nat, k: nat) {
    a < |row| && k < |row| && k != a && row[k].Some? && row[k] != row[a]
  }

  /** Draw t is the first of at most |row| draws that names a donor for a. */
  predicate FirstDonor(row: Row, a: nat, draws: seq<nat>, t: nat) {
    && row != [] && t < |draws| && t < |row| && Steals(row, a, draws[t] % |row|)
    && forall u: nat :: u < t ==> !Steals(row, a, draws[u] % |row|)
  }

  /** The mapping moves from old to p: by the mask's bits, or to a donor's register. */
  ghost predicate Moves(c: Config, row: Row, a: nat, d: Draws, from: nat, p: nat)
    requires from < 0x8000_0000 && c.physRegs <= 0x8000_0000
  {
    if c.mode == MapBitFlip then p < c.physRegs && (p as bv32) ^ (from as bv32) == d.mask
    else exists t: nat :: FirstDonor(row, a, d.donors, t) && row[d.donors[t] % |row|] == Some(p)
  }

  lemma Widths(v: bv32)
    ensures (v as nat) < 0x1_0000_0000 && (v as nat) as bv32 == v
  {
  }

  lemma XorBack(p: bv32, m: bv32)
    ensures (p ^ m) ^ p == m
  {
  }

  lemma FlippedUnfold(phys: nat, mask: bv32)
    requires phys < 0x8000_0000
    ensures Flipped(phys, mask) == ((phys as bv32) ^ mask) as nat
  {
  }

  /** The flipped index differs from the old one in exactly the bits of the mask. */
  lemma FlippedBits(phys: nat, mask: bv32)
    requires phys < 0x8000_0000
    ensures Flipped(phys, mask) < 0x1_0000_0000
    ensures (Flipped(phys, mask) as bv32) ^ (phys as bv32) == mask
  {
    hide Flipped;
    FlippedUnfold(phys, mask);
    Widths((phys as bv32) ^ mask);
    XorBack(phys as bv32, mask);
  }

  lemma {:induction false} ActiveCounted(row: Row, n: nat)
    requires n <= |row|
    ensures |Active(row, n)| == |MappedBelow(row, n)|
  {
    hide Active;
    ActiveLength(row, n);
    if n == 0 {
      assert MappedBelow(row, 0) == {};
    } else {
      ActiveCounted(row, n - 1);
      MappedStep(row, n);
    }
  }

  lemma MappedStep(row: Row, n: nat)
    requires 0 < n <= |row|
    ensures |MappedBelow(row, n)| == |MappedBelow(row, n - 1)| + if row[n - 1].Some? then 1 else 0
  {
    OneMore(MappedBelow(row, n), MappedBelow(row, n - 1), n - 1, row[n - 1].Some?);
  }

  lemma ActiveLength(row: Row, n: nat)
    requires n <= |row|
    ensures |Active(row, n)| == if n == 0 then 0 else |Active(row, n - 1)| + if row[n - 1].Some? then 1 else 0
  {
  }

  lemma {:induction false} ActiveAt(row: Row, n: nat, i: nat)
    requires n <= |row| && i < |Active(row, n)|
    ensures var a := Active(row, n)[i]; a < n && row[a].Some? && |MappedBelow(row, a)| == i
    decreases n
  {
    ActiveCounted(row, n - 1);
    if i < |Active(row, n - 1)| {
      ActiveAt(row, n - 1, i);
    }
  }

  lemma VictimIsChosen(c: Config, row: Row, d: Draws)
    requires |row| == c.archRegs
    ensures Victim(c, row, d).Some? ==> Chosen(c, row, d, Victim(c, row, d).value)
    ensures Victim(c, row, d).None? ==> forall a: nat :: !Chosen(c, row, d, a)
  {
    hide Active;
    ActiveCounted(row, |row|);
    var active := Active(row, |row|);
    if !(0 <= c.targetArch < c.archRegs) && active != [] {
      ActiveAt(row, |row|, d.arch % |active|);
    }
  }

  lemma StealsIff(row: Row, a: nat, k: nat)
    requires a < |row| && row[a].Some? && k < |row|
    ensures Steals(row, a, k) <==> Donates(row, a, k)
  {
  }

  lemma {:induction false} DonorIsFirst(row: Row, a: nat, draws: seq<nat>, n: nat) returns (t: nat)
    requires a < |row| && row[a].Some?
    ensures var r := Donor(row, a, draws, n);
      if r.Some? then
        && t < n && t < |draws| && draws[t] % |row| == r.value && Steals(row, a, r.value)
        && forall u: nat :: u < t ==> !Steals(row, a, draws[u] % |row|)
      else forall u: nat :: u < n && u < |draws| ==> !Steals(row, a, draws[u] % |row|)
    decreases n
  {
    hide Steals, Donates;
    t := 0;
    if n > 0 && draws != [] {
      StealsIff(row, a, draws[0] % |row|);
      if !Donates(row, a, draws[0] % |row|) {
        t := DonorIsFirst(row, a, draws[1..], n - 1);
        t := t + 1;
        LaterDraws(row, a, draws, n, t, Donor(row, a, draws, n));
      }
    }
  }

  /** Prefixing a draw that names no donor shifts the first donor by one. */
  lemma LaterDraws(row: Row, a: nat, draws: seq<nat>, n: nat, t: nat, r: Option<nat>)
    requires row != [] && draws != [] && n > 0 && t > 0 && !Steals(row, a, draws[0] % |row|)
    requires var rest := draws[1..];
      if r.Some? then
        && t - 1 < n - 1 && t - 1 < |rest| && rest[t - 1] % |row| == r.value && Steals(row, a, r.value)
        && forall u: nat :: u < t - 1 ==> !Steals(row, a, rest[u] % |row|)
      else forall u: nat :: u < n - 1 && u < |rest| ==> !Steals(row, a, rest[u] % |row|)
    ensures r.Some? ==>
      && t < n && t < |draws| && draws[t] % |row| == r.value && Steals(row, a, r.value)
      && forall u: nat :: u < t ==> !Steals(row, a, draws[u] % |row|)
    ensures r.None? ==> forall u: nat :: u < n && u < |draws| ==> !Steals(row, a, draws[u] % |row|)
  {
    hide Steals;
    forall u: nat | 0 < u < |draws| ensures draws[u] == draws[1..][u - 1] {
    }
  }

  lemma RedirectMoves(c: Config, row: Row, a: nat, d: Draws)
    requires a < |row| && row[a].Some? && row[a].value < c.physRegs <= 0x8000_0000
    ensures var r := Redirect(c, row, a, d);
      && (r.Some? ==> Moves(c, row, a, d, row[a].value, r.value))
      && (r.None? ==>
           if c.mode == MapBitFlip then Flipped(row[a].value, d.mask) >= c.physRegs
           else forall t: nat :: !FirstDonor(row, a, d.donors, t))
  {
    hide Flipped, Donor, Steals;
    if c.mode == MapBitFlip {
      FlippedBits(row[a].value, d.mask);
    } else {
      var t := DonorIsFirst(row, a, d.donors, |row|);
      if Donor(row, a, d.donors, |row|).Some? {
        assert FirstDonor(row, a, d.donors, t);
      }
    }
  }

  /** The state after register a of thread tid was moved to physical register p. */
  function Moved(c: Config, s: State, tid: nat, a: nat, p: nat): State
    requires tid < |s.rat| && a < |s.rat[tid]|
  {
    State(s.rat[tid := s.rat[tid][a := Some(p)]],
          if c.mode == F4FieldStuck then s.pins[Key(tid, a) := p] else s.pins,
          s.faults + 1, s.attackAt, s.checkAt)
  }

  /**
   * One thread's attempt, exactly.  It moves the chosen register, to the index with the mask's
   * bits flipped or to the first drawn donor's register, pinning it in the stuck mode; or it
   * changes nothing, and then the cap was reached, no register could be chosen, the flipped index
   * is beyond the register file, or no draw named a donor.
   */
  lemma AttemptIs(c: Config, s: State, tid: nat, d: Draws)
    requires InRange(c, s) && tid < c.threads
    ensures var row, r := s.rat[tid], Process(c, s, tid, d);
      if r.faults != s.faults then
        && !(c.maxFaults != 0 && s.faults >= c.maxFaults)
        && exists a: nat, p: nat ::
            && Chosen(c, row, d, a) && row[a].value < c.physRegs
            && Moves(c, row, a, d, row[a].value, p) && r == Moved(c, s, tid, a, p)
      else
        && r == s
        && (|| (c.maxFaults != 0 && s.faults >= c.maxFaults)
            || (forall a: nat :: !Chosen(c, row, d, a))
            || exists a: nat ::
                && Chosen(c, row, d, a) && row[a].value < c.physRegs
                && if c.mode == MapBitFlip then Flipped(row[a].value, d.mask) >= c.physRegs
                   else forall t: nat :: !FirstDonor(row, a, d.donors, t))
  {
    hide Victim, Redirect, Chosen, Moves, FirstDonor, Flipped;
    var row := s.rat[tid];
    VictimIsChosen(c, row, d);
    var v := Victim(c, row, d);
    if v.Some? {
      assert Mapping(c, row[v.value]);
      RedirectMoves(c, row, v.value, d);
    }
  }

  // ---- Whole attacks ------------------------------------------------------------------------------

  /** An attempt leaves the rows of other threads alone. */
  lemma OtherRows(c: Config, s: State, tid: nat, d: Draws, t: nat)
    requires InRange(c, s) && tid < c.threads && t < c.threads && t != tid
    ensures |Attempt(c, s, tid, d).rat| == c.threads && Attempt(c, s, tid, d).rat[t] == s.rat[t]
  {
    hide Lands, SetEntry, InRange;
    ShapeOf(c, s);
  }

  lemma ShapeOf(c: Config, s: State)
    requires InRange(c, s)
    ensures |s.rat| == c.threads && forall t: nat :: t < c.threads ==> |s.rat[t]| == c.archRegs
  {
  }

  /**
   * An attack is one attempt per thread, each on the row its thread had before the attack and with
   * the faults of the threads before it counted; a halted thread keeps its row.
   */
  lemma {:induction false} AttackRow(c: Config, s: State, draws: seq<Draws>, n: nat, t: nat) returns (before: State)
    requires InRange(c, s) && t < n <= c.threads == |draws|
    ensures InRange(c, before) && before.rat[t] == s.rat[t] && before.faults >= s.faults
    ensures |AttackThreads(c, s, draws, n).rat| == c.threads
    ensures AttackThreads(c, s, draws, n).rat[t]
         == if draws[t].halted then s.rat[t] else Process(c, before, t, draws[t]).rat[t]
    decreases n
  {
    hide InRange, Process;
    var u := AttackThreads(c, s, draws, n - 1);
    ShapeOf(c, u);
    ShapeOf(c, AttackThreads(c, s, draws, n));
    if t == n - 1 {
      before := u;
      EarlierRows(c, s, draws, n - 1, t);
    } else {
      before := AttackRow(c, s, draws, n - 1, t);
      OtherRows(c, u, n - 1, draws[n - 1], t);
    }
  }

  lemma {:induction false} EarlierRows(c: Config, s: State, draws: seq<Draws>, n: nat, t: nat)
    requires InRange(c, s) && n <= t < c.threads == |draws|
    ensures |AttackThreads(c, s, draws, n).rat| == |s.rat| == c.threads
    ensures AttackThreads(c, s, draws, n).rat[t] == s.rat[t]
    decreases n
  {
    hide InRange, Attempt;
    ShapeOf(c, s);
    ShapeOf(c, AttackThreads(c, s, draws, n));
    if n > 0 {
      EarlierRows(c, s, draws, n - 1, t);
      OtherRows(c, AttackThreads(c, s, draws, n - 1), n - 1, draws[n - 1], t);
    }
  }

  /** What becomes of the pending attack at a step. */
  lemma TimeAfter(c: Config, s: State, step: Step)
    requires InRange(c, s) && Enabled(c, s, step)
    ensures !step.AttackEvent? ==> Next(c, s, step).attackAt == s.attackAt
    ensures step.AttackEvent? ==>
      var r := Next(c, s, step);
      var at := s.attackAt.value + if r.faults == s.faults && step.distance == 0 then 1 else step.distance;
      (r.attackAt == Some(at) || r.attackAt == None)
      && (r.attackAt.Some? <==>
           (c.maxFaults == 0 || r.faults < c.maxFaults) && (c.lastClock == 0 || at <= c.lastClock))
  {
    hide InRange, AttackThreads, Repinned, SetEntry;
  }

  /** No attack lies between two steps of a run. */
  ghost predicate NoAttack(steps: seq<Step>, i: nat, j: nat) {
    forall k: nat :: i <= k < j && k < |steps| ==> !steps[k].AttackEvent?
  }

  lemma {:induction false} TimeHeld(c: Config, states: seq<State>, steps: seq<Step>, i: nat, j: nat)
    requires IsRun(c, states, steps) && i <= j <= |steps| && NoAttack(steps, i, j)
    ensures |states| == |steps| + 1 && states[j].attackAt == states[i].attackAt
    decreases j - i
  {
    hide Next, Enabled, InRange;
    if i < j {
      TimeHeld(c, states, steps, i, j - 1);
      assert Follows(c, states[j - 1], steps[j - 1], states[j - 1 + 1]);
      TimeAfter(c, states[j - 1], steps[j - 1]);
    }
  }

  /** The first attack comes a drawn number of cycles after the first cycle. */
  lemma FirstAttack(c: Config, states: seq<State>, steps: seq<Step>, n: nat) returns (distance: nat)
    requires IsRun(c, states, steps) && n <= |steps| && NoAttack(steps, 0, n)
    ensures |states| == |steps| + 1 && states[n].attackAt == Some(c.firstClock + distance)
  {
    hide Next, InRange;
    var rat: seq<Row>, d: nat :| states[0] == Started(c, rat, d);
    distance := d;
    TimeHeld(c, states, steps, 0, n);
  }

  /**
   * Consecutive attacks of any run: the second comes the drawn number of cycles after the first,
   * one cycle after it if none was drawn and nothing landed, and never after a nonzero last cycle.
   */
  lemma NextAttackTime(c: Config, states: seq<State>, steps: seq<Step>, i: nat, j: nat)
    requires IsRun(c, states, steps) && i < j < |steps|
    requires steps[i].AttackEvent? && steps[j].AttackEvent? && NoAttack(steps, i + 1, j)
    ensures |states| == |steps| + 1 && states[i].attackAt.Some? && states[j].attackAt.Some?
    ensures states[j].attackAt.value == states[i].attackAt.value
      + if states[i + 1].faults == states[i].faults && steps[i].distance == 0 then 1 else steps[i].distance
    ensures c.lastClock == 0 || states[j].attackAt.value <= c.lastClock
  {
    hide Next, InRange;
    assert Follows(c, states[i], steps[i], states[i + 1]);
    assert Follows(c, states[j], steps[j], states[j + 1]);
    TimeAfter(c, states[i], steps[i]);
    TimeHeld(c, states, steps, i + 1, j);
  }
}
