/** The rename-map injector object: its methods perform the steps of the state machine in place. */
module RenameInjector {
  import opened Options
  import opened RenameSpec
  import opened RenameRuns

  class Injector {
    const config: Config
    var rat: seq<Row>
    var pins: map<Key, nat>
    var faults: nat
    var attackAt: Option<nat>
    var checkAt: Option<nat>

    function Snapshot(): State
      reads this
    {
      State(rat, pins, faults, attackAt, checkAt)
    }

    ghost predicate Valid()
      reads this
    {
      Invariant(config, Snapshot())
    }

    constructor (config: Config, rat: seq<Row>, distance: nat)
      requires InRange(config, Started(config, rat, distance))
      ensures this.config == config && Valid() && Snapshot() == Started(config, rat, distance)
    {
      this.config := config;
      this.rat, pins, faults := rat, map[], 0;
      attackAt := Some(config.firstClock + distance);
      checkAt := if config.mode == F4FieldStuck then Some(config.firstClock + 1) else None;
    }

    /** Scan the class for registers with an active mapping and choose one of them. */
    method ChooseVictim(tid: nat, d: Draws) returns (victim: Option<nat>)
      requires tid < |rat| && |rat[tid]| == config.archRegs
      ensures victim == Victim(config, rat[tid], d)
    {
      var row := rat[tid];
      if 0 <= config.targetArch < config.archRegs {
        return if row[config.targetArch].Some? then Some(config.targetArch) else None;
      }
      var active: seq<nat> := [];
      for cand := 0 to |row|
        invariant active == Active(row, cand)
      {
        if row[cand].Some? {
          active := active + [cand];
        }
      }
      if active == [] {
        return None;
      }
      return Some(active[d.arch % |active|]);
    }

    /** Try drawn registers, at most one per register of the class, until one donates. */
    method FindDonor(tid: nat, victim: nat, draws: seq<nat>) returns (donor: Option<nat>)
      requires tid < |rat| && victim < |rat[tid]| && rat[tid][victim].Some?
      ensures donor == Donor(rat[tid], victim, draws, |rat[tid]|)
    {
      var row := rat[tid];
      var tries := 0;
      while tries < |row| && tries < |draws|
        invariant tries <= |row| && tries <= |draws|
        invariant Donor(row, victim, draws, |row|) == Donor(row, victim, draws[tries..], |row| - tries)
      {
        var cand := draws[tries] % |row|;
        if cand != victim && row[cand].Some? && row[cand].value != row[victim].value {
          return Some(cand);
        }
        assert draws[tries..][1..] == draws[tries + 1..];
        tries := tries + 1;
      }
      return None;
    }

    /** One thread's attempt; every rejection leaves the state alone. */
    method ProcessFault(tid: nat, d: Draws)
      requires InRange(config, Snapshot()) && tid < config.threads
      modifies `rat, `pins, `faults
      ensures Snapshot() == Process(config, old(Snapshot()), tid, d)
    {
      hide SetEntry, Flipped, Donor, Victim;
      if config.maxFaults != 0 && faults >= config.maxFaults {
        return;
      }
      var victim := ChooseVictim(tid, d);
      if victim == None {
        return;
      }
      var row, a := rat[tid], victim.value;
      assert Mapping(config, row[a]);
      var phys: nat;
      if config.mode == MapBitFlip {
        phys := Flipped(row[a].value, d.mask);
        if phys >= config.physRegs {
          return;
        }
      } else {
        var donor := FindDonor(tid, a, d.donors);
        if donor == None {
          return;
        }
        phys := row[donor.value].value;
      }
      rat := SetEntry(rat, tid, a, Some(phys));
      if config.mode == F4FieldStuck {
        pins := pins[Key(tid, a) := phys];
      }
      faults := faults + 1;
    }

    /** The attack event: every thread in turn, then the next event unless the budget is spent. */
    method AttackCheck(draws: seq<Draws>, distance: nat)
      requires Valid() && attackAt.Some? && |draws| == config.threads
      modifies this
      ensures Valid() && Snapshot() == Next(config, old(Snapshot()), AttackEvent(draws, distance))
    {
      hide InRange, Process;
      StepKeeps(config, Snapshot(), AttackEvent(draws, distance));
      var before, now := faults, attackAt.value;
      for tid := 0 to config.threads
        invariant Snapshot() == AttackThreads(config, old(Snapshot()), draws, tid)
      {
        if !draws[tid].halted {
          ProcessFault(tid, draws[tid]);
        }
      }
      attackAt := None;
      if config.maxFaults == 0 || faults < config.maxFaults {
        var next := distance;
        if faults == before && next < 1 {
          next := 1;
        }
        if config.lastClock == 0 || now + next <= config.lastClock {
          attackAt := Some(now + next);
        }
      }
    }

    /** Re-pin every recorded mapping, in any order, and schedule the next check. */
    method CheckPermanent()
      requires Valid() && checkAt.Some?
      modifies this
      ensures Valid() && Snapshot() == Next(config, old(Snapshot()), CheckEvent)
    {
      hide SetEntry, Repinned;
      StepKeeps(config, Snapshot(), CheckEvent);
      ghost var before := Snapshot();
      var todo := pins.Keys;
      while todo != {}
        invariant todo <= pins.Keys && pins == before.pins
        invariant faults == before.faults && attackAt == before.attackAt && checkAt == before.checkAt
        invariant Shape(config, Snapshot()) && PartlyPinned(config, before, rat, todo)
        decreases todo
      {
        var k :| k in todo;
        PinOne(config, before, rat, todo, k);
        rat := SetEntry(rat, k.tid, k.arch, Some(pins[k]));
        todo := todo - {k};
      }
      AllPinned(config, before, rat);
      checkAt := Some(NextCheck(checkAt.value));
    }
  }

  /** The map when the keys in todo are still to be pinned. */
  ghost predicate PartlyPinned(c: Config, s: State, rat: seq<Row>, todo: set<Key>) {
    && Shape(c, s) && Shape(c, s.(rat := rat))
    && forall t: nat, a: nat :: t < c.threads && a < c.archRegs ==>
      rat[t][a] == if Key(t, a) in todo then s.rat[t][a] else PinnedEntry(s.pins, t, a, s.rat[t][a])
  }

  lemma PinOne(c: Config, s: State, rat: seq<Row>, todo: set<Key>, k: Key)
    requires PartlyPinned(c, s, rat, todo) && k in todo && k in s.pins && k.tid < c.threads && k.arch < c.archRegs
    ensures PartlyPinned(c, s, SetEntry(rat, k.tid, k.arch, Some(s.pins[k])), todo - {k})
  {
    hide SetEntry;
  }

  lemma AllPinned(c: Config, s: State, rat: seq<Row>)
    requires PartlyPinned(c, s, rat, {})
    ensures rat == Repinned(c, s)
  {
    hide Repinned;
    var r := Repinned(c, s);
    forall t: nat | t < c.threads ensures rat[t] == r[t] {
      forall a: nat | a < c.archRegs ensures rat[t][a] == r[t][a] {
        assert r[t][a] == PinnedEntry(s.pins, t, a, s.rat[t][a]);
      }
    }
  }
}
