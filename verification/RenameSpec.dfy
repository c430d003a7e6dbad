/**
 * The rename-map injector as a state machine: index flips, donor substitution and pinned
 * mappings, interleaved with the program's own renames.
 */
module RenameSpec {
  import opened Options

  datatype Mode = MapBitFlip | F5Substitute | F4FieldStuck

  datatype Config = Config(
    mode: Mode,
    threads: nat,
    archRegs: nat,
    physRegs: nat,
    targetArch: int,
    firstClock: nat,
    lastClock: nat,
    maxFaults: nat)

  /** One thread's part of the map: each architectural register's physical register, if mapped. */
  type Row = seq<Option<nat>>

  datatype Key = Key(tid: nat, arch: nat)

  datatype State = State(
    rat: seq<Row>,
    pins: map<Key, nat>,
    faults: nat,
    attackAt: Option<nat>,
    checkAt: Option<nat>)

  predicate Mapping(c: Config, o: Option<nat>) {
    o.Some? ==> o.value < c.physRegs
  }

  predicate Shape(c: Config, s: State) {
    && c.physRegs <= 0x8000_0000
    && |s.rat| == c.threads
    && forall t: nat :: t < c.threads ==> |s.rat[t]| == c.archRegs
  }

  /** Every entry of the map, and every pin, is a physical register that exists. */
  predicate InRange(c: Config, s: State) {
    && Shape(c, s)
    && (forall t: nat, r: nat :: t < c.threads && r < c.archRegs ==> Mapping(c, s.rat[t][r]))
    && (forall k :: k in s.pins ==> k.tid < c.threads && k.arch < c.archRegs && s.pins[k] < c.physRegs)
  }

  /** The random choices one thread's attempt may use. */
  datatype Draws = Draws(halted: bool, arch: nat, mask: bv32, donors: seq<nat>)

  // ---- One attempt ------------------------------------------------------------------------

  function Active(row: Row, n: nat): (r: seq<nat>)
    requires n <= |row|
    ensures forall a: nat :: a in r <==> a < n && row[a].Some?
  {
    if n == 0 then [] else Active(row, n - 1) + if row[n - 1].Some? then [n - 1] else []
  }

  /** The register attacked: the configured one, else one of those with an active mapping. */
  function Victim(c: Config, row: Row, d: Draws): (r: Option<nat>)
    requires |row| == c.archRegs
    ensures r.Some? ==> r.value < c.archRegs && row[r.value].Some?
    ensures 0 <= c.targetArch < c.archRegs ==> r == if row[c.targetArch].Some? then Some(c.targetArch) else None
    ensures r.None? && !(0 <= c.targetArch < c.archRegs) ==> forall a: nat :: a < c.archRegs ==> row[a].None?
  {
    if 0 <= c.targetArch < c.archRegs then
      if row[c.targetArch].Some? then Some(c.targetArch) else None
    else
      var active := Active(row, |row|);
      assert active == [] ==> forall a: nat :: a < |row| ==> a !in active;
      if active == [] then None
      else
        assert active[d.arch % |active|] in active;
        Some(active[d.arch % |active|])
  }

  predicate Donates(row: Row, victim: nat, from: nat)
    requires victim < |row| && row[victim].Some? && from < |row|
  {
    from != victim && row[from].Some? && row[from].value != row[victim].value
  }

  /** The first drawn candidate that donates, among at most n draws. */
  function Donor(row: Row, victim: nat, draws: seq<nat>, n: nat): (r: Option<nat>)
    requires victim < |row| && row[victim].Some?
    ensures r.Some? ==> r.value < |row| && Donates(row, victim, r.value)
    ensures r.None? ==> forall t: nat :: t < n && t < |draws| ==> !Donates(row, victim, draws[t] % |row|)
    decreases n
  {
    if n == 0 || draws == [] then None
    else if Donates(row, victim, draws[0] % |row|) then Some(draws[0] % |row|)
    else Donor(row, victim, draws[1..], n - 1)
  }

  /** The flipped index, as an unsigned value; a set sign bit is beyond every register file. */
  function Flipped(phys: nat, mask: bv32): nat
    requires phys < 0x8000_0000
  {
    ((phys as bv32) ^ mask) as nat
  }

  /** The physical register the victim is redirected to, or none when the attempt is rejected. */
  function Redirect(c: Config, row: Row, victim: nat, d: Draws): (r: Option<nat>)
    requires victim < |row| && row[victim].Some? && row[victim].value < c.physRegs <= 0x8000_0000
    ensures c.mode == MapBitFlip && r.Some? ==> r.value < c.physRegs
    ensures c.mode != MapBitFlip && r.Some? ==> exists k: nat :: k < |row| && row[k] == Some(r.value)
  {
    if c.mode == MapBitFlip then
      var p := Flipped(row[victim].value, d.mask);
      if p < c.physRegs then Some(p) else None
    else
      match Donor(row, victim, d.donors, |row|)
      case None => None
      case Some(k) => Some(row[k].value)
  }

  function SetEntry(rat: seq<Row>, tid: nat, arch: nat, phys: Option<nat>): (r: seq<Row>)
    requires tid < |rat| && arch < |rat[tid]|
    ensures |r| == |rat| && forall t: nat :: t < |rat| ==> |r[t]| == |rat[t]|
    ensures forall t: nat :: t < |rat| && t != tid ==> r[t] == rat[t]
    ensures r[tid] == rat[tid][arch := phys]
  {
    rat[tid := rat[tid][arch := phys]]
  }

  predicate Capped(c: Config, s: State) {
    c.maxFaults != 0 && s.faults >= c.maxFaults
  }

  /** Where an attempt lands: the register redirected and its new physical register. */
  datatype Landing = Landing(arch: nat, phys: nat)

  /** The landing of one thread's attempt, or none when it is rejected. */
  function Lands(c: Config, s: State, tid: nat, d: Draws): (r: Option<Landing>)
    requires InRange(c, s) && tid < c.threads
    ensures r.Some? ==> r.value.arch < c.archRegs
  {
    if Capped(c, s) then None
    else
      var row := s.rat[tid];
      match Victim(c, row, d)
      case None => None
      case Some(a) =>
        assert Mapping(c, row[a]);
        match Redirect(c, row, a, d)
        case None => None
        case Some(p) => Some(Landing(a, p))
  }

  /** One thread's attempt. */
  function Process(c: Config, s: State, tid: nat, d: Draws): (r: State)
    requires InRange(c, s) && tid < c.threads
  {
    match Lands(c, s, tid, d)
    case None => s
    case Some(l) =>
      s.(rat := SetEntry(s.rat, tid, l.arch, Some(l.phys)),
         pins := if c.mode == F4FieldStuck then s.pins[Key(tid, l.arch) := l.phys] else s.pins,
         faults := s.faults + 1)
  }

  // ---- What an attempt keeps -----------------------------------------------------------------

  lemma ProcessInRange(c: Config, s: State, tid: nat, d: Draws)
    requires InRange(c, s) && tid < c.threads
    ensures InRange(c, Process(c, s, tid, d))
    ensures s.faults <= Process(c, s, tid, d).faults <= s.faults + 1
    ensures c.maxFaults != 0 && s.faults <= c.maxFaults ==> Process(c, s, tid, d).faults <= c.maxFaults
    ensures Process(c, s, tid, d).attackAt == s.attackAt && Process(c, s, tid, d).checkAt == s.checkAt
  {
    hide Victim, Redirect, SetEntry;
    var row := s.rat[tid];
    var v := Victim(c, row, d);
    if !Capped(c, s) && v.Some? {
      assert Mapping(c, row[v.value]);
      var p := Redirect(c, row, v.value, d);
      if p.Some? {
        RedirectInRange(c, s, tid, v.value, d);
        SetInRange(c, s, tid, v.value, p);
      }
    }
  }

  lemma RedirectInRange(c: Config, s: State, tid: nat, a: nat, d: Draws)
    requires InRange(c, s) && tid < c.threads && a < c.archRegs && s.rat[tid][a].Some?
    requires s.rat[tid][a].value < c.physRegs && Redirect(c, s.rat[tid], a, d).Some?
    ensures Redirect(c, s.rat[tid], a, d).value < c.physRegs
  {
    hide Redirect;
    var r := Redirect(c, s.rat[tid], a, d);
    if c.mode != MapBitFlip {
      var k: nat :| k < |s.rat[tid]| && s.rat[tid][k] == Some(r.value);
      assert Mapping(c, s.rat[tid][k]);
    }
  }

  lemma SetInRange(c: Config, s: State, tid: nat, arch: nat, phys: Option<nat>)
    requires InRange(c, s) && tid < c.threads && arch < c.archRegs && Mapping(c, phys)
    ensures InRange(c, s.(rat := SetEntry(s.rat, tid, arch, phys)))
  {
    hide SetEntry;
    var after := SetEntry(s.rat, tid, arch, phys);
    forall t: nat, r: nat | t < c.threads && r < c.archRegs ensures Mapping(c, after[t][r]) {
      assert Mapping(c, s.rat[t][r]);
    }
  }

  predicate EntryChanged(s: State, t: State, tid: nat, arch: nat)
    requires tid < |s.rat| && |t.rat| == |s.rat| && arch < |s.rat[tid]| && |t.rat[tid]| == |s.rat[tid]|
  {
    s.rat[tid][arch] != t.rat[tid][arch]
  }

  /** In every mode one attempt changes at most one entry, of its own thread, and only by landing a fault. */
  lemma OneEntryPerAttempt(c: Config, s: State, tid: nat, d: Draws, t: nat, a: nat, u: nat, b: nat)
    requires InRange(c, s) && tid < c.threads && t < c.threads && u < c.threads && a < c.archRegs && b < c.archRegs
    ensures InRange(c, Process(c, s, tid, d))
    ensures EntryChanged(s, Process(c, s, tid, d), t, a) ==> t == tid && Process(c, s, tid, d).faults == s.faults + 1
    ensures EntryChanged(s, Process(c, s, tid, d), t, a) && EntryChanged(s, Process(c, s, tid, d), u, b) ==>
      t == u && a == b
  {
    hide Victim, Redirect, SetEntry;
    ProcessInRange(c, s, tid, d);
    var v := Victim(c, s.rat[tid], d);
    if v.Some? {
      assert Mapping(c, s.rat[tid][v.value]);
    }
  }

  /** The physical registers a thread's map mentions. */
  function Mentioned(row: Row): set<nat> {
    set i | 0 <= i < |row| && row[i].Some? :: row[i].value
  }

  /** Substitution and pinning only ever redirect within the mapped set; no other thread is touched. */
  lemma SubstitutionStaysMapped(c: Config, s: State, tid: nat, d: Draws, t: nat)
    requires InRange(c, s) && tid < c.threads && t < c.threads && c.mode != MapBitFlip
    ensures |Process(c, s, tid, d).rat| == c.threads
    ensures Mentioned(Process(c, s, tid, d).rat[t]) <= Mentioned(s.rat[t])
    ensures t != tid ==> Process(c, s, tid, d).rat[t] == s.rat[t]
  {
    hide Victim, Redirect, SetEntry;
    var row := s.rat[tid];
    var v := Victim(c, row, d);
    if !Capped(c, s) && v.Some? {
      assert Mapping(c, row[v.value]);
      var p := Redirect(c, row, v.value, d);
      if p.Some? && t == tid {
        var k: nat :| k < |row| && row[k] == Some(p.value);
        var after := row[v.value := Some(p.value)];
        forall x | x in Mentioned(after) ensures x in Mentioned(row) {
          var i :| 0 <= i < |after| && after[i].Some? && after[i].value == x;
          assert i == v.value ==> row[k].value == x;
          assert i != v.value ==> row[i].value == x;
        }
      }
    }
  }

  /** Register a now shares what b had and kept, which is not what a had. */
  predicate DoublyMapped(before: Row, after: Row, a: nat, b: nat) {
    && |before| == |after| && a < |after| && b < |after| && a != b
    && after[a] == after[b] == before[b] && after[a].Some? && after[a] != before[a]
  }

  /** A substitution that lands leaves residue: the victim shares a register it did not have before. */
  lemma SubstitutionDoubleMaps(c: Config, s: State, tid: nat, d: Draws)
    requires InRange(c, s) && tid < c.threads && c.mode != MapBitFlip
    requires Process(c, s, tid, d).faults > s.faults
    ensures |Process(c, s, tid, d).rat| == c.threads && |Process(c, s, tid, d).rat[tid]| == |s.rat[tid]|
    ensures exists a: nat, b: nat :: DoublyMapped(s.rat[tid], Process(c, s, tid, d).rat[tid], a, b)
  {
    hide Victim, SetEntry, Donor;
    var row := s.rat[tid];
    var a := Victim(c, row, d).value;
    assert Mapping(c, row[a]);
    var b := Donor(row, a, d.donors, |row|).value;
    var after := Process(c, s, tid, d).rat[tid];
    assert after == row[a := Some(row[b].value)];
    assert DoublyMapped(row, after, a, b);
  }
}
