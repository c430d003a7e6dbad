/**
 * The TLB injector: page-frame substitution, offset, bit faults and attribute faults on a
 * lookup hit, with the parity proxy, against fills and evictions by the page walker.
 */
module TlbInjector {
  import opened Options
  import opened ByteWindow
  import opened Injection

  datatype Mode = MappedPage | PfnOffset(offset: bv64) | OtherField | PfnBits

  datatype Config = Config(
    mode: Mode,
    parity: bool,
    probability: real,
    firstTick: nat,
    lastTick: nat,
    maxFaults: nat)

  /** A translation: what a fill installs. */
  datatype Page = Page(pfn: bv64, size: nat)

  datatype Entry = Entry(valid: bool, page: Page, attributes: bv64)

  /** One lookup's random choices. */
  datatype Draws = Draws(gate: real, pick: nat, fault: Fault, mask: bv64, attributes: bv64)

  // ---- Donor choice -------------------------------------------------------------------------

  predicate IsDonor(table: seq<Entry>, self: nat, k: nat)
    requires self < |table|
  {
    k < |table| && k != self && table[k].valid && table[k].page.size == table[self].page.size
  }

  /** Frames of the donors among the first n entries, in table order. */
  function Donors(table: seq<Entry>, self: nat, n: nat): (r: seq<bv64>)
    requires self < |table| && n <= |table|
    ensures forall p :: p in r ==> exists k: nat :: k < n && IsDonor(table, self, k) && table[k].page.pfn == p
    ensures (exists k: nat :: k < n && IsDonor(table, self, k)) ==> r != []
  {
    if n == 0 then []
    else Donors(table, self, n - 1) + if IsDonor(table, self, n - 1) then [table[n - 1].page.pfn] else []
  }

  /** The substituted frame, or none when no other valid entry has the page size. */
  function Donor(table: seq<Entry>, self: nat, pick: nat): (r: Option<bv64>)
    requires self < |table|
    ensures r.None? <==> forall k: nat :: k < |table| ==> !IsDonor(table, self, k)
    ensures r.Some? ==> exists k: nat :: k < |table| && IsDonor(table, self, k) && table[k].page.pfn == r.value
  {
    var cands := Donors(table, self, |table|);
    if cands == [] then None
    else
      assert cands[pick % |cands|] in cands;
      Some(cands[pick % |cands|])
  }

  method PickMappedPage(table: array<Entry>, self: nat, pick: nat) returns (r: Option<bv64>)
    requires self < table.Length
    ensures r == Donor(table[..], self, pick)
  {
    var cands: seq<bv64> := [];
    for k := 0 to table.Length
      invariant cands == Donors(table[..], self, k)
    {
      if table[k].valid && k != self && table[k].page.size == table[self].page.size {
        cands := cands + [table[k].page.pfn];
      }
    }
    if cands == [] {
      return None;
    }
    return Some(cands[pick % |cands|]);
  }

  // ---- One lookup hit ---------------------------------------------------------------------------

  predicate OneBitDelta(before: bv64, after: bv64) {
    PopCount(before ^ after) == 1
  }

  datatype State = State(
    table: seq<Entry>,
    faults: nat,
    detected: nat,
    escaped: nat)

  /** A frame was overwritten: parity catches a one-bit delta, restores the frame and drops the entry. */
  function Overwritten(c: Config, s: State, k: nat, pfn: bv64): (r: State)
    requires k < |s.table|
    ensures |r.table| == |s.table| && r.faults == s.faults + 1
    ensures forall i: nat :: i < |s.table| && i != k ==> r.table[i] == s.table[i]
  {
    var e := s.table[k];
    if c.parity && OneBitDelta(e.page.pfn, pfn) then
      s.(table := s.table[k := e.(valid := false)], faults := s.faults + 1, detected := s.detected + 1)
    else
      s.(table := s.table[k := e.(page := Page(pfn, e.page.size))], faults := s.faults + 1,
         escaped := s.escaped + if c.parity then 1 else 0)
  }

  /** Frame plus offset, modulo 2^64. */
  function Shifted(pfn: bv64, offset: bv64): bv64 {
    pfn + offset
  }

  function Attributed(s: State, k: nat, attributes: bv64): (r: State)
    requires k < |s.table|
    ensures |r.table| == |s.table| && r.faults == s.faults + 1
  {
    s.(table := s.table[k := s.table[k].(attributes := attributes)], faults := s.faults + 1)
  }

  /** The frame a mode wants to write, if any. */
  function Wanted(c: Config, table: seq<Entry>, k: nat, d: Draws): Option<bv64>
    requires k < |table|
  {
    match c.mode
    case MappedPage => Donor(table, k, d.pick)
    case PfnOffset(o) => Some(Shifted(table[k].page.pfn, o))
    case OtherField => None
    case PfnBits => if d.mask == 0 then None else Some(ApplyWord(d.fault, table[k].page.pfn, d.mask))
  }

  predicate Gate(c: Config, s: State, now: nat, d: Draws) {
    Opens(c.probability, c.firstTick, c.lastTick, c.maxFaults, s.faults, now, d.gate)
  }

  /** The whole lookup hook. */
  function Lookup(c: Config, s: State, k: nat, now: nat, d: Draws): (r: State)
    requires k < |s.table|
    ensures |r.table| == |s.table|
  {
    if !Gate(c, s, now, d) then s
    else if c.mode == OtherField then Attributed(s, k, d.attributes)
    else
      match Wanted(c, s.table, k, d)
      case None => s
      case Some(pfn) => Overwritten(c, s, k, pfn)
  }

  // ---- Runs -----------------------------------------------------------------------------------------

  datatype Step =
    | Fill(k: nat, page: Page, attributes: bv64)
    | Evict(k: nat)
    | Hit(k: nat, now: nat, draws: Draws)

  function Next(c: Config, s: State, step: Step): (r: State)
    ensures |r.table| == |s.table|
  {
    if step.k >= |s.table| then s
    else
      match step
      case Fill(k, p, a) => s.(table := s.table[k := Entry(true, p, a)])
      case Evict(k) => s.(table := s.table[k := s.table[k].(valid := false)])
      case Hit(k, now, d) => Lookup(c, s, k, now, d)
  }

  function Empty(entries: nat): State {
    State(seq(entries, _ => Entry(false, Page(0, 0), 0)), 0, 0, 0)
  }

  /** The state after any interleaving of fills, evictions and lookup hits. */
  function Run(c: Config, entries: nat, steps: seq<Step>): (r: State)
    ensures |r.table| == entries
  {
    if steps == [] then Empty(entries)
    else Next(c, Run(c, entries, steps[..|steps| - 1]), steps[|steps| - 1])
  }

  /** The pages a run filled the TLB with. */
  function Filled(steps: seq<Step>): set<Page> {
    set i | 0 <= i < |steps| && steps[i].Fill? :: steps[i].page
  }

  ghost predicate Closed(s: State, pages: set<Page>) {
    forall k: nat :: k < |s.table| && s.table[k].valid ==> s.table[k].page in pages
  }

  predicate LegalDomain(m: Mode) {
    m == MappedPage || m == OtherField
  }

  lemma LookupClosed(c: Config, s: State, k: nat, now: nat, d: Draws, pages: set<Page>)
    requires k < |s.table| && LegalDomain(c.mode) && Closed(s, pages)
    ensures Closed(Lookup(c, s, k, now, d), pages)
  {
    hide OneBitDelta, Gate, ApplyWord;
    if c.mode == MappedPage {
      var donor := Donor(s.table, k, d.pick);
      if donor.Some? {
        var j: nat :| j < |s.table| && IsDonor(s.table, k, j) && s.table[j].page.pfn == donor.value;
        assert s.table[j].page in pages;
        assert s.table[j].page == Page(donor.value, s.table[k].page.size);
      }
    }
  }

  lemma FilledAppend(steps: seq<Step>)
    requires steps != []
    ensures Filled(steps[..|steps| - 1]) <= Filled(steps)
    ensures steps[|steps| - 1].Fill? ==> steps[|steps| - 1].page in Filled(steps)
  {
    var front := steps[..|steps| - 1];
    forall p | p in Filled(front) ensures p in Filled(steps) {
      var i :| 0 <= i < |front| && front[i].Fill? && front[i].page == p;
      assert steps[i] == front[i];
    }
  }

  /**
   * With live-page substitution, however many faults fire among the fills and evictions, every
   * valid entry maps to a page (frame and size together) that was really filled.
   */
  lemma {:induction false} EveryEntryWasFilled(c: Config, entries: nat, steps: seq<Step>)
    requires LegalDomain(c.mode)
    ensures Closed(Run(c, entries, steps), Filled(steps))
  {
    hide Lookup, Filled;
    if steps != [] {
      var front, last := steps[..|steps| - 1], steps[|steps| - 1];
      var s := Run(c, entries, front);
      EveryEntryWasFilled(c, entries, front);
      FilledAppend(steps);
      if last.Hit? && last.k < entries {
        LookupClosed(c, s, last.k, last.now, last.draws, Filled(front));
      }
    }
  }

  /** A fault fires that would change the frame by one bit. */
  predicate OneBitWanted(c: Config, s: State, k: nat, now: nat, d: Draws)
    requires k < |s.table|
  {
    Gate(c, s, now, d) && var p := Wanted(c, s.table, k, d);
    p.Some? && OneBitDelta(s.table[k].page.pfn, p.value)
  }

  /**
   * Under parity, in every mode and from every state: a lookup never leaves a frame one bit away
   * from what it was; exactly the one-bit faults are detected; a detection leaves the original page
   * in an invalid entry; and a frame replaced is an escape.  Without a detection no entry is
   * invalidated.
   */
  lemma ParityDetects(c: Config, s: State, k: nat, now: nat, d: Draws)
    requires k < |s.table| && c.parity
    ensures var r := Lookup(c, s, k, now, d);
      && !OneBitDelta(s.table[k].page.pfn, r.table[k].page.pfn)
      && (r.detected == s.detected + 1 <==> OneBitWanted(c, s, k, now, d))
      && r.table[k].page.size == s.table[k].page.size
      && (r.detected != s.detected ==> r.table[k] == s.table[k].(valid := false) && r.escaped == s.escaped)
      && (r.table[k].page != s.table[k].page ==> r.escaped == s.escaped + 1)
      && (r.detected == s.detected ==> r.table[k].valid == s.table[k].valid)
      && forall i: nat :: i < |s.table| && i != k ==> r.table[i] == s.table[i]
  {
    hide OneBitDelta, Gate, ApplyWord, Donor, Shifted;
    XorSelf(s.table[k].page.pfn);
  }

  /** Budget, and under parity every frame fault is either detected or an escape: over all runs. */
  lemma {:induction false} FaultAccounting(c: Config, entries: nat, steps: seq<Step>)
    ensures var s := Run(c, entries, steps);
      && (c.maxFaults != 0 ==> s.faults <= c.maxFaults)
      && (c.parity && c.mode != OtherField ==> s.faults == s.detected + s.escaped)
      && (!c.parity || c.mode == OtherField ==> s.detected == 0 && s.escaped == 0)
  {
    hide OneBitDelta, Wanted;
    if steps != [] {
      FaultAccounting(c, entries, steps[..|steps| - 1]);
    }
  }

  /** A donor with the same frame is counted as a fault and as an escape, and changes nothing. */
  lemma SameFrameCountsAsEscape(c: Config, s: State, k: nat)
    requires k < |s.table| && c.parity
    ensures Overwritten(c, s, k, s.table[k].page.pfn)
         == s.(faults := s.faults + 1, escaped := s.escaped + 1)
  {
    var e := s.table[k];
    assert s.table[k := e] == s.table;
    XorSelf(e.page.pfn);
  }

  lemma XorSelf(p: bv64)
    ensures !OneBitDelta(p, p)
  {
    SameXor(p);
  }

  lemma SameXor(p: bv64)
    ensures p ^ p == 0
  {
  }

  // ---- The injector object ------------------------------------------------------------------------------

  class Injector {
    const config: Config
    const table: array<Entry>
    var faults: nat
    var detected: nat
    var escaped: nat

    function Snapshot(): State
      reads this, table
    {
      State(table[..], faults, detected, escaped)
    }

    constructor (config: Config, entries: nat)
      ensures this.config == config && fresh(table) && Snapshot() == Empty(entries)
    {
      this.config := config;
      table := new Entry[entries](_ => Entry(false, Page(0, 0), 0));
      faults, detected, escaped := 0, 0, 0;
    }

    /** Parity after a frame was written: returns whether the corruption survived. */
    method ApplyProtection(k: nat, oldPfn: bv64, newPfn: bv64) returns (survived: bool)
      requires k < table.Length
      modifies table, `detected, `escaped
      ensures survived <==> !(config.parity && OneBitDelta(oldPfn, newPfn))
      ensures survived ==> table[..] == old(table[..])
      ensures !survived ==>
        table[..] == old(table[..])[k := old(table[k]).(valid := false, page := Page(oldPfn, old(table[k]).page.size))]
      ensures detected == old(detected) + if survived then 0 else 1
      ensures escaped == old(escaped) + if survived && config.parity then 1 else 0
    {
      hide OneBitDelta;
      if !config.parity {
        return true;
      }
      if OneBitDelta(oldPfn, newPfn) {
        detected := detected + 1;
        table[k] := table[k].(page := Page(oldPfn, table[k].page.size));
        table[k] := table[k].(valid := false);
        return false;
      }
      escaped := escaped + 1;
      return true;
    }

    method Overwrite(k: nat, pfn: bv64)
      requires k < table.Length
      modifies this, table
      ensures Snapshot() == Overwritten(config, old(Snapshot()), k, pfn)
    {
      hide OneBitDelta;
      var oldPfn := table[k].page.pfn;
      table[k] := table[k].(page := Page(pfn, table[k].page.size));
      faults := faults + 1;
      var _ := ApplyProtection(k, oldPfn, pfn);
      assert table[..] == Overwritten(config, old(Snapshot()), k, pfn).table;
    }

    method ChangeAttributes(k: nat, attributes: bv64)
      requires k < table.Length
      modifies this, table
      ensures Snapshot() == Attributed(old(Snapshot()), k, attributes)
    {
      table[k] := table[k].(attributes := attributes);
      faults := faults + 1;
      assert table[..] == Attributed(old(Snapshot()), k, attributes).table;
    }

    method MaybeCorrupt(k: nat, now: nat, d: Draws)
      requires k < table.Length
      modifies this, table
      ensures Snapshot() == Lookup(config, old(Snapshot()), k, now, d)
    {
      hide Opens, Shifted, Attributed, OneBitDelta, ApplyWord, Donor, Overwritten;
      if !Opens(config.probability, config.firstTick, config.lastTick, config.maxFaults, faults, now, d.gate) {
        return;
      }
      match config.mode
      case MappedPage =>
        var donor := PickMappedPage(table, k, d.pick);
        if donor.Some? {
          Overwrite(k, donor.value);
        }
      case PfnOffset(o) =>
        Overwrite(k, Shifted(table[k].page.pfn, o));
      case OtherField =>
        ChangeAttributes(k, d.attributes);
      case PfnBits =>
        if d.mask != 0 {
          Overwrite(k, ApplyWord(d.fault, table[k].page.pfn, d.mask));
        }
    }
  }
}
