/** What a lookup fault leaves in its entry, and when in a run faults land. */
module TlbEffects {
  import opened ByteWindow
  import opened Bits
  import opened IntArith
  import opened TlbInjector

  /** Inside the injection window; a last tick of zero leaves it open. */
  predicate InWindow(c: Config, now: nat) {
    c.firstTick <= now && (now <= c.lastTick || c.lastTick == 0)
  }

  /** The entries a substitution may copy, below position n. */
  function DonorsBelow(table: seq<Entry>, self: nat, n: nat): set<nat>
    requires self < |table| && n <= |table|
  {
    set k: nat | k < n && k != self && table[k].valid && table[k].page.size == table[self].page.size
  }

  /** The drawn donor: as many donors stand before it as the draw says, modulo their number. */
  predicate DrawnDonor(table: seq<Entry>, self: nat, pick: nat, k: nat)
    requires self < |table|
  {
    var all := |DonorsBelow(table, self, |table|)|;
    && k < |table| && k in DonorsBelow(table, self, |table|)
    && all > 0 && |DonorsBelow(table, self, k)| == pick % all
  }

  lemma {:induction false} DonorsCounted(table: seq<Entry>, self: nat, n: nat)
    requires self < |table| && n <= |table|
    ensures |Donors(table, self, n)| == |DonorsBelow(table, self, n)|
  {
    hide Donors;
    DonorsLength(table, self, n);
    if n == 0 {
      assert DonorsBelow(table, self, 0) == {};
    } else {
      DonorsCounted(table, self, n - 1);
      DonorsStep(table, self, n);
    }
  }

  lemma DonorsStep(table: seq<Entry>, self: nat, n: nat)
    requires self < |table| && 0 < n <= |table|
    ensures |DonorsBelow(table, self, n)|
         == |DonorsBelow(table, self, n - 1)| + if IsDonor(table, self, n - 1) then 1 else 0
  {
    OneMore(DonorsBelow(table, self, n), DonorsBelow(table, self, n - 1), n - 1, IsDonor(table, self, n - 1));
  }

  lemma DonorsLength(table: seq<Entry>, self: nat, n: nat)
    requires self < |table| && n <= |table|
    ensures |Donors(table, self, n)|
         == if n == 0 then 0 else |Donors(table, self, n - 1)| + if IsDonor(table, self, n - 1) then 1 else 0
  {
  }

  /** The frame that a mode puts in place of the one it finds, bit by bit where the mode works on bits. */
  ghost predicate Replaces(c: Config, table: seq<Entry>, self: nat, d: Draws, frame: bv64)
    requires self < |table|
  {
    match c.mode
    case MappedPage => exists k: nat :: DrawnDonor(table, self, d.pick, k) && frame == table[k].page.pfn
    case PfnOffset(o) => frame == table[self].page.pfn + o
    case OtherField => false
    case PfnBits =>
      d.mask != 0 && forall j: nat :: Bit(frame, j) == Faulty(d.fault, Bit(table[self].page.pfn, j), Bit(d.mask, j))
  }

  lemma {:induction false} DonorIsDrawn(table: seq<Entry>, self: nat, n: nat, i: nat) returns (k: nat)
    requires self < |table| && n <= |table| && i < |Donors(table, self, n)|
    ensures k < n && k in DonorsBelow(table, self, |table|) && |DonorsBelow(table, self, k)| == i
    ensures Donors(table, self, n)[i] == table[k].page.pfn
    decreases n
  {
    DonorsCounted(table, self, n - 1);
    if i < |Donors(table, self, n - 1)| {
      k := DonorIsDrawn(table, self, n - 1, i);
    } else {
      k := n - 1;
    }
  }

  lemma DonorDrawn(table: seq<Entry>, self: nat, pick: nat) returns (k: nat)
    requires self < |table| && Donor(table, self, pick).Some?
    ensures DrawnDonor(table, self, pick, k) && k < |table| && Donor(table, self, pick).value == table[k].page.pfn
  {
    hide Donors;
    DonorsCounted(table, self, |table|);
    k := DonorIsDrawn(table, self, |table|, pick % |Donors(table, self, |table|)|);
  }

  lemma WantedReplaces(c: Config, table: seq<Entry>, self: nat, d: Draws)
    requires self < |table|
    ensures Wanted(c, table, self, d).Some? ==> Replaces(c, table, self, d, Wanted(c, table, self, d).value)
  {
    hide Donor, ApplyWord, Bit, Faulty, DrawnDonor;
    if c.mode == MappedPage {
      if Donor(table, self, d.pick).Some? {
        var k := DonorDrawn(table, self, d.pick);
        assert DrawnDonor(table, self, d.pick, k);
      }
    } else if c.mode == PfnBits {
      MaskedFrame(d.fault, table[self].page.pfn, d.mask);
    }
  }

  lemma MaskedFrame(f: Fault, v: bv64, m: bv64)
    ensures forall j: nat :: Bit(ApplyWord(f, v, m), j) == Faulty(f, Bit(v, j), Bit(m, j))
  {
    hide ApplyWord, Bit, Faulty;
    forall j: nat ensures Bit(ApplyWord(f, v, m), j) == Faulty(f, Bit(v, j), Bit(m, j)) {
      WordBit(f, v, m, j);
    }
  }

  /** Parity sees a change of exactly one bit. */
  predicate Caught(c: Config, before: bv64, after: bv64) {
    c.parity && |Ones(before ^ after)| == 1
  }

  lemma CaughtIff(c: Config, before: bv64, after: bv64)
    ensures Caught(c, before, after) <==> c.parity && OneBitDelta(before, after)
  {
    hide Ones, PopCount;
    PopCountIsOnes(before ^ after);
  }

  /**
   * One lookup, exactly.  If it fires, the frame found is replaced by the one the mode asks for:
   * a live entry's, the old one plus the offset, or the old one with the masked bits faulted.
   * Only a change that parity catches is taken back, at the price of the entry.
   */
  lemma FrameAfter(c: Config, s: State, k: nat, now: nat, d: Draws)
    requires k < |s.table| && c.mode != OtherField
    ensures var r := Lookup(c, s, k, now, d);
      if r.faults == s.faults then r == s
      else
        exists frame: bv64 ::
          && Replaces(c, s.table, k, d, frame)
          && (if Caught(c, s.table[k].page.pfn, frame)
              then r.table[k] == s.table[k].(valid := false)
              else r.table[k] == s.table[k].(page := Page(frame, s.table[k].page.size)))
  {
    hide OneBitDelta, Gate, Wanted, Replaces, Caught;
    WantedReplaces(c, s.table, k, d);
    var w := Wanted(c, s.table, k, d);
    if w.Some? {
      CaughtIff(c, s.table[k].page.pfn, w.value);
    }
  }

  /** When a lookup faults: inside the window, under the cap, past the gate, with something to write. */
  lemma FiresIff(c: Config, s: State, k: nat, now: nat, d: Draws)
    requires k < |s.table|
    ensures Lookup(c, s, k, now, d).faults == s.faults + 1 <==>
      && InWindow(c, now) && (c.maxFaults == 0 || s.faults < c.maxFaults)
      && 0.0 < c.probability && d.gate < c.probability
      && match c.mode
         case MappedPage => DonorsBelow(s.table, k, |s.table|) != {}
         case PfnOffset(_) => true
         case OtherField => true
         case PfnBits => d.mask != 0
  {
    hide OneBitDelta, ApplyWord, Donors, DonorsBelow;
    DonorsCounted(s.table, k, |s.table|);
    assert Donors(s.table, k, |s.table|) == [] <==> |Donors(s.table, k, |s.table|)| == 0;
  }

  /** A fault in another field replaces that field and nothing else. */
  lemma FieldAfter(c: Config, s: State, k: nat, now: nat, d: Draws)
    requires k < |s.table| && c.mode == OtherField
    ensures var r := Lookup(c, s, k, now, d);
      if r.faults == s.faults then r == s
      else
        var after := Entry(s.table[k].valid, s.table[k].page, d.attributes);
        r == s.(table := s.table[k := after], faults := s.faults + 1)
  {
    hide Gate;
  }

  // ---- The window, over whole runs ------------------------------------------------------------

  /** A run without its lookups outside the window. */
  function Inside(c: Config, steps: seq<Step>): seq<Step> {
    if steps == [] then []
    else
      var last := steps[|steps| - 1];
      Inside(c, steps[..|steps| - 1]) + if last.Hit? && !InWindow(c, last.now) then [] else [last]
  }

  /**
   * Lookups before the first tick or after a nonzero last one take no part: leaving them out of
   * any run ends in the same table and the same counters.
   */
  lemma {:induction false} WindowInert(c: Config, entries: nat, steps: seq<Step>)
    ensures Run(c, entries, Inside(c, steps)) == Run(c, entries, steps)
  {
    hide Wanted, Overwritten, Attributed;
    if steps != [] {
      var front, last := steps[..|steps| - 1], steps[|steps| - 1];
      WindowInert(c, entries, front);
      if last.Hit? && !InWindow(c, last.now) {
        assert Inside(c, steps) == Inside(c, front);
      } else {
        assert Inside(c, steps) == Inside(c, front) + [last];
        assert Inside(c, steps)[..|Inside(c, front)|] == Inside(c, front);
      }
    }
  }
}
