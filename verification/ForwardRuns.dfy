/** The forwarding injector as a state machine: what every forward is served, and when faults land. */
module ForwardRuns {
  import opened Options
  import opened IntArith
  import opened ForwardRing
  import opened ForwardSpec

  // ---- Which bytes a forward is served --------------------------------------------------------

  /** The depths searched, in order: from the phase offset, or else from the newest store, up to seven. */
  predicate FoundAt(c: Config, history: seq<Store>, size: nat, i: int) {
    && (if c.source == PhaseOffset then c.phaseOffset else 0) <= i < 8
    && Large(history, i % 8, size)
    && forall e :: (if c.source == PhaseOffset then c.phaseOffset else 0) <= e < i ==> !Large(history, e % 8, size)
  }

  /** There is a store d places back and it has at least size bytes. */
  predicate Large(history: seq<Store>, d: int, size: nat) {
    0 <= d < |history| && size <= |history[|history| - 1 - d].data|
  }

  lemma {:induction false} PickFinds(history: seq<Store>, start: int, size: nat, i: int)
    requires start <= i < SLOTS && Fits(history, i % SLOTS, size)
    requires forall e :: start <= e < i ==> !Fits(history, e % SLOTS, size)
    ensures Pick(history, start, size) == Some(i % SLOTS)
    decreases i - start
  {
    hide Fits;
    if start < i {
      PickFinds(history, start + 1, size, i);
    }
  }

  lemma {:induction false} PickMisses(history: seq<Store>, start: int, size: nat)
    requires forall e :: start <= e < SLOTS ==> !Fits(history, e % SLOTS, size)
    ensures Pick(history, start, size) == None
    decreases SLOTS - start
  {
    hide Fits;
    if start < SLOTS {
      PickMisses(history, start + 1, size);
    }
  }

  /**
   * The bytes of a fault-fired forward: the first size bytes of the first store, in search order,
   * that is large enough, and the current data when there is none.
   */
  lemma ServedBytes(c: Config, history: seq<Store>, cur: Option<seq<bv8>>, size: nat, i: int)
    ensures FoundAt(c, history, size, i) ==>
      var served := Served(history, StartDepth(c), cur, size);
      && served.Some? && |served.value| == size
      && forall k: nat :: k < size ==> served.value[k] == history[|history| - 1 - i % 8].data[k]
    ensures (forall e: int :: !FoundAt(c, history, size, e)) ==>
      Served(history, StartDepth(c), cur, size) == cur
  {
    hide Pick, Large, Fits;
    forall d: int ensures Large(history, d, size) == Fits(history, d, size) {
      LargeIff(history, d, size);
    }
    if FoundAt(c, history, size, i) {
      PickFinds(history, StartDepth(c), size, i);
      PickFits(history, StartDepth(c), size);
    }
    if forall e: int :: !FoundAt(c, history, size, e) {
      NoneFound(c, history, size);
      PickMisses(history, StartDepth(c), size);
    }
  }

  lemma LargeIff(history: seq<Store>, d: int, size: nat)
    ensures Large(history, d, size) == Fits(history, d, size)
  {
  }

  lemma PickFits(history: seq<Store>, start: int, size: nat)
    ensures Pick(history, start, size).Some? ==>
      var d := Pick(history, start, size).value;
      d < |history| && size <= |history[|history| - 1 - d].data|
  {
  }

  /** If the search finds nothing, nothing it looks at fits. */
  lemma NoneFound(c: Config, history: seq<Store>, size: nat)
    requires forall e: int :: !FoundAt(c, history, size, e)
    ensures forall e :: StartDepth(c) <= e < SLOTS ==> !Fits(history, e % SLOTS, size)
  {
    hide Large, Fits;
    forall e | StartDepth(c) <= e < SLOTS ensures !Fits(history, e % SLOTS, size) {
      NotFound(c, history, size, e);
      LargeIff(history, e % SLOTS, size);
    }
  }

  lemma {:induction false} NotFound(c: Config, history: seq<Store>, size: nat, e: int)
    requires forall i: int :: !FoundAt(c, history, size, i)
    requires StartDepth(c) <= e < SLOTS
    ensures !Large(history, e % SLOTS, size)
    decreases e - StartDepth(c)
  {
    hide Large;
    forall i | StartDepth(c) <= i < e ensures !Large(history, i % 8, size) {
      NotFound(c, history, size, i);
    }
    assert !FoundAt(c, history, size, e);
  }

  // ---- Runs -----------------------------------------------------------------------------------

  /** A forward passing the source hook, or forwarded bytes passing the corruption hook. */
  datatype Event =
    | Source(cur: Option<seq<bv8>>, size: nat, vaddr: nat, cycle: nat, gate: real)
    | Bytes(size: nat, cycle: nat, gate: real)

  datatype State = State(history: seq<Store>, count: nat)

  predicate Substitutes(c: Config, s: State, e: Event)
    requires e.Source?
  {
    c.source != NoSource && Fires(c, s.count, e.cycle, e.gate)
  }

  function Next(c: Config, s: State, e: Event): State {
    match e
    case Source(cur, size, vaddr, cycle, gate) =>
      var history := Recorded(s.history, cur, size, vaddr);
      State(history,
            if Substitutes(c, s, e) && Pick(history, StartDepth(c), size).Some? then s.count + 1 else s.count)
    case Bytes(size, cycle, gate) =>
      if Fires(c, s.count, cycle, gate) && size > 0 then s.(count := s.count + 1) else s
  }

  /** What a forward is served. */
  function Result(c: Config, s: State, e: Event): Option<seq<bv8>>
    requires e.Source?
  {
    if Substitutes(c, s, e) then
      Served(Recorded(s.history, e.cur, e.size, e.vaddr), StartDepth(c), e.cur, e.size)
    else e.cur
  }

  function Run(c: Config, events: seq<Event>): State {
    if events == [] then State([], 0) else Next(c, Run(c, events[..|events| - 1]), events[|events| - 1])
  }

  /** The stores of a run: every non-null forward of 1 to 64 bytes that passed the source hook. */
  function Stores(events: seq<Event>): seq<Store> {
    if events == [] then []
    else
      var e := events[|events| - 1];
      var earlier := Stores(events[..|events| - 1]);
      if e.Source? && e.cur.Some? && 1 <= e.size <= 64 then earlier + [Store(e.cur.value, e.vaddr)] else earlier
  }

  /** The history is those stores in order, whatever faults fired. */
  lemma {:induction false} HistoryIsStores(c: Config, events: seq<Event>)
    ensures Run(c, events).history == Stores(events)
  {
    hide Pick, Fires;
    if events != [] {
      HistoryIsStores(c, events[..|events| - 1]);
    }
  }

  predicate InWindow(c: Config, cycle: nat) {
    c.firstClock <= cycle && (cycle <= c.lastClock || c.lastClock == 0)
  }

  /** The events of a run inside the injection window. */
  function Inside(c: Config, events: seq<Event>): set<nat> {
    set i: nat | i < |events| && InWindow(c, events[i].cycle)
  }

  /** Outside the window a forward is served as it is and nothing is counted, whatever came before. */
  lemma OutsideInert(c: Config, s: State, e: Event)
    requires !InWindow(c, e.cycle)
    ensures Next(c, s, e).count == s.count
    ensures e.Source? ==> Result(c, s, e) == e.cur
  {
    hide Pick, Served, Recorded;
  }

  /** When a hook counts a fault: window, cap and gate, and something to substitute or to corrupt. */
  lemma FiresIff(c: Config, s: State, e: Event)
    ensures Next(c, s, e).count == s.count + 1 <==>
      && InWindow(c, e.cycle) && (c.maxFaults == 0 || s.count < c.maxFaults)
      && 0.0 < c.probability && e.gate < c.probability
      && match e
         case Source(cur, size, vaddr, _, _) =>
           c.source != NoSource && exists i: int :: FoundAt(c, Recorded(s.history, cur, size, vaddr), size, i)
         case Bytes(size, _, _) => size > 0
  {
    hide Recorded, FoundAt, Pick;
    if e.Source? {
      FoundIff(c, Recorded(s.history, e.cur, e.size, e.vaddr), e.size);
    }
  }

  lemma FoundIff(c: Config, history: seq<Store>, size: nat)
    ensures Pick(history, StartDepth(c), size).Some? <==> exists i: int :: FoundAt(c, history, size, i)
  {
    hide Large, Fits, Pick;
    if i: int :| FoundAt(c, history, size, i) {
      forall d: int ensures Large(history, d, size) == Fits(history, d, size) {
        LargeIff(history, d, size);
      }
      PickFinds(history, StartDepth(c), size, i);
    } else {
      NoneFound(c, history, size);
      PickMisses(history, StartDepth(c), size);
    }
  }

  /**
   * Over every run of both hooks: at most one fault for each event inside the window, and never
   * more than the cap they share.
   */
  lemma {:induction false} FaultsInWindow(c: Config, events: seq<Event>)
    ensures Run(c, events).count <= |Inside(c, events)|
    ensures c.maxFaults != 0 ==> Run(c, events).count <= c.maxFaults
  {
    hide Pick, Recorded, Inside;
    if events != [] {
      var n := |events| - 1;
      FaultsInWindow(c, events[..n]);
      InsideStep(c, events, n);
    }
  }

  lemma InsideStep(c: Config, events: seq<Event>, n: nat)
    requires |events| == n + 1
    ensures |Inside(c, events)| == |Inside(c, events[..n])| + if InWindow(c, events[n].cycle) then 1 else 0
  {
    hide InWindow;
    forall k: nat | k < n ensures events[..n][k] == events[k] {
    }
    OneMore(Inside(c, events), Inside(c, events[..n]), n, InWindow(c, events[n].cycle));
  }
}
