/**
 * The store-to-load forwarding injector: source substitution from the store history and
 * corruption of the forwarded bytes, under one shared fault budget.
 */
module ForwardSpec {
  import opened Options
  import opened ByteWindow
  import opened Injection
  import opened WindowFaults
  import opened ForwardRing

  datatype SourceFault = NoSource | FwdSourceSub | StaleLineReplay | PhaseOffset
  datatype Structural = NoStructural | ByteLaneSkew | AllZero

  datatype Config = Config(
    probability: real,
    firstClock: nat,
    lastClock: nat,
    maxFaults: nat,
    source: SourceFault,
    phaseOffset: int,
    structural: Structural,
    skewBytes: int,
    byteOffset: int,
    maskWidth: int)

  /** The gates common to both entry points. */
  predicate Fires(c: Config, count: nat, cycle: nat, gate: real) {
    Opens(c.probability, c.firstClock, c.lastClock, c.maxFaults, count, cycle, gate)
  }

  function StartDepth(c: Config): int {
    if c.source == PhaseOffset then c.phaseOffset else 0
  }

  /** The history after a forward: every non-null forward that fits a slot is recorded. */
  function Recorded(history: seq<Store>, cur: Option<seq<bv8>>, size: nat, vaddr: nat): seq<Store> {
    if cur.Some? && Recordable(size) then history + [Store(cur.value, vaddr)] else history
  }

  /** What a forward is served, as a function of the history: a stored prefix or the current data. */
  function Served(history: seq<Store>, start: int, cur: Option<seq<bv8>>, size: nat): Option<seq<bv8>> {
    match Pick(history, start, size)
    case Some(d) => Some(history[|history| - 1 - d].data[..size])
    case None => cur
  }

  /**
   * Wrong-store forwarding and stale-line replay start at depth 0, so for a non-null forward
   * they always serve the bytes that were going to be forwarded anyway.
   */
  lemma SubstitutionServesCurrent(history: seq<Store>, c: Config, cur: seq<bv8>, vaddr: nat)
    requires c.source != PhaseOffset
    requires forall k: nat :: k < |history| ==> |history[k].data| <= SLOT_BYTES
    ensures Served(Recorded(history, Some(cur), |cur|, vaddr), StartDepth(c), Some(cur), |cur|) == Some(cur)
  {
    if Recordable(|cur|) {
      FreshIsPicked(history, Store(cur, vaddr));
      assert cur[..|cur|] == cur;
    } else if |cur| == 0 {
      assert cur == [];
    } else {
      TooWide(history, 0, |cur|);
    }
  }

  /** Some store older than the fresh one is deep enough and large enough. */
  ghost predicate OlderFits(history: seq<Store>, depth: int, size: nat) {
    exists e: nat :: depth <= e + 1 < SLOTS && Fits(history, e, size)
  }

  lemma OlderFromDepth(history: seq<Store>, start: int, cur: seq<bv8>, vaddr: nat)
    requires 0 <= start && Recordable(|cur|)
    ensures var p := Pick(history + [Store(cur, vaddr)], start, |cur|);
      && (start == 0 ==> p == Some(0))
      && (start > 0 ==> (p.Some? <==> OlderFits(history, start, |cur|)) && (p.Some? ==> p.value > 0))
  {
    hide Pick, Fits;
    var s := Store(cur, vaddr);
    var h := history + [s];
    forall e: nat | e > 0 ensures Fits(h, e, |cur|) == Fits(history, e - 1, |cur|) {
      FitsAppend(history, s, e, |cur|);
    }
    if start == 0 {
      FreshIsPicked(history, s);
    } else {
      PickIsNewest(h, start, |cur|, 0);
      if e: nat :| start <= e + 1 < SLOTS && Fits(history, e, |cur|) {
        assert Fits(h, e + 1, |cur|);
      }
      if Pick(h, start, |cur|).Some? {
        var d := Pick(h, start, |cur|).value;
        PickIsNewest(h, start, |cur|, d);
        assert Fits(history, d - 1, |cur|);
      }
    }
  }

  lemma FitsAppend(history: seq<Store>, s: Store, e: nat, size: nat)
    requires e > 0
    ensures Fits(history + [s], e, size) == Fits(history, e - 1, size)
  {
  }

  /**
   * For every phase offset, negative ones included: an older store is served exactly when the walk
   * does not begin at the fresh one, is not past the ring, and an older store at the wrapped depth
   * or deeper fits.
   */
  lemma OlderServedIff(history: seq<Store>, start: int, cur: seq<bv8>, vaddr: nat)
    requires Recordable(|cur|)
    ensures (exists d: nat :: d > 0 && Pick(history + [Store(cur, vaddr)], start, |cur|) == Some(d))
      <==> start < SLOTS && start % SLOTS > 0 && OlderFits(history, start % SLOTS, |cur|)
  {
    hide Pick, OlderFits;
    var h := history + [Store(cur, vaddr)];
    PickBeyond(h, start, |cur|);
    if start < SLOTS {
      OlderFromDepth(history, start % SLOTS, cur, vaddr);
      if start < 0 {
        NegativeStart(h, start, |cur|);
        FreshIsPicked(history, Store(cur, vaddr));
      }
      if Pick(h, start, |cur|).Some? {
        assert Pick(h, start, |cur|) == Some(Pick(h, start, |cur|).value);
      }
    }
  }

  lemma PickBeyond(history: seq<Store>, start: int, size: nat)
    ensures start >= SLOTS ==> Pick(history, start, size) == None
  {
  }

  // ---- Forwarded bytes ----------------------------------------------------------------------

  function Zeros(n: nat): seq<bv8> {
    seq(n, _ => 0)
  }

  /** What a fault does to forwarded bytes. */
  function Corrupted(c: Config, data: seq<bv8>, skew: int, byte: nat, f: Fault, mask: bv64): (r: seq<bv8>)
    requires byte < |data|
    ensures |r| == |data|
  {
    match c.structural
    case ByteLaneSkew => Rotate(data, SkewAmount(c.skewBytes, skew, |data|))
    case AllZero => Zeros(|data|)
    case NoStructural =>
      var w := ForwardWindow(c.byteOffset, byte, c.maskWidth, |data|);
      data[..w.off] + Faulted(f, data[w.off..w.off + w.width], mask) + data[w.off + w.width..]
  }
}
