/**
 * The store history behind the forwarding injector: an eight-slot ring whose slots are
 * overwritten in place, against the unbounded history of recorded stores.
 */
module ForwardRing {
  import opened Options

  const SLOTS := 8
  const SLOT_BYTES := 64

  /** A recorded store. */
  datatype Store = Store(data: seq<bv8>, vaddr: nat)

  /** A ring slot: a fixed buffer of which the first size bytes are meaningful. */
  datatype Slot = Slot(data: seq<bv8>, size: nat, vaddr: nat, valid: bool)

  predicate Recordable(size: nat) {
    0 < size <= SLOT_BYTES
  }

  /** The slot i places behind the cursor; i may be negative or beyond one turn. */
  function Behind(next: nat, i: int): (k: nat)
    ensures k < SLOTS
  {
    (next - 1 - i + SLOTS) % SLOTS
  }

  predicate Holds(slot: Slot, s: Store) {
    && slot.valid
    && slot.size == |s.data| <= |slot.data|
    && slot.data[..slot.size] == s.data
    && slot.vaddr == s.vaddr
  }

  /** The ring holds exactly the newest eight stores of the history, and nothing else. */
  ghost predicate Agrees(ring: seq<Slot>, next: nat, history: seq<Store>) {
    && |ring| == SLOTS && next < SLOTS
    && (forall k: nat :: k < SLOTS ==> |ring[k].data| == SLOT_BYTES)
    && (forall d: nat :: d < SLOTS ==>
      if d < |history| then Holds(ring[Behind(next, d)], history[|history| - 1 - d])
      else !ring[Behind(next, d)].valid)
  }

  /** Overwrite one slot: bytes beyond the new size keep their old content. */
  function Overwrite(slot: Slot, s: Store): (r: Slot)
    requires |slot.data| == SLOT_BYTES && Recordable(|s.data|)
    ensures Holds(r, s) && |r.data| == SLOT_BYTES
  {
    Slot(s.data + slot.data[|s.data|..], |s.data|, s.vaddr, true)
  }

  lemma BehindNext(next: nat, d: nat)
    requires next < SLOTS && d < SLOTS
    ensures Behind((next + 1) % SLOTS, 0) == next
    ensures d > 0 ==> Behind((next + 1) % SLOTS, d) == Behind(next, d - 1) && Behind(next, d - 1) != next
  {
  }

  /** Recording one store into the slot under the cursor keeps the agreement. */
  lemma RecordKeeps(ring: seq<Slot>, next: nat, history: seq<Store>, s: Store)
    requires Agrees(ring, next, history) && Recordable(|s.data|)
    ensures Agrees(ring[next := Overwrite(ring[next], s)], (next + 1) % SLOTS, history + [s])
  {
    hide Overwrite, Holds, Behind;
    var after, n, h := ring[next := Overwrite(ring[next], s)], (next + 1) % SLOTS, history + [s];
    forall d: nat | d < SLOTS
      ensures if d < |h| then Holds(after[Behind(n, d)], h[|h| - 1 - d]) else !after[Behind(n, d)].valid
    {
      BehindNext(next, d);
      if d > 0 {
        var _ := Behind(next, d - 1);
        assert if d - 1 < |history| then Holds(ring[Behind(next, d - 1)], history[|history| - 1 - (d - 1)])
          else !ring[Behind(next, d - 1)].valid;
      }
    }
  }

  // ---- Serving -------------------------------------------------------------------------------

  /** What the search looks for: the store d places back, if there is one and it is large enough. */
  predicate Fits(history: seq<Store>, d: int, size: nat) {
    0 <= d < |history| && |history[|history| - 1 - d].data| >= size
  }

  /** The depth served: walking i from start to seven, depth i modulo eight. */
  function Pick(history: seq<Store>, start: int, size: nat): (r: Option<nat>)
    ensures r.Some? ==> r.value < SLOTS && Fits(history, r.value, size)
    decreases SLOTS - start
  {
    if start >= SLOTS then None
    else if Fits(history, start % SLOTS, size) then Some(start % SLOTS)
    else Pick(history, start + 1, size)
  }

  /** For a start depth of 0 to 7 the newest large-enough store at that depth or deeper is served. */
  lemma {:induction false} PickIsNewest(history: seq<Store>, start: int, size: nat, d: nat)
    requires 0 <= start
    ensures Pick(history, start, size) == Some(d) <==>
      start <= d < SLOTS && Fits(history, d, size) && forall e: nat :: start <= e < d ==> !Fits(history, e, size)
    ensures Pick(history, start, size) == None <==>
      forall e: nat :: start <= e < SLOTS ==> !Fits(history, e, size)
    decreases SLOTS - start
  {
    if start < SLOTS && !Fits(history, start, size) {
      PickIsNewest(history, start + 1, size, d);
    }
  }

  lemma PickUnfold(history: seq<Store>, start: int, size: nat)
    ensures Pick(history, start, size)
         == if start >= SLOTS then None
            else if Fits(history, start % SLOTS, size) then Some(start % SLOTS)
            else Pick(history, start + 1, size)
  {
  }

  lemma NextDepth(start: int)
    ensures start % SLOTS % SLOTS == start % SLOTS < SLOTS
    ensures (start + 1) % SLOTS == if start % SLOTS + 1 < SLOTS then start % SLOTS + 1 else 0
  {
  }

  /** A negative start depth, however low, wraps: the walk runs to the oldest slot first and then starts over. */
  lemma {:induction false} NegativeStart(history: seq<Store>, start: int, size: nat)
    requires start < 0
    ensures Pick(history, start, size)
         == if Pick(history, start % SLOTS, size).Some? then Pick(history, start % SLOTS, size)
            else Pick(history, 0, size)
    decreases -start
  {
    hide Pick, Fits;
    var r := start % SLOTS;
    NextDepth(start);
    PickUnfold(history, start, size);
    PickUnfold(history, r, size);
    PickUnfold(history, SLOTS, size);
    if start + 1 < 0 {
      NegativeStart(history, start + 1, size);
    }
  }

  /** With start depth 0 the store just recorded is the one picked, whatever the history. */
  lemma FreshIsPicked(history: seq<Store>, s: Store)
    ensures Pick(history + [s], 0, |s.data|) == Some(0)
  {
    assert (history + [s])[|history|] == s;
  }

  /** No store fits a forward wider than a slot. */
  lemma {:induction false} TooWide(history: seq<Store>, start: int, size: nat)
    requires size > SLOT_BYTES && forall k: nat :: k < |history| ==> |history[k].data| <= SLOT_BYTES
    ensures Pick(history, start, size) == None
    decreases SLOTS - start
  {
    if start < SLOTS {
      var d := start % SLOTS;
      if d < |history| {
        assert |history[|history| - 1 - d].data| <= SLOT_BYTES;
      }
      TooWide(history, start + 1, size);
    }
  }

  lemma BehindWraps(next: nat, i: int)
    ensures Behind(next, i) == Behind(next, i % SLOTS)
  {
  }

  /** Testing one slot of the ring tests one depth of the history. */
  lemma SlotTest(ring: seq<Slot>, next: nat, history: seq<Store>, i: int, size: nat)
    requires Agrees(ring, next, history)
    ensures ring[Behind(next, i)].valid && ring[Behind(next, i)].size >= size <==> Fits(history, i % SLOTS, size)
    ensures Fits(history, i % SLOTS, size) ==> Holds(ring[Behind(next, i)], history[|history| - 1 - i % SLOTS])
  {
    hide Behind;
    BehindWraps(next, i);
    var d: nat := i % SLOTS;
    assert if d < |history| then Holds(ring[Behind(next, d)], history[|history| - 1 - d])
      else !ring[Behind(next, d)].valid;
  }

  lemma HoldsPrefix(slot: Slot, s: Store, size: nat)
    requires Holds(slot, s) && size <= |s.data|
    ensures size <= |slot.data| && slot.data[..size] == s.data[..size]
  {
    assert slot.data[..size] == slot.data[..slot.size][..size];
  }

  function EmptySlots(n: nat): (r: seq<Slot>)
    ensures |r| == n && forall k: nat :: k < n ==> !r[k].valid && |r[k].data| == SLOT_BYTES
  {
    if n == 0 then [] else EmptySlots(n - 1) + [Slot(seq(SLOT_BYTES, _ => 0), 0, 0, false)]
  }

  datatype Ring = Ring(slots: seq<Slot>, next: nat)

  /** The ring after recording a whole run of stores. */
  function RingAfter(stores: seq<Store>): (r: Ring)
    requires forall s :: s in stores ==> Recordable(|s.data|)
    ensures |r.slots| == SLOTS && r.next < SLOTS
    ensures forall k: nat :: k < SLOTS ==> |r.slots[k].data| == SLOT_BYTES
  {
    if stores == [] then Ring(EmptySlots(SLOTS), 0)
    else
      var before := RingAfter(stores[..|stores| - 1]);
      Ring(before.slots[before.next := Overwrite(before.slots[before.next], stores[|stores| - 1])],
           (before.next + 1) % SLOTS)
  }

  /** After any run, of any length, the ring is exactly the newest eight stores. */
  lemma {:induction false} RingIsHistory(stores: seq<Store>)
    requires forall s :: s in stores ==> Recordable(|s.data|)
    ensures Agrees(RingAfter(stores).slots, RingAfter(stores).next, stores)
  {
    hide Overwrite, Holds;
    if stores != [] {
      var front, last := stores[..|stores| - 1], stores[|stores| - 1];
      RingIsHistory(front);
      RecordKeeps(RingAfter(front).slots, RingAfter(front).next, front, last);
      assert stores == front + [last];
    }
  }
}
