/** The forwarding injector object: its hooks perform the steps of the state machine in place. */
module ForwardInjector {
  import opened Options
  import opened ByteWindow
  import opened WindowFaults
  import opened ForwardRing
  import opened ForwardSpec
  import opened ForwardRuns

  class Injector {
    const config: Config
    const ring: array<Slot>
    var next: nat
    var count: nat
    ghost var history: seq<Store>

    ghost function Snapshot(): State
      reads this
    {
      State(history, count)
    }

    ghost predicate Valid()
      reads this, ring
    {
      && ring.Length == SLOTS
      && Agrees(ring[..], next, history)
      && (forall k: nat :: k < |history| ==> |history[k].data| <= SLOT_BYTES)
      && (config.maxFaults != 0 ==> count <= config.maxFaults)
    }

    constructor (config: Config)
      ensures Valid() && fresh(ring) && this.config == config && history == [] && count == 0
    {
      this.config := config;
      ring := new Slot[8](_ => Slot(seq(SLOT_BYTES, _ => 0), 0, 0, false));
      next, count, history := 0, 0, [];
    }

    /** Record a forward in the slot under the cursor. */
    method Record(data: seq<bv8>, vaddr: nat)
      requires Valid() && Recordable(|data|)
      modifies ring, `next, `history
      ensures Valid() && history == old(history) + [Store(data, vaddr)]
      ensures forall k :: 0 <= k < SLOTS && k != old(next) ==> ring[k] == old(ring[k])
    {
      hide Overwrite;
      RecordKeeps(ring[..], next, history, Store(data, vaddr));
      ghost var before := ring[..];
      ring[next] := Overwrite(ring[next], Store(data, vaddr));
      assert ring[..] == before[next := ring[next]];
      history := history + [Store(data, vaddr)];
      next := (next + 1) % SLOTS;
    }

    /** Walk the ring from the start depth; the slot found is the one the history picks. */
    method Search(start: int, size: nat) returns (slot: Option<Slot>)
      requires Valid()
      ensures slot.Some? <==> Pick(history, start, size).Some?
      ensures slot.Some? ==> Holds(slot.value, history[|history| - 1 - Pick(history, start, size).value])
    {
      hide Holds, Agrees, Behind, Fits;
      var i := start;
      while i < SLOTS
        invariant Pick(history, start, size) == Pick(history, i, size)
        decreases SLOTS - i
      {
        SlotTest(ring[..], next, history, i, size);
        var idx := Behind(next, i);
        if ring[idx].valid && ring[idx].size >= size {
          return Some(ring[idx]);
        }
        i := i + 1;
      }
      return None;
    }

    /** Record the forward, then serve it or, when a fault fires, a stored prefix. */
    method PickSource(cur: Option<seq<bv8>>, size: nat, vaddr: nat, cycle: nat, gate: real)
      returns (served: Option<seq<bv8>>)
      requires Valid() && (cur.Some? ==> |cur.value| == size)
      modifies this, ring
      ensures Valid() && history == Recorded(old(history), cur, size, vaddr)
      ensures forall k :: 0 <= k < SLOTS && k != old(next) ==> ring[k] == old(ring[k])
      ensures history == old(history) ==> ring[..] == old(ring[..])
      ensures Snapshot() == Next(config, old(Snapshot()), Source(cur, size, vaddr, cycle, gate))
      ensures served == Result(config, old(Snapshot()), Source(cur, size, vaddr, cycle, gate))
    {
      hide Agrees, Holds, Pick, Behind;
      if cur.Some? && Recordable(size) {
        Record(cur.value, vaddr);
      }
      if config.source == NoSource || !Fires(config, count, cycle, gate) {
        return cur;
      }
      var slot := Search(StartDepth(config), size);
      if slot == None {
        return cur;
      }
      ghost var store := history[|history| - 1 - Pick(history, StartDepth(config), size).value];
      HoldsPrefix(slot.value, store, size);
      served := Some(slot.value.data[..size]);
      count := count + 1;
    }

    /** Corrupt forwarded bytes in place, if the gates open and there are any. */
    method Corrupt(data: array<bv8>, cycle: nat, gate: real, skew: int, byte: nat, f: Fault, mask: bv64)
      requires Valid() && data as object != ring && (data.Length > 0 ==> byte < data.Length)
      modifies data, `count
      ensures Valid()
      ensures Snapshot() == Next(config, old(Snapshot()), Bytes(data.Length, cycle, gate))
      ensures data[..] == if count == old(count) then old(data[..])
                          else Corrupted(config, old(data[..]), skew, byte, f, mask)
    {
      hide Agrees, Corrupted;
      if !Fires(config, count, cycle, gate) || data.Length == 0 {
        return;
      }
      CorruptBytes(config, data, skew, byte, f, mask);
      assert ring[..] == old(ring[..]);
      count := count + 1;
    }
  }

  /** A structural fault if one is configured, else a fault in a clamped window. */
  method CorruptBytes(c: Config, data: array<bv8>, skew: int, byte: nat, f: Fault, mask: bv64)
    requires byte < data.Length
    modifies data
    ensures data[..] == Corrupted(c, old(data[..]), skew, byte, f, mask)
  {
    hide Faulted, Rotate;
    match c.structural
    case ByteLaneSkew =>
      var _ := SkewLanes(data, c.skewBytes, skew);
    case AllZero =>
      for n := 0 to data.Length
        invariant forall i :: 0 <= i < n ==> data[i] == 0
      {
        data[n] := 0;
      }
    case NoStructural =>
      var w := CorruptForwarded(data, c.byteOffset, byte, c.maskWidth, f, mask);
      ghost var s := old(data[..]);
      assert s[..w.off] == old(data[..w.off]) && s[w.off + w.width..] == old(data[w.off + w.width..]);
      assert s[w.off..w.off + w.width] == old(data[w.off..w.off + w.width]);
  }
}
