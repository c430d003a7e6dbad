/** The memory injector object: its methods perform the steps of the state machine in place. */
module MemInjector {
  import opened Options
  import opened ByteWindow
  import opened Injection
  import opened MemSpec

  class Injector {
    const config: Config
    var mem: seq<bv8>
    var stuck: map<nat, Stuck>
    var ecc: Ecc
    var count: nat
    var attackAt: Option<nat>
    var checkAt: Option<nat>

    function Snapshot(): State
      reads this
    {
      State(mem, stuck, ecc, count, attackAt, checkAt)
    }

    ghost predicate Valid()
      reads this
    {
      Legal(config) && Invariant(config, Snapshot())
    }

    /**
     * Clamp the configured range, then schedule the first attack and the first check.  The object is
     * usable exactly when the range starts inside memory: past the last byte the clamped window is empty.
     */
    constructor (addrStart: nat, addrEnd: nat, options: Config, mem: seq<bv8>, distance: nat)
      requires 0 < options.memSize == |mem| && options.memStart + options.memSize <= 0x1_0000_0000_0000_0000
      requires 0 < options.ratio < 0x8000_0000
      ensures config == options.(window := Clamp(addrStart, addrEnd, options.memStart, options.memSize))
      ensures Snapshot() == Initial(config, mem, distance)
      ensures Valid() <==> addrStart < options.memStart + options.memSize
    {
      WindowInsideMemoryIff(addrStart, addrEnd, options.memStart, options.memSize);
      config := options.(window := Clamp(addrStart, addrEnd, options.memStart, options.memSize));
      this.mem, stuck, ecc, count := mem, map[], Ecc(0, 0, 0, 0), 0;
      attackAt := Some(options.firstTick + (distance * options.ratio) % 0x1_0000_0000);
      checkAt := Some(options.firstTick + options.period);
    }

    method Write(addr: nat, value: bv8)
      requires Valid() && InMemory(config, addr)
      modifies `mem
      ensures Valid() && Snapshot() == Next(config, old(Snapshot()), Step.Write(addr, value))
    {
      mem := mem[addr - config.memStart := value];
    }

    /** The protection model: book the outcome and return the byte to write back. */
    method Protect(mask: bv8, oldValue: bv8, faulty: bv8) returns (data: bv8)
      modifies `ecc
      ensures ecc == Booked(config.protection, old(ecc), mask)
      ensures data == if Corrects(config.protection, mask) then oldValue else faulty
    {
      hide PopCount;
      data := faulty;
      if config.protection != Unprotected {
        var bits := PopCount(mask as bv64);
        if config.protection == EccLogicFault && bits == 1 {
          ecc := ecc.(missed := ecc.missed + 1);
        } else if bits == 1 {
          ecc := ecc.(corrected := ecc.corrected + 1);
          data := oldValue;
        } else if bits == 2 {
          ecc := ecc.(contained := ecc.contained + 1);
        } else {
          ecc := ecc.(latent := ecc.latent + 1);
        }
      }
    }

    /** Fault one byte: record a stuck-at, apply the protection model, write back, count. */
    method Inject(target: nat, d: Draws)
      requires |mem| == config.memSize && InMemory(config, target)
      modifies `mem, `stuck, `ecc, `count
      ensures var i := target - config.memStart;
        mem == old(mem)[i := Stored(config.protection, old(mem)[i], d)]
      ensures stuck == if d.fault == BitFlip then old(stuck) else old(stuck)[target := Stuck(d.fault, d.mask)]
      ensures ecc == Booked(config.protection, old(ecc), d.mask) && count == old(count) + 1
    {
      hide ApplyByte, Corrects, Booked;
      var oldValue := mem[target - config.memStart];
      var data := ApplyByte(d.fault, oldValue, d.mask);
      if d.fault != BitFlip {
        stuck := stuck[target := Stuck(d.fault, d.mask)];
      }
      data := Protect(d.mask, oldValue, data);
      mem := mem[target - config.memStart := data];
      count := count + 1;
    }

    /** The attack event: it was pending, fires, and reschedules itself or not. */
    method AttackMemory(d: Draws)
      requires Valid() && attackAt.Some? && DrawsOk(config, d)
      modifies this
      ensures Valid() && Snapshot() == Next(config, old(Snapshot()), Attack(d))
    {
      hide Invariant, Stored, Booked, Interval, Redirected;
      StepKeeps(config, Snapshot(), Attack(d));
      InvariantSize(config, Snapshot());
      var now := attackAt.value;
      attackAt := None;
      var target := d.addr;
      if config.redirect.Some? {
        target := Redirected(target, config.redirect.value);
      }
      if InMemory(config, target) {
        Inject(target, d);
      }
      if config.maxFaults != 0 && count >= config.maxFaults {
        return;
      }
      var next := now + Interval(config.ratio, d.distance);
      if next <= config.lastTick || config.lastTick == 0 {
        attackAt := Some(next);
      }
    }

    /** The periodic check: walk the fault table in any order, then schedule the next check. */
    method CheckPermanent()
      requires Valid() && checkAt.Some?
      modifies this
      ensures Valid() && Snapshot() == Next(config, old(Snapshot()), Check)
    {
      hide ApplyByte, ReapplyByte, PartlyReapplied, Accounted;
      StepKeeps(config, Snapshot(), Check);
      ghost var before := mem;
      var todo := stuck.Keys;
      StartReapply(config, before, stuck);
      while todo != {}
        invariant |mem| == |before| && todo <= stuck.Keys
        invariant stuck == old(stuck) && ecc == old(ecc) && count == old(count)
        invariant attackAt == old(attackAt) && checkAt == old(checkAt)
        invariant PartlyReapplied(config, before, stuck, mem, todo)
        decreases todo
      {
        var a :| a in todo;
        var i := a - config.memStart;
        ReapplyOne(config, before, stuck, mem, todo, a);
        mem := mem[i := ApplyByte(stuck[a].fault, mem[i], stuck[a].mask)];
        todo := todo - {a};
      }
      AllReapplied(config, before, stuck, mem);
      checkAt := Some(checkAt.value + config.period);
    }
  }

  lemma InvariantSize(c: Config, s: State)
    requires Invariant(c, s)
    ensures |s.mem| == c.memSize
  {
  }

  /** Memory when the addresses in todo are still to be re-applied. */
  ghost predicate PartlyReapplied(c: Config, before: seq<bv8>, stuck: map<nat, Stuck>, mem: seq<bv8>, todo: set<nat>) {
    && |mem| == |before|
    && forall i: nat :: i < |mem| ==>
      mem[i] == if c.memStart + i in todo then before[i] else ReapplyByte(stuck, c.memStart + i, before[i])
  }

  lemma StartReapply(c: Config, mem: seq<bv8>, stuck: map<nat, Stuck>)
    ensures PartlyReapplied(c, mem, stuck, mem, stuck.Keys)
  {
    hide ApplyByte;
  }

  lemma ReapplyOne(c: Config, before: seq<bv8>, stuck: map<nat, Stuck>, mem: seq<bv8>, todo: set<nat>, a: nat)
    requires PartlyReapplied(c, before, stuck, mem, todo) && a in todo && a in stuck
    requires c.memStart <= a < c.memStart + |mem|
    ensures var i := a - c.memStart;
      PartlyReapplied(c, before, stuck, mem[i := ApplyByte(stuck[a].fault, mem[i], stuck[a].mask)], todo - {a})
  {
    hide ApplyByte;
  }

  lemma AllReapplied(c: Config, before: seq<bv8>, stuck: map<nat, Stuck>, mem: seq<bv8>)
    requires PartlyReapplied(c, before, stuck, mem, {})
    ensures mem == Reapply(c, before, stuck)
  {
    hide ReapplyByte, Reapply;
  }
}
