/** The cache injector object: its methods perform the steps of the state machine in place. */
module CacheInjector {
  import opened Options
  import opened ByteWindow
  import opened Injection
  import opened WindowFaults
  import opened CacheSpec
  import opened CacheRuns

  class Injector {
    const config: Config
    var blocks: seq<Block>
    var stuck: map<Place, Stuck>
    var stats: Stats
    var count: nat
    var attackAt: Option<nat>
    var checkAt: Option<nat>

    function Snapshot(): State
      reads this
    {
      State(blocks, stuck, stats, count, attackAt, checkAt)
    }

    ghost predicate Valid()
      reads this
    {
      Shape(config, Snapshot()) && Balanced(stats)
    }

    constructor (config: Config, blocks: seq<Block>, distance: nat)
      requires Shape(config, Started(config, blocks, distance))
      ensures this.config == config && Valid() && Snapshot() == Started(config, blocks, distance)
    {
      this.config := config;
      this.blocks, stuck, stats, count := blocks, map[], Stats(0, 0, 0, 0, 0, 0, 0, 0), 0;
      attackAt := Some(config.firstTick + (distance * config.ratio) % 0x1_0000_0000);
      checkAt := Some(config.firstTick + config.checkDelay);
    }

    /** Judge a corrupted byte: correct it, or leave it and book the outcome. */
    method ApplyProtection(b: nat, off: nat, orig: bv8, mask: bv8) returns (survived: bool)
      requires Shape(config, Snapshot()) && b < |blocks| && off < config.blockSize
      modifies `blocks, `stats
      ensures stats == CountOutcome(old(stats), Judge(config.protection, mask))
      ensures survived <==> Judge(config.protection, mask) != EccCorrected
      ensures blocks == if survived then old(blocks) else SetByte(old(blocks), b, off, orig)
    {
      hide PopCount;
      if config.protection == Unprotected {
        stats := stats.(raw := stats.raw + 1);
        return true;
      }
      var bits := PopCount(mask as bv64);
      if bits == 1 {
        blocks := SetByte(blocks, b, off, orig);
        stats := stats.(corrected := stats.corrected + 1);
        return false;
      } else if bits == 2 {
        if config.protection == Sed || config.protection == ParityInterleaved {
          stats := stats.(latent := stats.latent + 1);
        } else {
          stats := stats.(contained := stats.contained + 1);
        }
        return true;
      }
      stats := stats.(latent := stats.latent + 1);
      return true;
    }

    method StrikeInstruction(b: nat, f: Field, mask: bv8, off: nat)
      requires Shape(config, Snapshot()) && b < |blocks| && off < config.blockSize
      modifies `blocks, `stats, `count
      ensures Snapshot() == StrikeField(config, old(Snapshot()), b, f, mask, off)
    {
      hide FieldBytes, Faulted, FieldMask;
      var before := blocks[b].data;
      var data := new bv8[|before|](i requires 0 <= i < |before| => before[i]);
      assert data[..] == before;
      var at := CorruptField(data, off, f, mask);
      FieldBytesUnfold(before, at, f, mask);
      assert before[..at] == before[..][..at];
      blocks := blocks[b := blocks[b].(data := data[..])];
      stats := stats.(injected := stats.injected + 1);
      count := count + 1;
    }

    method StrikeByte(b: nat, f: Fault, mask: bv8, off: nat)
      requires Shape(config, Snapshot()) && b < |blocks| && off < config.blockSize
      modifies `blocks, `stuck, `stats
      ensures Snapshot() == StrikePrimary(config, old(Snapshot()), b, f, mask, off)
    {
      hide SetByte, ApplyByte, Judge, CountOutcome;
      var orig := blocks[b].data[off];
      blocks := SetByte(blocks, b, off, ApplyByte(f, orig, mask));
      stats := CountFault(stats, f);
      stuck := Record(stuck, blocks[b].number, off, f, mask);
      var survived := ApplyProtection(b, off, orig, mask);
      if !survived {
        SetTwice(old(blocks), b, off, ApplyByte(f, orig, mask), orig);
      }
      stats := stats.(injected := stats.injected + 1);
    }

    /** One iteration of the corruption loop. */
    method StrikeOnce(b: nat, partner: Option<nat>, f: Fault, mask: bv8, off: nat)
      requires Shape(config, Snapshot()) && b < |blocks| && off < config.blockSize
      requires partner.Some? ==> partner.value < |blocks|
      modifies `blocks, `stuck, `stats, `count
      ensures Snapshot() == Strike(config, old(Snapshot()), b, partner, f, mask, off)
    {
      hide SetByte, ApplyByte, StrikePrimary, StrikeField;
      if mask == 0 {
        return;
      }
      if config.target.Instruction? {
        StrikeInstruction(b, config.target.field, mask, off);
        return;
      }
      StrikeByte(b, f, mask, off);
      if partner.Some? {
        var p := partner.value;
        var number := blocks[p].number;
        blocks := SetByte(blocks, p, off, ApplyByte(f, blocks[p].data[off], mask));
        stuck := Record(stuck, number, off, f, mask);
        stats := stats.(injected := stats.injected + 1);
      }
    }

    /** Choose the block and its partner. */
    method Choose(d: Draws) returns (b: Option<nat>, partner: Option<nat>)
      requires Legal(config)
      ensures b == Primary(config, blocks, d)
      ensures partner == if b.Some? then Partner(config, blocks, b.value) else None
    {
      var list := ListValid();
      if list == [] {
        return None, None;
      }
      b := None;
      if config.targetBlock.Some? {
        b := Find(list, config.targetBlock.value);
      }
      if b == None {
        b := Some(list[d.block % |list|]);
      }
      partner := None;
      if config.paired {
        partner := Find(list, PartnerNumber(blocks[b.value].number));
      }
    }

    method ListValid() returns (list: seq<nat>)
      ensures list == ValidBlocks(blocks, |blocks|)
    {
      list := [];
      for k := 0 to |blocks|
        invariant list == ValidBlocks(blocks, k)
      {
        if blocks[k].valid {
          list := list + [k];
        }
      }
    }

    method Find(list: seq<nat>, number: nat) returns (r: Option<nat>)
      requires forall i :: 0 <= i < |list| ==> list[i] < |blocks| && blocks[list[i]].valid
      ensures r == AtNumber(blocks, list, number)
    {
      var i := 0;
      while i < |list|
        invariant i <= |list| && AtNumber(blocks, list, number) == AtNumber(blocks, list[i..], number)
      {
        if blocks[list[i]].number == number {
          return Some(list[i]);
        }
        assert list[i..][1..] == list[i + 1..];
        i := i + 1;
      }
      return None;
    }

    /** The attack event. */
    method InjectFault(d: Draws)
      requires Valid() && attackAt.Some? && DrawsOk(config, d)
      modifies this
      ensures Valid() && Snapshot() == Next(config, old(Snapshot()), AttackEvent(d))
    {
      hide Strike, Primary, Partner, Balanced, Interval;
      StepBalanced(config, Snapshot(), AttackEvent(d));
      var now := attackAt.value;
      var b, partner := Choose(d);
      if b.Some? {
        for i := 0 to config.corruptionSize
          invariant Snapshot() == Strikes(config, old(Snapshot()), b.value, partner, d, i)
        {
          StrikeOnce(b.value, partner, d.fault, d.masks[i], Offset(config, d.offsets[i]));
        }
      }
      count := count + config.corruptionSize;
      attackAt := None;
      if config.maxFaults != 0 && count >= config.maxFaults {
        return;
      }
      var next := now + Interval(config.ratio, d.distance);
      if next <= config.lastTick || config.lastTick == 0 {
        attackAt := Some(next);
      }
    }

    /** The last valid block with a number, as a walk over all blocks finds it. */
    method FindLast(number: nat) returns (k: Option<nat>)
      ensures k.Some? ==> k.value < |blocks| && IsLast(blocks, k.value) && blocks[k.value].number == number
      ensures k.None? ==> forall j: nat :: j < |blocks| && blocks[j].valid ==> blocks[j].number != number
    {
      k := None;
      for i := 0 to |blocks|
        invariant k.Some? ==>
          && k.value < i && blocks[k.value].valid && blocks[k.value].number == number
          && forall j: nat :: k.value < j < i && blocks[j].valid ==> blocks[j].number != number
        invariant k.None? ==> forall j: nat :: j < i && blocks[j].valid ==> blocks[j].number != number
      {
        if blocks[i].number == number && blocks[i].valid {
          k := Some(i);
        }
      }
    }

    /** The check event: every recorded place, in any order; no further check is scheduled. */
    method CheckPermanent()
      requires Valid() && checkAt.Some?
      modifies `blocks, `checkAt
      ensures Valid() && Snapshot() == Next(config, old(Snapshot()), CheckEvent)
    {
      hide SetByte, ApplyByte, IsLast, PartlyRechecked, Rechecked, Balanced;
      ghost var before := blocks;
      StartRecheck(before, stuck);
      var todo := stuck.Keys;
      while todo != {}
        invariant todo <= stuck.Keys && checkAt == old(checkAt)
        invariant Shape(config, Snapshot()) && PartlyRechecked(before, stuck, blocks, todo)
        decreases todo
      {
        var p :| p in todo;
        var k := FindLast(p.number);
        if k.Some? {
          CheckPlace(before, stuck, blocks, todo, p, k.value);
          blocks := SetByte(blocks, k.value, p.off,
            ApplyByte(stuck[p].fault, blocks[k.value].data[p.off], stuck[p].mask));
        } else {
          SkipPlace(before, stuck, blocks, todo, p);
        }
        todo := todo - {p};
      }
      AllRechecked(before, stuck, blocks);
      checkAt := None;
    }
  }

  lemma StartRecheck(blocks: seq<Block>, stuck: map<Place, Stuck>)
    ensures PartlyRechecked(blocks, stuck, blocks, stuck.Keys)
  {
    hide ApplyByte, IsLast;
  }

  lemma FieldBytesUnfold(data: seq<bv8>, off: nat, f: Field, mask: bv8)
    requires off + 4 <= |data|
    ensures FieldBytes(data, off, f, mask)
         == data[..off] + Faulted(BitFlip, data[off..off + 4], FieldMask(f, mask)) + data[off + 4..]
  {
  }

  lemma SetTwice(blocks: seq<Block>, b: nat, off: nat, v: bv8, w: bv8)
    requires b < |blocks| && off < |blocks[b].data|
    ensures SetByte(SetByte(blocks, b, off, v), b, off, w) == SetByte(blocks, b, off, w)
  {
    assert blocks[b].data[off := v][off := w] == blocks[b].data[off := w];
  }
}
