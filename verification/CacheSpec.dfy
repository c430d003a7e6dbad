/**
 * The cache injector as a state machine: byte faults in a chosen block and its 128-byte
 * partner, instruction-field faults, the protection model and its outcome counters, the
 * fault budget, and the re-application of stuck-at faults.
 */
module CacheSpec {
  import opened Options
  import opened ByteWindow
  import opened WindowFaults
  import opened Injection

  datatype Protection = Unprotected | Sed | Secded | SecdedPoison | ParityInterleaved
  datatype Target = Data | Instruction(field: Field)

  datatype Config = Config(
    blockSize: nat,
    target: Target,
    corruptionSize: nat,
    targetBlock: Option<nat>,
    targetByte: int,
    paired: bool,
    protection: Protection,
    maxFaults: nat,
    ratio: nat,
    firstTick: nat,
    lastTick: nat,
    checkDelay: nat)

  predicate Legal(c: Config) {
    c.blockSize > 0 && c.blockSize % 4 == 0
  }

  /** A cache block; its number is its address divided by the block size. */
  datatype Block = Block(valid: bool, number: nat, data: seq<bv8>)
  datatype Place = Place(number: nat, off: nat)

  datatype Stats = Stats(
    flips: nat, zeros: nat, ones: nat,
    raw: nat, corrected: nat, contained: nat, latent: nat,
    injected: nat)

  datatype State = State(
    blocks: seq<Block>,
    stuck: map<Place, Stuck>,
    stats: Stats,
    count: nat,
    attackAt: Option<nat>,
    checkAt: Option<nat>)

  predicate Shape(c: Config, s: State) {
    && Legal(c)
    && (forall b: nat :: b < |s.blocks| ==> |s.blocks[b].data| == c.blockSize)
    && (forall p :: p in s.stuck ==> p.off < c.blockSize)
  }

  // ---- Protection -------------------------------------------------------------------------------

  datatype Outcome = RawEscaped | EccCorrected | DetectedContained | Latent

  function Judge(p: Protection, mask: bv8): Outcome {
    if p == Unprotected then RawEscaped
    else if PopCount(mask as bv64) == 1 then EccCorrected
    else if PopCount(mask as bv64) == 2 && (p == Secded || p == SecdedPoison) then DetectedContained
    else Latent
  }

  function CountFault(t: Stats, f: Fault): Stats {
    match f
    case BitFlip => t.(flips := t.flips + 1)
    case StuckAtZero => t.(zeros := t.zeros + 1)
    case StuckAtOne => t.(ones := t.ones + 1)
  }

  function CountOutcome(t: Stats, o: Outcome): Stats {
    match o
    case RawEscaped => t.(raw := t.raw + 1)
    case EccCorrected => t.(corrected := t.corrected + 1)
    case DetectedContained => t.(contained := t.contained + 1)
    case Latent => t.(latent := t.latent + 1)
  }

  /** Every data fault is booked under exactly one outcome. */
  predicate Balanced(t: Stats) {
    t.flips + t.zeros + t.ones == t.raw + t.corrected + t.contained + t.latent
  }

  // ---- One corrupted byte --------------------------------------------------------------------------

  function SetByte(blocks: seq<Block>, b: nat, off: nat, v: bv8): (r: seq<Block>)
    requires b < |blocks| && off < |blocks[b].data|
    ensures |r| == |blocks| && forall k: nat :: k < |r| ==> |r[k].data| == |blocks[k].data|
    ensures forall k: nat :: k < |r| && k != b ==> r[k] == blocks[k]
    ensures r[b].data == blocks[b].data[off := v] && r[b].valid == blocks[b].valid && r[b].number == blocks[b].number
  {
    blocks[b := blocks[b].(data := blocks[b].data[off := v])]
  }

  function Record(stuck: map<Place, Stuck>, number: nat, off: nat, f: Fault, mask: bv8): map<Place, Stuck> {
    if f == BitFlip then stuck else stuck[Place(number, off) := Stuck(f, mask)]
  }

  /** A byte fault in the primary block, judged by the protection model. */
  function StrikePrimary(c: Config, s: State, b: nat, f: Fault, mask: bv8, off: nat): (r: State)
    requires Shape(c, s) && b < |s.blocks| && off < c.blockSize
    ensures Shape(c, r) && |r.blocks| == |s.blocks|
  {
    var o := Judge(c.protection, mask);
    var before := s.blocks[b].data[off];
    var after := if o == EccCorrected then before else ApplyByte(f, before, mask);
    var t := CountOutcome(CountFault(s.stats, f), o);
    s.(blocks := SetByte(s.blocks, b, off, after),
       stuck := Record(s.stuck, s.blocks[b].number, off, f, mask),
       stats := t.(injected := t.injected + 1))
  }

  /** The same fault in the partner block: no protection, no fault-type or outcome counter. */
  function StrikePartner(c: Config, s: State, p: nat, f: Fault, mask: bv8, off: nat): (r: State)
    requires Shape(c, s) && p < |s.blocks| && off < c.blockSize
    ensures Shape(c, r) && |r.blocks| == |s.blocks|
  {
    s.(blocks := SetByte(s.blocks, p, off, ApplyByte(f, s.blocks[p].data[off], mask)),
       stuck := Record(s.stuck, s.blocks[p].number, off, f, mask),
       stats := s.stats.(injected := s.stats.injected + 1))
  }

  function FieldBytes(data: seq<bv8>, off: nat, f: Field, mask: bv8): (r: seq<bv8>)
    requires off + 4 <= |data|
    ensures |r| == |data|
  {
    data[..off] + Faulted(BitFlip, data[off..off + 4], FieldMask(f, mask)) + data[off + 4..]
  }

  /** An instruction-field fault: always a flip; the budget is charged here as well as per attack. */
  function StrikeField(c: Config, s: State, b: nat, f: Field, mask: bv8, off: nat): (r: State)
    requires Shape(c, s) && b < |s.blocks| && off < c.blockSize
    ensures Shape(c, r) && |r.blocks| == |s.blocks|
  {
    var at := off - off % 4;
    s.(blocks := s.blocks[b := s.blocks[b].(data := FieldBytes(s.blocks[b].data, at, f, mask))],
       stats := s.stats.(injected := s.stats.injected + 1),
       count := s.count + 1)
  }

  function Strike(c: Config, s: State, b: nat, partner: Option<nat>, f: Fault, mask: bv8, off: nat): (r: State)
    requires Shape(c, s) && b < |s.blocks| && off < c.blockSize && (partner.Some? ==> partner.value < |s.blocks|)
    ensures Shape(c, r) && |r.blocks| == |s.blocks|
  {
    if mask == 0 then s
    else if c.target.Instruction? then StrikeField(c, s, b, c.target.field, mask, off)
    else
      var t := StrikePrimary(c, s, b, f, mask, off);
      if partner.Some? then StrikePartner(c, t, partner.value, f, mask, off) else t
  }

  // ---- One attack -------------------------------------------------------------------------------------

  /** One attack's random choices; one mask and one offset per corrupted byte. */
  datatype Draws = Draws(block: nat, fault: Fault, masks: seq<bv8>, offsets: seq<nat>, distance: nat)

  predicate DrawsOk(c: Config, d: Draws) {
    |d.masks| == |d.offsets| == c.corruptionSize && d.distance < 0x1_0000_0000
  }

  function Offset(c: Config, drawn: nat): (off: nat)
    requires Legal(c)
    ensures off < c.blockSize
  {
    if 0 <= c.targetByte < c.blockSize then c.targetByte else drawn % c.blockSize
  }

  function Strikes(c: Config, s: State, b: nat, partner: Option<nat>, d: Draws, n: nat): (r: State)
    requires Shape(c, s) && b < |s.blocks| && (partner.Some? ==> partner.value < |s.blocks|)
    requires DrawsOk(c, d) && n <= c.corruptionSize
    ensures Shape(c, r) && |r.blocks| == |s.blocks|
  {
    if n == 0 then s
    else
      var t := Strikes(c, s, b, partner, d, n - 1);
      Strike(c, t, b, partner, d.fault, d.masks[n - 1], Offset(c, d.offsets[n - 1]))
  }

  function ValidBlocks(blocks: seq<Block>, n: nat): (r: seq<nat>)
    requires n <= |blocks|
    ensures forall i :: 0 <= i < |r| ==> r[i] < n && blocks[r[i]].valid
    ensures forall b: nat :: b < n && blocks[b].valid ==> b in r
  {
    if n == 0 then [] else ValidBlocks(blocks, n - 1) + if blocks[n - 1].valid then [n - 1] else []
  }

  /** The first listed block with a block number. */
  function AtNumber(blocks: seq<Block>, list: seq<nat>, number: nat): (r: Option<nat>)
    requires forall i :: 0 <= i < |list| ==> list[i] < |blocks| && blocks[list[i]].valid
    ensures r.Some? ==> r.value < |blocks| && blocks[r.value].valid && blocks[r.value].number == number
    ensures r.None? ==> forall i :: 0 <= i < |list| ==> blocks[list[i]].number != number
  {
    if list == [] then None
    else if blocks[list[0]].number == number then Some(list[0])
    else AtNumber(blocks, list[1..], number)
  }

  /** The directed block if resident, else a drawn valid block. */
  function Primary(c: Config, blocks: seq<Block>, d: Draws): (r: Option<nat>)
    requires Legal(c)
    ensures r.Some? ==> r.value < |blocks| && blocks[r.value].valid
  {
    var list := ValidBlocks(blocks, |blocks|);
    if list == [] then None
    else
      var directed := if c.targetBlock.None? then None else AtNumber(blocks, list, c.targetBlock.value);
      if directed.Some? then directed else Some(list[d.block % |list|])
  }

  /** There is no primary block exactly when no block is valid. */
  lemma NoPrimaryIff(c: Config, blocks: seq<Block>, d: Draws)
    requires Legal(c)
    ensures Primary(c, blocks, d) == None <==> ValidBlocks(blocks, |blocks|) == []
  {
  }

  /** A directed block that is resident is the one struck. */
  lemma DirectedBlockStruck(c: Config, blocks: seq<Block>, d: Draws, k: nat)
    requires Legal(c) && k < |blocks| && blocks[k].valid && c.targetBlock == Some(blocks[k].number)
    ensures Primary(c, blocks, d).Some? && blocks[Primary(c, blocks, d).value].number == blocks[k].number
  {
    var list := ValidBlocks(blocks, |blocks|);
    assert k in list;
    var i :| 0 <= i < |list| && list[i] == k;
    assert AtNumber(blocks, list, blocks[k].number).Some?;
  }

  /** The other sector of a 128-byte pair: the lowest bit of the block number toggled. */
  function PartnerNumber(number: nat): (r: nat)
    ensures r != number && r / 2 == number / 2
  {
    if number % 2 == 0 then number + 1 else number - 1
  }

  function Partner(c: Config, blocks: seq<Block>, b: nat): (r: Option<nat>)
    requires Legal(c) && b < |blocks|
    ensures r.Some? ==> r.value < |blocks| && r.value != b && c.paired
  {
    if !c.paired then None
    else AtNumber(blocks, ValidBlocks(blocks, |blocks|), PartnerNumber(blocks[b].number))
  }

  /** The strikes of an attack; none when no block is valid. */
  function Struck(c: Config, s: State, d: Draws): (r: State)
    requires Shape(c, s) && DrawsOk(c, d)
    ensures Shape(c, r) && |r.blocks| == |s.blocks|
  {
    var b := Primary(c, s.blocks, d);
    if b.None? then s else Strikes(c, s, b.value, Partner(c, s.blocks, b.value), d, c.corruptionSize)
  }

  /** The attack event: strike, charge the budget by the corruption size, reschedule. */
  function Attack(c: Config, s: State, d: Draws): (r: State)
    requires Shape(c, s) && DrawsOk(c, d) && s.attackAt.Some?
    ensures Shape(c, r) && |r.blocks| == |s.blocks|
  {
    var t := Struck(c, s, d);
    var count := t.count + c.corruptionSize;
    t.(count := count, attackAt := Rescheduled(c.maxFaults, c.lastTick, c.ratio, count, s.attackAt.value, d.distance))
  }
}
