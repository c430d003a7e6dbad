/** What a whole instruction-field attack does to every instruction word of the block it strikes. */
module CacheFields {
  import opened Options
  import opened ByteWindow
  import opened WindowFaults
  import opened Injection
  import opened CacheSpec
  import opened CacheBits

  /** The field of an A64 instruction word, as a decoder reads it. */
  function Decoded(f: Field, word: bv64): bv64 {
    match f
    case Rd => word & 0x1F
    case Rn => (word >> 5) & 0x1F
    case Rm => (word >> 16) & 0x1F
    case Opcode => (word >> 23) & 0x3F
  }

  /** The mask bits that fit a field. */
  function Selected(f: Field, mask: bv8): bv64 {
    (mask as bv64) & if f == Opcode then 0x3F else 0x1F
  }

  function Xor(a: bv64, b: bv64): bv64 {
    a ^ b
  }

  /** The bits of a word outside a field. */
  function Outside(f: Field, word: bv64): bv64 {
    word & !FieldOnes(f)
  }

  lemma RdXor(a: bv64, b: bv64)
    ensures (a ^ b) & 0x1F == (a & 0x1F) ^ (b & 0x1F)
  {
  }

  lemma RnXor(a: bv64, b: bv64)
    ensures ((a ^ b) >> 5) & 0x1F == ((a >> 5) & 0x1F) ^ ((b >> 5) & 0x1F)
  {
  }

  lemma RmXor(a: bv64, b: bv64)
    ensures ((a ^ b) >> 16) & 0x1F == ((a >> 16) & 0x1F) ^ ((b >> 16) & 0x1F)
  {
  }

  lemma OpcodeXor(a: bv64, b: bv64)
    ensures ((a ^ b) >> 23) & 0x3F == ((a >> 23) & 0x3F) ^ ((b >> 23) & 0x3F)
  {
  }

  lemma DecodedXor(g: Field, a: bv64, b: bv64)
    ensures Decoded(g, Xor(a, b)) == Xor(Decoded(g, a), Decoded(g, b))
  {
    match g
    case Rd => RdXor(a, b);
    case Rn => RnXor(a, b);
    case Rm => RmXor(a, b);
    case Opcode => OpcodeXor(a, b);
  }

  lemma DecodedMask(f: Field, g: Field, mask: bv8)
    ensures Decoded(g, FieldMask(f, mask)) == if g == f then Selected(f, mask) else 0
  {
    match f
    case Rd => DecodedRd(g, mask);
    case Rn => DecodedRn(g, mask);
    case Rm => DecodedRm(g, mask);
    case Opcode => DecodedOpcode(g, mask);
  }

  lemma DecodedRd(g: Field, mask: bv8)
    ensures Decoded(g, FieldMask(Rd, mask)) == if g == Rd then Selected(Rd, mask) else 0
  {
  }

  lemma DecodedRn(g: Field, mask: bv8)
    ensures Decoded(g, FieldMask(Rn, mask)) == if g == Rn then Selected(Rn, mask) else 0
  {
  }

  lemma DecodedRm(g: Field, mask: bv8)
    ensures Decoded(g, FieldMask(Rm, mask)) == if g == Rm then Selected(Rm, mask) else 0
  {
  }

  lemma DecodedOpcode(g: Field, mask: bv8)
    ensures Decoded(g, FieldMask(Opcode, mask)) == if g == Opcode then Selected(Opcode, mask) else 0
  {
  }

  lemma XorZero(a: bv64)
    ensures Xor(a, 0) == a
  {
  }

  lemma XorAssociates(a: bv64, b: bv64, d: bv64)
    ensures Xor(Xor(a, b), d) == Xor(a, Xor(b, d))
  {
    hide Xor;
    XorUnfold(a, b);
    XorUnfold(b, d);
    XorUnfold(Xor(a, b), d);
    XorUnfold(a, Xor(b, d));
    XorAssociatesBits(a, b, d, Xor(a, b), Xor(b, d));
  }

  lemma XorUnfold(a: bv64, b: bv64)
    ensures Xor(a, b) == a ^ b
  {
  }

  lemma XorAssociatesBits(a: bv64, b: bv64, d: bv64, ab: bv64, bd: bv64)
    requires ab == a ^ b && bd == b ^ d
    ensures ab ^ d == a ^ bd
  {
  }

  lemma Flips(v: bv64, m: bv64)
    ensures ApplyWord(BitFlip, v, m) == Xor(v, m)
  {
  }

  lemma OutsideKept(f: Field, v: bv64, m: bv64)
    requires Outside(f, m) == 0
    ensures Outside(f, Xor(v, m)) == Outside(f, v)
  {
    hide FieldOnes, Xor;
    XorUnfold(v, m);
    OutsideBits(v, m, FieldOnes(f));
  }

  lemma OutsideBits(v: bv64, m: bv64, ones: bv64)
    requires m & !ones == 0
    ensures (v ^ m) & !ones == v & !ones
  {
  }

  lemma PlacedInside(f: Field, mask: bv8)
    ensures Outside(f, FieldMask(f, mask)) == 0
  {
    hide FieldMask, FieldOnes;
    FieldConfined(f, mask);
  }

  /** A field fault changes the decoded field by the mask, and nothing else a decoder reads. */
  lemma FieldDecoded(f: Field, g: Field, word: seq<bv8>, mask: bv8)
    requires |word| == 4
    ensures Decoded(g, Pack(Faulted(BitFlip, word, FieldMask(f, mask))))
         == Xor(Decoded(g, Pack(word)), if g == f then Selected(f, mask) else 0)
    ensures Outside(f, Pack(Faulted(BitFlip, word, FieldMask(f, mask)))) == Outside(f, Pack(word))
  {
    hide Decoded, FieldMask, Xor, ApplyWord, Pack, Faulted, Selected, FieldOnes, Outside;
    FieldIsXor(f, word, mask);
    Flips(Pack(word), FieldMask(f, mask));
    DecodedXor(g, Pack(word), FieldMask(f, mask));
    DecodedMask(f, g, mask);
    PlacedInside(f, mask);
    OutsideKept(f, Pack(word), FieldMask(f, mask));
  }

  // ---- Whole attacks ---------------------------------------------------------------------------

  /** A strike lands in the instruction word that starts at byte w. */
  predicate LandsIn(c: Config, drawn: nat, w: nat)
    requires Legal(c)
  {
    LandsAt(c, drawn, w) || LandsAt(c, drawn, w + 1) || LandsAt(c, drawn, w + 2) || LandsAt(c, drawn, w + 3)
  }

  /** All that the first n strikes put on the field of the word at w. */
  function Combined(c: Config, d: Draws, f: Field, n: nat, w: nat): bv64
    requires Legal(c) && DrawsOk(c, d) && n <= c.corruptionSize
  {
    if n == 0 then 0
    else if LandsIn(c, d.offsets[n - 1], w) then Xor(Combined(c, d, f, n - 1, w), Selected(f, d.masks[n - 1]))
    else Combined(c, d, f, n - 1, w)
  }

  lemma LandsInIff(c: Config, drawn: nat, w: nat)
    requires Legal(c) && w % 4 == 0
    ensures LandsIn(c, drawn, w) <==> Offset(c, drawn) - Offset(c, drawn) % 4 == w
  {
    var o := Offset(c, drawn);
    assert o % 4 == 0 || o % 4 == 1 || o % 4 == 2 || o % 4 == 3;
  }

  function WordAt(s: State, b: nat, w: nat): (r: seq<bv8>)
    requires b < |s.blocks| && w + 4 <= |s.blocks[b].data|
    ensures |r| == 4
  {
    s.blocks[b].data[w..w + 4]
  }

  lemma StrikeWord(c: Config, s: State, b: nat, partner: Option<nat>, fault: Fault, mask: bv8, off: nat, w: nat)
    requires Shape(c, s) && b < |s.blocks| && off < c.blockSize && c.target.Instruction?
    requires w % 4 == 0 && w + 4 <= c.blockSize && (partner.Some? ==> partner.value < |s.blocks|)
    ensures WordAt(Strike(c, s, b, partner, fault, mask, off), b, w)
         == if mask != 0 && off - off % 4 == w
            then Faulted(BitFlip, WordAt(s, b, w), FieldMask(c.target.field, mask)) else WordAt(s, b, w)
  {
    hide FieldMask, Faulted;
    if mask != 0 {
      SlicedWord(s.blocks[b].data, off - off % 4, c.target.field, mask, w);
    }
  }

  lemma SlicedWord(data: seq<bv8>, at: nat, f: Field, mask: bv8, w: nat)
    requires at + 4 <= |data| && w + 4 <= |data| && at % 4 == w % 4 == 0
    ensures FieldBytes(data, at, f, mask)[w..w + 4]
         == if at == w then Faulted(BitFlip, data[w..w + 4], FieldMask(f, mask)) else data[w..w + 4]
  {
    hide FieldMask, Faulted;
    assert at != w ==> at + 4 <= w || w + 4 <= at;
  }

  lemma NothingSelected(f: Field)
    ensures Selected(f, 0) == 0
  {
  }

  lemma {:induction false} StrikesField(
    c: Config, s: State, b: nat, partner: Option<nat>, d: Draws, n: nat, w: nat, g: Field)
    requires Shape(c, s) && b < |s.blocks| && DrawsOk(c, d) && n <= c.corruptionSize && c.target.Instruction?
    requires w % 4 == 0 && w + 4 <= c.blockSize && (partner.Some? ==> partner.value < |s.blocks|)
    ensures var f, before, after := c.target.field, Pack(WordAt(s, b, w)),
                                    Pack(WordAt(Strikes(c, s, b, partner, d, n), b, w));
      && Decoded(g, after) == Xor(Decoded(g, before), if g == f then Combined(c, d, f, n, w) else 0)
      && Outside(f, after) == Outside(f, before)
    decreases n
  {
    hide Strike, Strikes, Offset, Decoded, Xor, Selected, LandsIn, Pack, Outside, WordAt, Combined, DrawsOk;
    var f, before := c.target.field, Decoded(g, Pack(WordAt(s, b, w)));
    CombinedUnfold(c, d, f, n, w);
    StrikesUnfold(c, s, b, partner, d, n);
    if n == 0 {
      XorZero(before);
    } else {
      StrikesField(c, s, b, partner, d, n - 1, w, g);
      var t := Strikes(c, s, b, partner, d, n - 1);
      StrikeDecoded(c, t, b, partner, d.fault, d.masks[n - 1], d.offsets[n - 1], w, g);
      var one := if LandsIn(c, d.offsets[n - 1], w) then Selected(f, d.masks[n - 1]) else 0;
      XorZero(0);
      XorAssociates(before, if g == f then Combined(c, d, f, n - 1, w) else 0, if g == f then one else 0);
    }
  }

  lemma CombinedUnfold(c: Config, d: Draws, f: Field, n: nat, w: nat)
    requires Legal(c) && DrawsOk(c, d) && n <= c.corruptionSize
    ensures |d.masks| == |d.offsets| == c.corruptionSize
    ensures Combined(c, d, f, n, w) == if n == 0 then 0
      else Xor(Combined(c, d, f, n - 1, w), if LandsIn(c, d.offsets[n - 1], w) then Selected(f, d.masks[n - 1]) else 0)
  {
    hide Xor, Selected, LandsIn;
    if n > 0 {
      XorZero(Combined(c, d, f, n - 1, w));
    }
  }

  lemma StrikesUnfold(c: Config, s: State, b: nat, partner: Option<nat>, d: Draws, n: nat)
    requires Shape(c, s) && b < |s.blocks| && (partner.Some? ==> partner.value < |s.blocks|)
    requires DrawsOk(c, d) && n <= c.corruptionSize
    ensures |d.masks| == |d.offsets| == c.corruptionSize && Legal(c)
    ensures Strikes(c, s, b, partner, d, n) == if n == 0 then s
      else Strike(c, Strikes(c, s, b, partner, d, n - 1), b, partner, d.fault, d.masks[n - 1],
                  Offset(c, d.offsets[n - 1]))
  {
    hide Strike, Offset;
  }

  lemma StrikeDecoded(
    c: Config, t: State, b: nat, partner: Option<nat>, fault: Fault, mask: bv8, drawn: nat, w: nat, g: Field)
    requires Shape(c, t) && b < |t.blocks| && c.target.Instruction?
    requires w % 4 == 0 && w + 4 <= c.blockSize && (partner.Some? ==> partner.value < |t.blocks|)
    ensures var f, r := c.target.field, Strike(c, t, b, partner, fault, mask, Offset(c, drawn));
      && Decoded(g, Pack(WordAt(r, b, w)))
         == Xor(Decoded(g, Pack(WordAt(t, b, w))),
                if g == f && LandsIn(c, drawn, w) then Selected(f, mask) else 0)
      && Outside(f, Pack(WordAt(r, b, w))) == Outside(f, Pack(WordAt(t, b, w)))
  {
    hide Strike, Offset, Decoded, Xor, Selected, LandsIn, Pack, Faulted, FieldMask, Outside, WordAt;
    var f := c.target.field;
    LandsInIff(c, drawn, w);
    StrikeWord(c, t, b, partner, fault, mask, Offset(c, drawn), w);
    FieldDecoded(f, g, WordAt(t, b, w), mask);
    NothingSelected(f);
    XorZero(Decoded(g, Pack(WordAt(t, b, w))));
  }

  /**
   * Every instruction word of the struck block after a whole field attack: the targeted field
   * decodes to what it was XORed with the masks of the strikes that land in the word, every
   * other field and every bit outside the field to what it was.
   */
  lemma AttackFields(c: Config, s: State, d: Draws, b: nat, w: nat, g: Field)
    requires Shape(c, s) && DrawsOk(c, d) && s.attackAt.Some? && Primary(c, s.blocks, d) == Some(b)
    requires c.target.Instruction? && w % 4 == 0 && w + 4 <= c.blockSize
    ensures var f, before, after := c.target.field, Pack(WordAt(s, b, w)), Pack(WordAt(Attack(c, s, d), b, w));
      && (g == f ==> Decoded(g, after) == Xor(Decoded(g, before), Combined(c, d, f, c.corruptionSize, w)))
      && (g != f ==> Decoded(g, after) == Decoded(g, before))
      && Outside(f, after) == Outside(f, before)
  {
    hide Strikes, Primary, Partner, Interval, Decoded, Combined, Outside, Pack, Xor;
    StrikesField(c, s, b, Partner(c, s.blocks, b), d, c.corruptionSize, w, g);
    XorZero(Decoded(g, Pack(WordAt(s, b, w))));
  }
}
