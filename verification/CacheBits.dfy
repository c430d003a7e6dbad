/** What a whole data attack does to every bit of the block it strikes and of its partner. */
module CacheBits {
  import opened Options
  import opened ByteWindow
  import opened Bits
  import opened Injection
  import opened CacheSpec

  /** The byte a strike lands on: the configured one when it lies in the block, else the drawn one. */
  predicate LandsAt(c: Config, drawn: nat, o: nat)
    requires Legal(c)
  {
    if 0 <= c.targetByte < c.blockSize then o == c.targetByte else o == drawn % c.blockSize
  }

  /** A protection model reverts a fault of exactly one bit. */
  predicate Reverted(c: Config, mask: bv8) {
    c.protection != Unprotected && BitsIn(mask) == 1
  }

  /** The mask of strike i covers bit j of byte o. */
  predicate Covers(c: Config, d: Draws, i: nat, o: nat, j: nat)
    requires Legal(c) && DrawsOk(c, d) && i < c.corruptionSize
  {
    LandsAt(c, d.offsets[i], o) && ByteBit(d.masks[i], j)
  }

  /** The strikes, among the first n, that cover bit j of byte o. */
  function Covering(c: Config, d: Draws, n: nat, o: nat, j: nat): set<nat>
    requires Legal(c) && DrawsOk(c, d) && n <= c.corruptionSize
  {
    set i: nat | i < n && Covers(c, d, i, o, j)
  }

  /** Those that the protection model does not revert. */
  function Uncorrected(c: Config, d: Draws, n: nat, o: nat, j: nat): set<nat>
    requires Legal(c) && DrawsOk(c, d) && n <= c.corruptionSize
  {
    set i: nat | i < n && Covers(c, d, i, o, j) && !Reverted(c, d.masks[i])
  }

  /** A bit after that many faults of one type on it. */
  predicate After(f: Fault, was: bool, hits: nat) {
    match f
    case BitFlip => if hits % 2 == 1 then !was else was
    case StuckAtZero => was && hits == 0
    case StuckAtOne => was || hits > 0
  }

  lemma RevertedIff(c: Config, mask: bv8)
    ensures Reverted(c, mask) <==> Judge(c.protection, mask) == EccCorrected
  {
    hide PopCount, BitsIn;
    ByteCount(mask);
  }

  lemma ZeroMask(j: nat)
    ensures !ByteBit(0, j)
  {
    ZeroBit(j);
  }

  lemma AfterStep(f: Fault, was: bool, hits: nat, under: bool)
    ensures After(f, was, hits + if under then 1 else 0) == Faulty(f, After(f, was, hits), under)
    ensures Faulty(f, was, false) == was
  {
  }

  /** One bit of the primary and of the partner, across one strike. */
  lemma StrikeBit(
    c: Config, s: State, b: nat, partner: Option<nat>, f: Fault, mask: bv8, off: nat, o: nat, j: nat)
    requires Shape(c, s) && b < |s.blocks| && off < c.blockSize && o < c.blockSize && c.target == Data
    requires partner.Some? ==> partner.value < |s.blocks| && partner.value != b
    ensures var r := Strike(c, s, b, partner, f, mask, off);
      && ByteBit(r.blocks[b].data[o], j)
         == Faulty(f, ByteBit(s.blocks[b].data[o], j), off == o && ByteBit(mask, j) && !Reverted(c, mask))
      && (partner.Some? ==>
            ByteBit(r.blocks[partner.value].data[o], j)
              == Faulty(f, ByteBit(s.blocks[partner.value].data[o], j), off == o && ByteBit(mask, j)))
  {
    hide ByteBit, ApplyByte, Judge, CountFault, CountOutcome, Record, Faulty, Reverted, SetByte, BitsIn;
    RevertedIff(c, mask);
    ZeroMask(j);
    ByteStruck(f, s.blocks[b].data[o], mask, j);
    AfterStep(f, ByteBit(s.blocks[b].data[o], j), 0, false);
    if partner.Some? {
      ByteStruck(f, s.blocks[partner.value].data[o], mask, j);
      AfterStep(f, ByteBit(s.blocks[partner.value].data[o], j), 0, false);
    }
  }

  lemma CoveringStep(c: Config, d: Draws, n: nat, o: nat, j: nat)
    requires Legal(c) && DrawsOk(c, d) && n < c.corruptionSize
    ensures var under := Offset(c, d.offsets[n]) == o && ByteBit(d.masks[n], j);
      |Covering(c, d, n + 1, o, j)| == |Covering(c, d, n, o, j)| + if under then 1 else 0
  {
    hide Covers, Legal, DrawsOk, Offset, ByteBit;
    CoversIff(c, d, n, o, j);
    assert Covering(c, d, n + 1, o, j) == Covering(c, d, n, o, j) + if Covers(c, d, n, o, j) then {n} else {};
  }

  lemma UncorrectedStep(c: Config, d: Draws, n: nat, o: nat, j: nat)
    requires Legal(c) && DrawsOk(c, d) && n < c.corruptionSize
    ensures var under := Offset(c, d.offsets[n]) == o && ByteBit(d.masks[n], j) && !Reverted(c, d.masks[n]);
      |Uncorrected(c, d, n + 1, o, j)| == |Uncorrected(c, d, n, o, j)| + if under then 1 else 0
  {
    hide Covers, Legal, DrawsOk, Offset, ByteBit, Reverted;
    CoversIff(c, d, n, o, j);
    assert Uncorrected(c, d, n + 1, o, j)
        == Uncorrected(c, d, n, o, j) + if Covers(c, d, n, o, j) && !Reverted(c, d.masks[n]) then {n} else {};
  }

  lemma CoversIff(c: Config, d: Draws, i: nat, o: nat, j: nat)
    requires Legal(c) && DrawsOk(c, d) && i < c.corruptionSize
    ensures |d.masks| == |d.offsets| == c.corruptionSize
    ensures Covers(c, d, i, o, j) <==> Offset(c, d.offsets[i]) == o && ByteBit(d.masks[i], j)
  {
    hide ByteBit;
  }

  lemma {:induction false} StrikesBit(
    c: Config, s: State, b: nat, partner: Option<nat>, d: Draws, n: nat, o: nat, j: nat)
    requires Shape(c, s) && b < |s.blocks| && DrawsOk(c, d) && n <= c.corruptionSize
    requires o < c.blockSize && c.target == Data
    requires partner.Some? ==> partner.value < |s.blocks| && partner.value != b
    ensures var r := Strikes(c, s, b, partner, d, n);
      && ByteBit(r.blocks[b].data[o], j)
         == After(d.fault, ByteBit(s.blocks[b].data[o], j), |Uncorrected(c, d, n, o, j)|)
      && (partner.Some? ==>
            ByteBit(r.blocks[partner.value].data[o], j)
              == After(d.fault, ByteBit(s.blocks[partner.value].data[o], j), |Covering(c, d, n, o, j)|))
    decreases n
  {
    hide Strike, Offset, ByteBit, After, Faulty, Reverted, Covering, Uncorrected;
    if n == 0 {
      NoneYet(c, d, s, b, partner, o, j);
    } else {
      StrikesBit(c, s, b, partner, d, n - 1, o, j);
      CoveringStep(c, d, n - 1, o, j);
      UncorrectedStep(c, d, n - 1, o, j);
      var t := Strikes(c, s, b, partner, d, n - 1);
      var mask, off := d.masks[n - 1], Offset(c, d.offsets[n - 1]);
      StrikeBit(c, t, b, partner, d.fault, mask, off, o, j);
      var under := off == o && ByteBit(mask, j);
      AfterStep(d.fault, ByteBit(s.blocks[b].data[o], j), |Uncorrected(c, d, n - 1, o, j)|,
        under && !Reverted(c, mask));
      if partner.Some? {
        AfterStep(d.fault, ByteBit(s.blocks[partner.value].data[o], j), |Covering(c, d, n - 1, o, j)|, under);
      }
    }
  }

  lemma NoneYet(c: Config, d: Draws, s: State, b: nat, partner: Option<nat>, o: nat, j: nat)
    requires Shape(c, s) && b < |s.blocks| && DrawsOk(c, d) && o < c.blockSize
    requires partner.Some? ==> partner.value < |s.blocks|
    ensures |Covering(c, d, 0, o, j)| == |Uncorrected(c, d, 0, o, j)| == 0
    ensures forall was: bool :: After(d.fault, was, 0) == was
  {
    assert Covering(c, d, 0, o, j) == {} == Uncorrected(c, d, 0, o, j);
  }

  /**
   * Every bit of the struck block after a whole attack: a flip toggles it exactly when an odd
   * number of strikes cover it that the protection model does not revert; a stuck-at gives it
   * the stuck value exactly when there is such a strike.  In the partner every covering strike
   * counts, reverted in the primary or not.
   */
  lemma AttackBits(c: Config, s: State, d: Draws, b: nat, o: nat, j: nat)
    requires Shape(c, s) && DrawsOk(c, d) && s.attackAt.Some? && Primary(c, s.blocks, d) == Some(b)
    requires c.target == Data && o < c.blockSize
    ensures var r, p := Attack(c, s, d), Partner(c, s.blocks, b);
      && ByteBit(r.blocks[b].data[o], j)
         == After(d.fault, ByteBit(s.blocks[b].data[o], j), |Uncorrected(c, d, c.corruptionSize, o, j)|)
      && (p.Some? ==>
            ByteBit(r.blocks[p.value].data[o], j)
              == After(d.fault, ByteBit(s.blocks[p.value].data[o], j), |Covering(c, d, c.corruptionSize, o, j)|))
  {
    hide Strikes, Primary, Partner, Interval, ByteBit, After, Covering, Uncorrected;
    StrikesBit(c, s, b, Partner(c, s.blocks, b), d, c.corruptionSize, o, j);
  }
}
