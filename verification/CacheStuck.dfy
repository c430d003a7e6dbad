/** The cache's protection model against pairing and against recorded stuck-at faults, for whole attacks. */
module CacheStuck {
  import opened Options
  import opened ByteWindow
  import opened Injection
  import opened CacheSpec
  import opened CacheRuns

  // ---- The partner block -----------------------------------------------------------------------------

  lemma {:induction false} PartnerStrikes(
    c: Config, x: Protection, s: State, b: nat, p: nat, d: Draws, n: nat)
    requires Shape(c, s) && b < |s.blocks| && p < |s.blocks| && p != b && DrawsOk(c, d) && n <= c.corruptionSize
    ensures Strikes(c.(protection := x), s, b, Some(p), d, n).blocks[p] == Strikes(c, s, b, Some(p), d, n).blocks[p]
    decreases n
  {
    hide Offset, SetByte, Record, ApplyByte, Judge, FieldBytes, CountFault, CountOutcome;
    if n > 0 {
      PartnerStrikes(c, x, s, b, p, d, n - 1);
      SameOffset(c, x, d.offsets[n - 1]);
      StrikePartnerSame(c, x, Strikes(c, s, b, Some(p), d, n - 1),
        Strikes(c.(protection := x), s, b, Some(p), d, n - 1), b, p,
        d.fault, d.masks[n - 1], Offset(c, d.offsets[n - 1]));
    }
  }

  lemma SameOffset(c: Config, x: Protection, drawn: nat)
    requires Legal(c)
    ensures Offset(c.(protection := x), drawn) == Offset(c, drawn)
  {
  }

  lemma StrikePartnerSame(
    c: Config, x: Protection, s: State, t: State, b: nat, p: nat, f: Fault, mask: bv8, off: nat)
    requires Shape(c, s) && Shape(c, t) && b < |s.blocks| == |t.blocks| && p < |s.blocks| && p != b && off < c.blockSize
    requires s.blocks[p] == t.blocks[p]
    ensures Strike(c.(protection := x), t, b, Some(p), f, mask, off).blocks[p]
         == Strike(c, s, b, Some(p), f, mask, off).blocks[p]
  {
    hide SetByte, Record, ApplyByte, Judge, FieldBytes, CountFault, CountOutcome;
  }

  /** No protection model protects the partner: an attack leaves it the same under every model, none included. */
  lemma PartnerUnprotected(c: Config, x: Protection, s: State, d: Draws)
    requires Shape(c, s) && DrawsOk(c, d) && s.attackAt.Some? && Primary(c, s.blocks, d).Some?
    requires Partner(c, s.blocks, Primary(c, s.blocks, d).value).Some?
    ensures var p := Partner(c, s.blocks, Primary(c, s.blocks, d).value).value;
      Attack(c.(protection := x), s, d).blocks[p] == Attack(c, s, d).blocks[p]
  {
    hide Strikes, Interval, ValidBlocks;
    var b := Primary(c, s.blocks, d).value;
    var p := Partner(c, s.blocks, b).value;
    PartnerStrikes(c, x, s, b, p, d, c.corruptionSize);
  }

  // ---- Corrected faults --------------------------------------------------------------------------------

  /** The mask of the last strike at an offset, among the first n of an attack. */
  function LastMask(c: Config, d: Draws, n: nat, o: nat): Option<bv8>
    requires Legal(c) && DrawsOk(c, d) && n <= c.corruptionSize
  {
    if n == 0 then None
    else if d.masks[n - 1] != 0 && Offset(c, d.offsets[n - 1]) == o then Some(d.masks[n - 1])
    else LastMask(c, d, n - 1, o)
  }

  function Lookup(stuck: map<Place, Stuck>, p: Place): Option<Stuck> {
    if p in stuck then Some(stuck[p]) else None
  }

  lemma StrikeTable(
    c: Config, s: State, b: nat, partner: Option<nat>, f: Fault, mask: bv8, off: nat, at: Place)
    requires Shape(c, s) && b < |s.blocks| && off < c.blockSize && c.target == Data
    requires partner.Some? ==> partner.value < |s.blocks|
    ensures Lookup(Strike(c, s, b, partner, f, mask, off).stuck, at)
         == if f != BitFlip && mask != 0 && off == at.off && Hit(s.blocks, b, partner, at.number)
            then Some(Stuck(f, mask)) else Lookup(s.stuck, at)
  {
    hide SetByte, ApplyByte, Judge, CountFault, CountOutcome;
  }

  /** The blocks an attack strikes, by number. */
  predicate Hit(blocks: seq<Block>, b: nat, partner: Option<nat>, number: nat)
    requires b < |blocks| && (partner.Some? ==> partner.value < |blocks|)
  {
    number == blocks[b].number || (partner.Some? && number == blocks[partner.value].number)
  }

  lemma {:induction false} StrikesTable(
    c: Config, s: State, b: nat, partner: Option<nat>, d: Draws, n: nat, at: Place)
    requires Shape(c, s) && b < |s.blocks| && DrawsOk(c, d) && n <= c.corruptionSize && c.target == Data
    requires partner.Some? ==> partner.value < |s.blocks|
    ensures Lookup(Strikes(c, s, b, partner, d, n).stuck, at)
         == if d.fault != BitFlip && LastMask(c, d, n, at.off).Some? && Hit(s.blocks, b, partner, at.number)
            then Some(Stuck(d.fault, LastMask(c, d, n, at.off).value)) else Lookup(s.stuck, at)
    decreases n
  {
    hide Strike, Offset, Lookup;
    if n > 0 {
      StrikesTable(c, s, b, partner, d, n - 1, at);
      StrikesKeepTags(c, s, b, partner, d, n - 1, b);
      if partner.Some? {
        StrikesKeepTags(c, s, b, partner, d, n - 1, partner.value);
      }
      StrikeTable(c, Strikes(c, s, b, partner, d, n - 1), b, partner, d.fault, d.masks[n - 1],
        Offset(c, d.offsets[n - 1]), at);
    }
  }

  /** After an attack the table has the last stuck-at of every byte struck, partner included, and is else unchanged. */
  lemma AttackTable(c: Config, s: State, d: Draws, b: nat, at: Place)
    requires Shape(c, s) && DrawsOk(c, d) && s.attackAt.Some? && c.target == Data
    requires Primary(c, s.blocks, d) == Some(b)
    ensures Lookup(Attack(c, s, d).stuck, at)
         == if d.fault != BitFlip && LastMask(c, d, c.corruptionSize, at.off).Some?
               && Hit(s.blocks, b, Partner(c, s.blocks, b), at.number)
            then Some(Stuck(d.fault, LastMask(c, d, c.corruptionSize, at.off).value)) else Lookup(s.stuck, at)
  {
    hide Strikes, Primary, Partner, Interval, LastMask;
    StrikesTable(c, s, b, Partner(c, s.blocks, b), d, c.corruptionSize, at);
  }

  /** What the check leaves at one byte of a block. */
  lemma CheckedByte(c: Config, s: State, b: nat, o: nat)
    requires Shape(c, s) && b < |s.blocks| && o < c.blockSize
    ensures |Check(c, s).blocks[b].data| == c.blockSize
    ensures Check(c, s).blocks[b].data[o] == RecheckByte(s.blocks, s.stuck, b, o)
    ensures SameTag(s.blocks[b], Check(c, s).blocks[b])
  {
    hide RecheckByte, RecheckData, Rechecked;
    assert Rechecked(s.blocks, s.stuck)[b] == s.blocks[b].(data := RecheckData(s.blocks, s.stuck, b));
  }

  /** One byte of the primary, after a corrected attack and the check. */
  lemma CorrectedByte(c: Config, s: State, d: Draws, b: nat, o: nat)
    requires Shape(c, s) && DrawsOk(c, d) && s.attackAt.Some? && Primary(c, s.blocks, d) == Some(b)
    requires c.target == Data && c.protection != Unprotected && AtMostOneBit(d.masks) && o < c.blockSize
    ensures Attack(c, s, d).blocks[b] == s.blocks[b]
    ensures RecheckByte(Attack(c, s, d).blocks, Attack(c, s, d).stuck, b, o)
         == if d.fault != BitFlip && IsLast(s.blocks, b) && LastMask(c, d, c.corruptionSize, o).Some?
            then ApplyByte(d.fault, s.blocks[b].data[o], LastMask(c, d, c.corruptionSize, o).value)
            else RecheckByte(s.blocks, s.stuck, b, o)
  {
    hide Strikes, Primary, Partner, Interval, AtMostOneBit, ApplyByte, LastMask, IsLast;
    var partner := Partner(c, s.blocks, b);
    AttackLeavesPrimary(c, s, d);
    StrikesTable(c, s, b, partner, d, c.corruptionSize, Place(s.blocks[b].number, o));
    var t := Attack(c, s, d);
    forall k: nat | k < |s.blocks| ensures SameTag(s.blocks[k], t.blocks[k]) {
      StrikesKeepTags(c, s, b, partner, d, c.corruptionSize, k);
    }
    SameLast(s.blocks, t.blocks, b);
  }

  /** The byte a strike would have left is the one the check leaves anyway. */
  predicate Harmless(c: Config, s: State, d: Draws, b: nat, o: nat)
    requires Shape(c, s) && DrawsOk(c, d) && b < |s.blocks| && o < c.blockSize
  {
    LastMask(c, d, c.corruptionSize, o).Some? ==>
      ApplyByte(d.fault, s.blocks[b].data[o], LastMask(c, d, c.corruptionSize, o).value)
        == RecheckByte(s.blocks, s.stuck, b, o)
  }

  /**
   * One-bit faults under a protection model leave the primary block as it was.  After the check it
   * is still what it would have been without the attack exactly when the fault is a flip, the check
   * does not reach the block, or every struck byte is harmless.
   */
  lemma CorrectedStaysIff(c: Config, s: State, d: Draws, b: nat)
    requires Shape(c, s) && DrawsOk(c, d) && s.attackAt.Some? && Primary(c, s.blocks, d) == Some(b)
    requires c.target == Data && c.protection != Unprotected && AtMostOneBit(d.masks)
    ensures Attack(c, s, d).blocks[b] == s.blocks[b]
    ensures Check(c, Attack(c, s, d)).blocks[b] == Check(c, s).blocks[b] <==>
      || d.fault == BitFlip
      || !IsLast(s.blocks, b)
      || forall o: nat :: o < c.blockSize ==> Harmless(c, s, d, b, o)
  {
    hide Attack, Check, Primary, AtMostOneBit, ApplyByte, LastMask, IsLast, RecheckByte;
    var t := Attack(c, s, d);
    var x, y := Check(c, t).blocks[b], Check(c, s).blocks[b];
    assert c.blockSize > 0;
    CorrectedByte(c, s, d, b, 0);
    CheckedByte(c, t, b, 0);
    CheckedByte(c, s, b, 0);
    forall o: nat | o < c.blockSize
      ensures x.data[o] == y.data[o] <==> d.fault == BitFlip || !IsLast(s.blocks, b) || Harmless(c, s, d, b, o)
    {
      CorrectedByte(c, s, d, b, o);
      CheckedByte(c, t, b, o);
      CheckedByte(c, s, b, o);
    }
    if d.fault == BitFlip || !IsLast(s.blocks, b) || forall o: nat :: o < c.blockSize ==> Harmless(c, s, d, b, o) {
      assert x.data == y.data;
    } else {
      var o: nat :| o < c.blockSize && !Harmless(c, s, d, b, o);
      assert x.data[o] != y.data[o];
    }
  }

  /** A byte not recorded before is harmless exactly when it shows the stuck bit already. */
  lemma HarmlessIff(c: Config, s: State, d: Draws, b: nat, o: nat)
    requires Shape(c, s) && DrawsOk(c, d) && b < |s.blocks| && o < c.blockSize && d.fault != BitFlip
    requires Place(s.blocks[b].number, o) !in s.stuck
    ensures Harmless(c, s, d, b, o) <==>
      (LastMask(c, d, c.corruptionSize, o).Some? ==>
        Shows(s.blocks[b].data[o], Stuck(d.fault, LastMask(c, d, c.corruptionSize, o).value)))
  {
    hide ApplyByte, LastMask, IsLast, Shows;
    var m := LastMask(c, d, c.corruptionSize, o);
    if m.Some? {
      ShowsIff(s.blocks[b].data[o], Stuck(d.fault, m.value));
    }
  }
}
