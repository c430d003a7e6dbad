/** Single bits of a word: what each fault does to them, and how many are set. */
module Bits {
  import opened ByteWindow

  function Half(v: bv64): bv64 {
    v >> 1
  }

  predicate Odd(v: bv64) {
    v & 1 == 1
  }

  predicate Bit(v: bv64, j: nat)
    decreases j
  {
    if j == 0 then Odd(v) else Bit(Half(v), j - 1)
  }

  predicate ByteBit(b: bv8, j: nat) {
    Bit(b as bv64, j)
  }

  /** The positions of the bits set. */
  function Ones(v: bv64): set<nat> {
    set j: nat | j < 64 && Bit(v, j)
  }

  /** How many bits of a byte are set. */
  function BitsIn(b: bv8): nat {
    |Ones(b as bv64)|
  }

  /** What a fault makes of a bit that is or is not under its mask. */
  function Faulty(f: Fault, bit: bool, under: bool): bool {
    match f
    case BitFlip => bit != under
    case StuckAtZero => bit && !under
    case StuckAtOne => bit || under
  }

  // ---- Faults, bit by bit -----------------------------------------------------------------

  lemma LowestFlip(v: bv64, m: bv64)
    ensures Odd(ApplyWord(BitFlip, v, m)) == (Odd(v) != Odd(m))
  {
  }

  lemma LowestZero(v: bv64, m: bv64)
    ensures Odd(ApplyWord(StuckAtZero, v, m)) == (Odd(v) && !Odd(m))
  {
  }

  lemma LowestOne(v: bv64, m: bv64)
    ensures Odd(ApplyWord(StuckAtOne, v, m)) == (Odd(v) || Odd(m))
  {
  }

  lemma LowestFaulty(f: Fault, v: bv64, m: bv64)
    ensures Odd(ApplyWord(f, v, m)) == Faulty(f, Odd(v), Odd(m))
  {
    hide ApplyWord, Odd;
    match f
    case BitFlip => LowestFlip(v, m);
    case StuckAtZero => LowestZero(v, m);
    case StuckAtOne => LowestOne(v, m);
  }

  lemma HalfFlip(v: bv64, m: bv64)
    ensures Half(ApplyWord(BitFlip, v, m)) == ApplyWord(BitFlip, Half(v), Half(m))
  {
  }

  lemma HalfZero(v: bv64, m: bv64)
    ensures Half(ApplyWord(StuckAtZero, v, m)) == ApplyWord(StuckAtZero, Half(v), Half(m))
  {
  }

  lemma HalfOne(v: bv64, m: bv64)
    ensures Half(ApplyWord(StuckAtOne, v, m)) == ApplyWord(StuckAtOne, Half(v), Half(m))
  {
  }

  lemma HalfFaulty(f: Fault, v: bv64, m: bv64)
    ensures Half(ApplyWord(f, v, m)) == ApplyWord(f, Half(v), Half(m))
  {
    hide ApplyWord, Half;
    match f
    case BitFlip => HalfFlip(v, m);
    case StuckAtZero => HalfZero(v, m);
    case StuckAtOne => HalfOne(v, m);
  }

  lemma {:induction false} WordBit(f: Fault, v: bv64, m: bv64, j: nat)
    ensures Bit(ApplyWord(f, v, m), j) == Faulty(f, Bit(v, j), Bit(m, j))
    decreases j
  {
    hide ApplyWord, Half, Odd, Faulty;
    if j == 0 {
      LowestFaulty(f, v, m);
    } else {
      HalfFaulty(f, v, m);
      WordBit(f, Half(v), Half(m), j - 1);
    }
  }

  lemma WidenFlip(b: bv8, m: bv8)
    ensures ApplyByte(BitFlip, b, m) as bv64 == ApplyWord(BitFlip, b as bv64, m as bv64)
  {
  }

  lemma WidenZero(b: bv8, m: bv8)
    ensures ApplyByte(StuckAtZero, b, m) as bv64 == ApplyWord(StuckAtZero, b as bv64, m as bv64)
  {
  }

  lemma WidenOne(b: bv8, m: bv8)
    ensures ApplyByte(StuckAtOne, b, m) as bv64 == ApplyWord(StuckAtOne, b as bv64, m as bv64)
  {
  }

  lemma Widened(f: Fault, b: bv8, m: bv8)
    ensures ApplyByte(f, b, m) as bv64 == ApplyWord(f, b as bv64, m as bv64)
  {
    hide ApplyWord, ApplyByte;
    match f
    case BitFlip => WidenFlip(b, m);
    case StuckAtZero => WidenZero(b, m);
    case StuckAtOne => WidenOne(b, m);
  }

  /** A fault on a byte changes each bit by itself. */
  lemma ByteStruck(f: Fault, b: bv8, m: bv8, j: nat)
    ensures ByteBit(ApplyByte(f, b, m), j) == Faulty(f, ByteBit(b, j), ByteBit(m, j))
  {
    hide ApplyWord, ApplyByte, Bit, Faulty;
    Widened(f, b, m);
    WordBit(f, b as bv64, m as bv64, j);
  }

  lemma {:induction false} ZeroBit(j: nat)
    ensures !Bit(0, j)
    decreases j
  {
    if j > 0 {
      assert Half(0) == 0;
      ZeroBit(j - 1);
    }
  }

  // ---- The number of bits -------------------------------------------------------------------

  /** Bits set among the lowest n. */
  function Weight(v: bv64, n: nat): nat {
    if n == 0 then 0 else Weight(v, n - 1) + if Bit(v, n - 1) then 1 else 0
  }

  /** Counted from below: the lowest bit and those of the half. */
  lemma {:induction false} WeightLow(v: bv64, n: nat)
    requires n > 0
    ensures Weight(v, n) == (if Odd(v) then 1 else 0) + Weight(Half(v), n - 1)
  {
    hide Odd, Half;
    if n > 1 {
      WeightLow(v, n - 1);
    }
  }

  lemma {:induction false} WeightZero(n: nat)
    ensures Weight(0, n) == 0
  {
    hide Bit;
    if n > 0 {
      WeightZero(n - 1);
      ZeroBit(n - 1);
    }
  }

  lemma DropOdd(v: bv64)
    requires v != 0 && Odd(v)
    ensures !Odd(DropLowest(v)) && Half(DropLowest(v)) == Half(v)
  {
  }

  lemma DropEven(v: bv64)
    requires v != 0 && !Odd(v)
    ensures Half(v) != 0 && !Odd(DropLowest(v)) && Half(DropLowest(v)) == DropLowest(Half(v))
  {
  }

  /** Dropping the lowest set bit takes one away. */
  lemma {:induction false} WeightDrop(v: bv64, n: nat)
    requires v != 0
    ensures Fits(v, n) ==> Weight(v, n) == 1 + Weight(DropLowest(v), n) && Fits(DropLowest(v), n)
    decreases n
  {
    hide Odd, Half, DropLowest, Weight;
    if n > 0 && Fits(v, n) {
      WeightLow(v, n);
      WeightLow(DropLowest(v), n);
      if Odd(v) {
        DropOdd(v);
      } else {
        DropEven(v);
        WeightDrop(Half(v), n - 1);
      }
    }
  }

  /** No bit at position n or above. */
  predicate Fits(v: bv64, n: nat)
    decreases n
  {
    if n == 0 then v == 0 else Fits(Half(v), n - 1)
  }

  lemma FitsZero()
    ensures Fits(0, 0)
  {
  }

  lemma EightHalves(v: bv64)
    ensures Half(Half(Half(Half(Half(Half(Half(Half(v)))))))) == Down(v)
  {
  }

  lemma EightBytes(v: bv64)
    ensures Down(Down(Down(Down(Down(Down(Down(Down(v)))))))) == 0
  {
  }

  lemma FitsEight(v: bv64, n: nat)
    ensures Fits(v, n + 8) <==> Fits(Down(v), n)
  {
    hide Half, Down;
    EightHalves(v);
    var x := Half(Half(Half(Half(v))));
    assert Fits(v, n + 8) == Fits(Half(v), n + 7) == Fits(Half(Half(v)), n + 6) == Fits(Half(Half(Half(v))), n + 5);
    assert Fits(x, n + 4) == Fits(Half(x), n + 3) == Fits(Half(Half(x)), n + 2) == Fits(Half(Half(Half(x))), n + 1);
  }

  lemma FitsWord(v: bv64)
    ensures Fits(v, 64)
  {
    hide Fits, Down;
    FitsEight(v, 56);
    var x := Down(v);
    FitsEight(x, 48);
    FitsEight(Down(x), 40);
    FitsEight(Down(Down(x)), 32);
    var y := Down(Down(Down(x)));
    FitsEight(y, 24);
    FitsEight(Down(y), 16);
    FitsEight(Down(Down(y)), 8);
    FitsEight(Down(Down(Down(y))), 0);
    EightBytes(v);
    FitsZero();
  }

  lemma PopCountUnfold(v: bv64)
    ensures PopCount(v) == if v == 0 then 0 else 1 + PopCount(DropLowest(v))
  {
    hide DropLowest;
  }

  lemma {:induction false} PopCountIsWeight(v: bv64, n: nat)
    requires Fits(v, n)
    ensures PopCount(v) == Weight(v, n)
    decreases Weight(v, n)
  {
    hide Fits, Weight, DropLowest, PopCount;
    PopCountUnfold(v);
    if v == 0 {
      WeightZero(n);
    } else {
      WeightDrop(v, n);
      PopCountIsWeight(DropLowest(v), n);
    }
  }

  function OnesBelow(v: bv64, n: nat): set<nat> {
    set j: nat | j < n && Bit(v, j)
  }

  lemma {:induction false} WeightIsOnes(v: bv64, n: nat)
    ensures |OnesBelow(v, n)| == Weight(v, n)
  {
    hide Bit;
    if n == 0 {
      assert OnesBelow(v, n) == {};
    } else {
      WeightIsOnes(v, n - 1);
      assert OnesBelow(v, n) == OnesBelow(v, n - 1) + if Bit(v, n - 1) then {n - 1} else {};
    }
  }

  /** Clearing the lowest set bit until none is left counts the bits set. */
  lemma PopCountIsOnes(v: bv64)
    ensures PopCount(v) == |Ones(v)|
  {
    FitsWord(v);
    PopCountIsWeight(v, 64);
    WeightIsOnes(v, 64);
    assert Ones(v) == OnesBelow(v, 64);
  }

  lemma ByteCount(b: bv8)
    ensures PopCount(b as bv64) == BitsIn(b)
  {
    hide PopCount, Ones;
    PopCountIsOnes(b as bv64);
  }
}
