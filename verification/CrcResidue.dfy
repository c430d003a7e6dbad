/**
 * The absolute values of the checksum: a buffer followed by its own CRC always ends
 * in one fixed residue, which together with the empty buffer settles both constants.
 */
module CrcResidue {
  import opened Crc

  const RESIDUE: bv32 := 0x2144DF1C

  /** The lowest byte of a word. */
  function Low(v: bv32): bv8 {
    (v & 0xFF) as bv8
  }

  /** The word without its lowest byte. */
  function High(v: bv32): bv32 {
    v >> 8
  }

  /** The n lowest bytes of a word, lowest first. */
  function LittleEndian(v: bv32, n: nat): (s: seq<bv8>)
    ensures |s| == n
  {
    if n == 0 then [] else [Low(v)] + LittleEndian(High(v), n - 1)
  }

  /** What is left of a word after dropping its n lowest bytes. */
  function Rest(v: bv32, n: nat): bv32
    decreases n
  {
    if n == 0 then v else Rest(High(v), n - 1)
  }

  lemma RestOfFour(v: bv32)
    ensures Rest(v, 4) == 0
  {
    assert Rest(v, 4) == High(High(High(High(v))));
  }

  /** The word with its lowest byte cleared. */
  function Upper(v: bv32): bv32 {
    v & 0xFFFFFF00
  }

  lemma SplitByte(v: bv32)
    ensures v == Xor(Low(v) as bv32, Upper(v))
  {
  }

  lemma StepEven(x: bv32)
    ensures !Odd(x) ==> Step(x) == Half(x)
  {
    hide Step;
    StepCases(x);
  }

  predicate Clear(x: bv32, m: bv32) {
    x & m == 0
  }

  /** A word whose bits under m are clear halves to one whose bits under m / 2 are. */
  lemma HalfClear(x: bv32, m: bv32)
    requires Clear(x, m) && Odd(m)
    ensures !Odd(x) && Clear(Half(x), Half(m))
  {
  }

  function Nibble(x: bv32): bv32 {
    x >> 4
  }

  lemma HalvedFour(x: bv32)
    ensures Half(Half(Half(Half(x)))) == Nibble(x)
  {
  }

  lemma UpperClear(y: bv32)
    ensures Clear(Upper(y), 0xF)
  {
  }

  lemma UpperStillClear(y: bv32)
    ensures Clear(Nibble(Upper(y)), 0xF)
  {
  }

  lemma UpperShifted(y: bv32)
    ensures Nibble(Nibble(Upper(y))) == High(y)
  {
  }

  lemma Masks()
    ensures Odd(0xF) && Half(0xF) == 7 && Odd(7) && Half(7) == 3 && Odd(3) && Half(3) == 1 && Odd(1)
  {
  }

  /** Four zero bits leave the register as a plain shift. */
  lemma ZerosShift(x: bv32)
    requires Clear(x, 0xF)
    ensures Step(Step(Step(Step(x)))) == Nibble(x)
  {
    hide *;
    Masks();
    HalfClear(x, 0xF);
    HalfClear(Half(x), 7);
    HalfClear(Half(Half(x)), 3);
    HalfClear(Half(Half(Half(x))), 1);
    StepEven(x);
    StepEven(Half(x));
    StepEven(Half(Half(x)));
    StepEven(Half(Half(Half(x))));
    HalvedFour(x);
  }

  lemma ZeroByteShifts(y: bv32)
    ensures Steps(Upper(y), 8) == High(y)
  {
    hide *;
    var x := Upper(y);
    UpperClear(y);
    UpperStillClear(y);
    UpperShifted(y);
    EightSteps(x);
    ZerosShift(x);
    ZerosShift(Nibble(x));
  }

  lemma EightSteps(c: bv32)
    ensures Steps(c, 8) == Step(Step(Step(Step(Step(Step(Step(Step(c))))))))
    ensures Steps(c, 8) == FeedByte(c, 0)
  {
    hide Steps, Step, Xor;
    FeedByteUnfold(c, 0);
    XorNothing(c);
  }

  /** Eight steps of a register XORed with a word consume the word's lowest byte. */
  lemma ByteConsumed(c: bv32, v: bv32)
    ensures Steps(Xor(c, v), 8) == Xor(FeedByte(c, Low(v)), High(v))
  {
    hide Steps, Xor, Low, High, Upper;
    var low, high := Low(v) as bv32, Upper(v);
    SplitByte(v);
    XorAssociates(c, low, high);
    StepsLinear(Xor(c, low), high, 8);
    ZeroByteShifts(v);
  }

  lemma {:induction false} StepsAdd(c: bv32, m: nat, n: nat)
    ensures Steps(c, m + n) == Steps(Steps(c, m), n)
    decreases m
  {
    hide Step;
    if m > 0 {
      StepsAdd(Step(c), m - 1, n);
    }
  }

  /** Feeding n bytes of a word is one XOR of the word followed by 8n steps. */
  lemma {:induction false} WordConsumed(c: bv32, v: bv32, n: nat)
    ensures Steps(Xor(c, v), 8 * n) == Xor(Feed(c, LittleEndian(v, n)), Rest(v, n))
    decreases n
  {
    hide Steps, Xor, Low, High, FeedByte, Feed;
    if n == 0 {
      FeedUnfold(c, 0, []);
      StepsUnfold(Xor(c, v), 0);
    } else {
      StepsAdd(Xor(c, v), 8, 8 * (n - 1));
      ByteConsumed(c, v);
      WordConsumed(FeedByte(c, Low(v)), High(v), n - 1);
      FeedUnfold(c, Low(v), LittleEndian(High(v), n - 1));
    }
  }

  lemma FourBytes(c: bv32, v: bv32)
    ensures Feed(c, LittleEndian(v, 4)) == Steps(Xor(c, v), 32)
  {
    hide Steps, Xor, LittleEndian, Feed, Rest;
    WordConsumed(c, v, 4);
    RestOfFour(v);
    XorNothing(Feed(c, LittleEndian(v, 4)));
  }

  lemma OnesRunOut()
    ensures Steps(0xFFFFFFFF, 32) == 0xDEBB20E3
  {
    hide Steps, FeedByte;
    EightSteps(0xFFFFFFFF);
    EightSteps(0x2DFD1072);
    EightSteps(0xBE26ED00);
    EightSteps(0x00BE26ED);
    StepsAdd(0xFFFFFFFF, 8, 24);
    StepsAdd(0x2DFD1072, 8, 16);
    StepsAdd(0xBE26ED00, 8, 8);
  }

  /**
   * A buffer followed by four bytes checks to the residue exactly when those bytes are
   * the buffer's own CRC, lowest byte first.
   */
  lemma ResidueIff(x: seq<bv8>, v: bv32)
    ensures Crc32(x + LittleEndian(v, 4)) == RESIDUE <==> v == Crc32(x)
  {
    hide Steps, LittleEndian, Feed, Xor;
    var c := Feed(0xFFFFFFFF, x);
    FeedConcat(0xFFFFFFFF, x, LittleEndian(v, 4));
    FourBytes(c, v);
    OnesRunOut();
    ResidueComplement();
    XorSame(Steps(Xor(c, v), 32), 0xDEBB20E3, 0xFFFFFFFF);
    Complementary(c, v);
    if Steps(Xor(c, v), 32) == Steps(0xFFFFFFFF, 32) {
      StepsInjective(Xor(c, v), 0xFFFFFFFF, 32);
    }
  }

  lemma ResidueComplement()
    ensures Xor(0xDEBB20E3, 0xFFFFFFFF) == RESIDUE
  {
  }

  lemma Complementary(c: bv32, v: bv32)
    ensures Xor(c, v) == 0xFFFFFFFF <==> v == Xor(c, 0xFFFFFFFF)
  {
    hide Xor;
    XorSame(v, Xor(c, 0xFFFFFFFF), c);
    XorAssociates(c, c, 0xFFFFFFFF);
    XorUnit(c);
    XorUnit(0xFFFFFFFF);
    XorCommutes(0, 0xFFFFFFFF);
  }

  /** The empty buffer checks to zero, so the initial and final complements cancel. */
  lemma EmptyCrc()
    ensures Crc32([]) == 0
  {
  }

  /** The published check value of the function, that of the digits 1 to 9 in ASCII. */
  lemma CheckValue()
    ensures Crc32([0x31, 0x32, 0x33, 0x34, 0x35, 0x36, 0x37, 0x38, 0x39]) == 0xCBF43926
  {
    hide Feed;
    FirstDigits();
    LastDigits();
    var first: seq<bv8>, last: seq<bv8> := [0x31, 0x32, 0x33, 0x34, 0x35], [0x36, 0x37, 0x38, 0x39];
    FeedConcat(0xFFFFFFFF, first, last);
    assert first + last == [0x31, 0x32, 0x33, 0x34, 0x35, 0x36, 0x37, 0x38, 0x39];
  }

  lemma FirstDigits()
    ensures Feed(0xFFFFFFFF, [0x31, 0x32, 0x33, 0x34, 0x35]) == 0x340AC5E3
  {
    hide FeedByte;
    FeedByteUnfold(0xFFFFFFFF, 0x31);
    FeedByteUnfold(0x7C231048, 0x32);
    FeedByteUnfold(0xB0ACBB32, 0x33);
    FeedByteUnfold(0x77B79C2D, 0x34);
    FeedByteUnfold(0x641C1F5C, 0x35);
    FeedFive(0xFFFFFFFF, 0x31, 0x32, 0x33, 0x34, 0x35);
  }

  lemma LastDigits()
    ensures Feed(0x340AC5E3, [0x36, 0x37, 0x38, 0x39]) == 0x340BC6D9
  {
    hide FeedByte;
    FeedByteUnfold(0x340AC5E3, 0x36);
    FeedByteUnfold(0xF68D2C9E, 0x37);
    FeedByteUnfold(0xAFFC9660, 0x38);
    FeedByteUnfold(0x651F2550, 0x39);
    FeedFour(0x340AC5E3, 0x36, 0x37, 0x38, 0x39);
  }

  lemma FeedFour(c: bv32, a: bv8, b: bv8, d: bv8, e: bv8)
    ensures Feed(c, [a, b, d, e]) == FeedByte(FeedByte(FeedByte(FeedByte(c, a), b), d), e)
  {
    hide *;
    var c1 := FeedByte(c, a);
    var c2 := FeedByte(c1, b);
    var c3 := FeedByte(c2, d);
    FeedUnfold(c, a, [b, d, e]);
    FeedUnfold(c1, b, [d, e]);
    FeedUnfold(c2, d, [e]);
    FeedUnfold(c3, e, []);
    FeedUnfold(FeedByte(c3, e), e, []);
    assert [a, b, d, e] == [a] + [b, d, e] && [b, d, e] == [b] + [d, e];
    assert [d, e] == [d] + [e] && [e] == [e] + [];
  }
}
