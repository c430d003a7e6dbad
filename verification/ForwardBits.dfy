/** What the corruption hook does to every bit of the forwarded bytes. */
module ForwardBits {
  import opened ByteWindow
  import opened Bits
  import opened IntArith
  import opened WindowFaults
  import opened ForwardSpec

  // ---- A mask over a window of bytes, bit by bit ----------------------------------------------

  lemma BitUnfold(v: bv64, j: nat)
    requires j > 0
    ensures Bit(v, j) == Bit(Half(v), j - 1)
  {
    hide Half;
  }

  lemma BitBeyond(v: bv64, j: nat)
    ensures Bit(v, j + 8) == Bit(Down(v), j)
  {
    hide *;
    EightHalves(v);
    var x := Half(Half(Half(Half(v))));
    BitUnfold(v, j + 8);
    BitUnfold(Half(v), j + 7);
    BitUnfold(Half(Half(v)), j + 6);
    BitUnfold(Half(Half(Half(v))), j + 5);
    BitUnfold(x, j + 4);
    BitUnfold(Half(x), j + 3);
    BitUnfold(Half(Half(x)), j + 2);
    BitUnfold(Half(Half(Half(x))), j + 1);
  }

  const HIGH_BYTES: bv64 := 0xFFFFFFFFFFFFFF00

  lemma HalvesOfHigh()
    ensures !Odd(HIGH_BYTES) && Half(HIGH_BYTES) == 0x7FFFFFFFFFFFFF80
    ensures !Odd(0x7FFFFFFFFFFFFF80) && Half(0x7FFFFFFFFFFFFF80) == 0x3FFFFFFFFFFFFFC0
    ensures !Odd(0x3FFFFFFFFFFFFFC0) && Half(0x3FFFFFFFFFFFFFC0) == 0x1FFFFFFFFFFFFFE0
    ensures !Odd(0x1FFFFFFFFFFFFFE0) && Half(0x1FFFFFFFFFFFFFE0) == 0x0FFFFFFFFFFFFFF0
    ensures !Odd(0x0FFFFFFFFFFFFFF0) && Half(0x0FFFFFFFFFFFFFF0) == 0x07FFFFFFFFFFFFF8
    ensures !Odd(0x07FFFFFFFFFFFFF8) && Half(0x07FFFFFFFFFFFFF8) == 0x03FFFFFFFFFFFFFC
    ensures !Odd(0x03FFFFFFFFFFFFFC) && Half(0x03FFFFFFFFFFFFFC) == 0x01FFFFFFFFFFFFFE
    ensures !Odd(0x01FFFFFFFFFFFFFE)
  {
  }

  lemma LowestBit(v: bv64)
    ensures Bit(v, 0) == Odd(v)
  {
  }

  lemma NotHigh(j: nat)
    requires j < 8
    ensures !Bit(HIGH_BYTES, j)
  {
    hide *;
    HalvesOfHigh();
    if j == 0 { LowestBit(HIGH_BYTES); return; }
    BitUnfold(HIGH_BYTES, j);
    if j == 1 { LowestBit(0x7FFFFFFFFFFFFF80); return; }
    BitUnfold(0x7FFFFFFFFFFFFF80, j - 1);
    if j == 2 { LowestBit(0x3FFFFFFFFFFFFFC0); return; }
    BitUnfold(0x3FFFFFFFFFFFFFC0, j - 2);
    if j == 3 { LowestBit(0x1FFFFFFFFFFFFFE0); return; }
    BitUnfold(0x1FFFFFFFFFFFFFE0, j - 3);
    if j == 4 { LowestBit(0x0FFFFFFFFFFFFFF0); return; }
    BitUnfold(0x0FFFFFFFFFFFFFF0, j - 4);
    if j == 5 { LowestBit(0x07FFFFFFFFFFFFF8); return; }
    BitUnfold(0x07FFFFFFFFFFFFF8, j - 5);
    if j == 6 { LowestBit(0x03FFFFFFFFFFFFFC); return; }
    BitUnfold(0x03FFFFFFFFFFFFFC, j - 6);
    LowestBit(0x01FFFFFFFFFFFFFE);
  }

  lemma LowWidened(v: bv64)
    ensures Low(v) as bv64 == ApplyWord(StuckAtZero, v, HIGH_BYTES)
  {
  }

  /** The lowest byte of a word has the word's lowest eight bits. */
  lemma LowBit(v: bv64, j: nat)
    requires j < 8
    ensures ByteBit(Low(v), j) == Bit(v, j)
  {
    hide Bit, Low, ApplyWord, ByteBit;
    ByteBitUnfold(Low(v), j);
    LowWidened(v);
    WordBit(StuckAtZero, v, HIGH_BYTES, j);
    NotHigh(j);
  }

  lemma ByteBitUnfold(b: bv8, j: nat)
    ensures ByteBit(b, j) == Bit(b as bv64, j)
  {
  }

  /** Bit j of byte i of a window is faulted by bit 8i + j of the mask. */
  lemma {:induction false} WindowBit(f: Fault, s: seq<bv8>, m: bv64, i: nat, j: nat)
    requires i < |s| && j < 8
    ensures ByteBit(Faulted(f, s, m)[i], j) == Faulty(f, ByteBit(s[i], j), Bit(m, 8 * i + j))
    decreases s
  {
    hide ByteBit, Bit, ApplyByte, Low, Down, Faulty;
    if i == 0 {
      ByteStruck(f, s[0], Low(m), j);
      LowBit(m, j);
    } else {
      WindowBit(f, s[1..], Down(m), i - 1, j);
      BitBeyond(m, 8 * (i - 1) + j);
    }
  }

  // ---- The corruption hook ----------------------------------------------------------------------

  /** The lowest byte of the window: the configured one, the drawn one when it is negative, at most the last. */
  function LowByte(c: Config, size: nat, drawn: nat): nat
    requires drawn < size
  {
    if c.byteOffset < 0 then drawn else if c.byteOffset < size then c.byteOffset else size - 1
  }

  /** Byte o is in the window: its lowest byte, or one of the maskWidth, at most eight, from there on. */
  predicate InReach(c: Config, size: nat, drawn: nat, o: nat)
    requires drawn < size
  {
    var low := LowByte(c, size, drawn);
    o == low || low < o < low + (if c.maskWidth < 8 then c.maskWidth else 8)
  }

  lemma ReachIff(c: Config, size: nat, drawn: nat, o: nat)
    requires drawn < size && o < size
    ensures var w := ForwardWindow(c.byteOffset, drawn, c.maskWidth, size);
      w.off == LowByte(c, size, drawn) && (InReach(c, size, drawn, o) <==> w.off <= o < w.off + w.width)
  {
  }

  /** The distance of a byte-lane skew: the configured or drawn one, at least one and below the size. */
  predicate SkewedBy(c: Config, drawn: int, size: nat, k: nat) {
    var wanted := if c.skewBytes == 0 then drawn else c.skewBytes;
    && (wanted <= 1 && size > 1 ==> k == 1)
    && (1 < wanted < size ==> k == wanted)
    && (wanted >= size || size == 1 ==> k == size - 1)
  }

  /**
   * Forwarded bytes after a fault.  Without a structural fault, bit j of byte o is faulted exactly
   * when the byte is in the window and the mask has the bit at its place; a skew delivers to every
   * lane the byte of the lane k further on; and the all-zero fault delivers nothing else.
   */
  lemma CorruptedBytes(c: Config, data: seq<bv8>, skew: int, byte: nat, f: Fault, mask: bv64, o: nat, j: nat)
    requires byte < |data| && o < |data| && j < 8
    ensures var r := Corrupted(c, data, skew, byte, f, mask);
      match c.structural
      case NoStructural =>
        var under := InReach(c, |data|, byte, o) && Bit(mask, 8 * (o - LowByte(c, |data|, byte)) + j);
        ByteBit(r[o], j) == Faulty(f, ByteBit(data[o], j), under)
      case ByteLaneSkew => exists k: nat :: SkewedBy(c, skew, |data|, k) && r[o] == data[(o + k) % |data|]
      case AllZero => r[o] == 0
  {
    hide Faulted, ByteBit, Bit, Faulty, LowByte;
    match c.structural
    case NoStructural =>
      ReachIff(c, |data|, byte, o);
      var w := ForwardWindow(c.byteOffset, byte, c.maskWidth, |data|);
      if w.off <= o < w.off + w.width {
        WindowBit(f, data[w.off..w.off + w.width], mask, o - w.off, j);
      }
      NoFault(f, ByteBit(data[o], j));
    case ByteLaneSkew =>
      var k := SkewAmount(c.skewBytes, skew, |data|);
      assert SkewedBy(c, skew, |data|, k);
      WrapIndex(o, k, |data|);
    case AllZero =>
  }

  lemma NoFault(f: Fault, bit: bool)
    ensures Faulty(f, bit, false) == bit
  {
  }
}
