/**
 * Where the three read-modify-write injectors aim their window, and the byte-lane skew:
 * the forwarding path, a vector register lane, a field of an A64 instruction word.
 */
module WindowFaults {
  import opened ByteWindow
  import opened IntArith

  // ---- Forwarded data ---------------------------------------------------------------------

  datatype Window = Window(off: nat, width: nat)

  /** Low byte and width of the forwarding window, clamped to the forwarded size. */
  function ForwardWindow(byteOffset: int, draw: nat, maskWidth: int, size: nat): (w: Window)
    requires size > 0 && draw < size
    ensures 1 <= w.width <= 8 && w.off + w.width <= size
    ensures 0 <= byteOffset < size ==> w.off == byteOffset
    ensures 1 <= maskWidth <= 8 && w.off + maskWidth <= size ==> w.width == maskWidth
  {
    var chosen := if byteOffset < 0 then draw else byteOffset;
    var off := if chosen >= size then size - 1 else chosen;
    var bounded := if maskWidth < 1 then 1 else if maskWidth > 8 then 8 else maskWidth;
    Window(off, if off + bounded > size then size - off else bounded)
  }

  /** n bytes of ones. */
  function LowOnes(n: nat): bv64 {
    if n == 0 then 0 else Push(LowOnes(n - 1), 0xff)
  }

  lemma AndNothing(m: bv64)
    ensures And(m, 0) == 0
  {
  }

  lemma TruncateStep(m: bv64, k: bv64)
    ensures Push(And(Down(m), k), Low(m)) == And(m, Push(k, 0xff))
  {
  }

  /** Keeping the n low bytes is masking with n bytes of ones. */
  lemma {:induction false} TruncateIsMask(m: bv64, n: nat)
    ensures Truncate(m, n) == And(m, LowOnes(n))
    decreases n
  {
    hide Push, Down, Low, And;
    if n == 0 {
      PackNothing();
      AndNothing(m);
    } else {
      TruncateIsMask(Down(m), n - 1);
      TruncateStep(m, LowOnes(n - 1));
      assert Unpack(m, n)[1..] == Unpack(Down(m), n - 1);
    }
  }

  /** Corrupt one clamped window of forwarded data. */
  method CorruptForwarded(data: array<bv8>, byteOffset: int, draw: nat, maskWidth: int, f: Fault, mask: bv64)
    returns (w: Window)
    requires data.Length > 0 && draw < data.Length
    modifies data
    ensures w == ForwardWindow(byteOffset, draw, maskWidth, data.Length)
    ensures data[..] == old(data[..w.off]) + Faulted(f, old(data[w.off..w.off + w.width]), mask)
                      + old(data[w.off + w.width..])
  {
    hide Faulted, Truncate, Pack, Unpack, LowOnes, And;
    w := ForwardWindow(byteOffset, draw, maskWidth, data.Length);
    var widthMask := if w.width >= 8 then mask else And(mask, LowOnes(w.width));
    if w.width < 8 {
      TruncateIsMask(mask, w.width);
      TruncationIsHarmless(f, data[w.off..w.off + w.width], mask);
    }
    CorruptWindow(data, w.off, w.width, f, widthMask);
  }

  // ---- Vector lanes -------------------------------------------------------------------------

  /** Bytes per lane: an unsupported width falls back to 32 bits. */
  function LaneBytes(laneWidth: int): (n: nat)
    ensures laneWidth == 8 || laneWidth == 16 || laneWidth == 32 || laneWidth == 64 ==> 8 * n == laneWidth
    ensures laneWidth != 8 && laneWidth != 16 && laneWidth != 32 && laneWidth != 64 ==> n == 4
    ensures n == 1 || n == 2 || n == 4 || n == 8
  {
    if laneWidth == 8 then 1 else if laneWidth == 16 then 2 else if laneWidth == 64 then 8 else 4
  }

  /** The lane to corrupt: the configured one if the vector has it, else the drawn one. */
  function Lane(laneOffset: int, draw: nat, lanes: nat): (l: nat)
    requires draw < lanes
    ensures l < lanes && (0 <= laneOffset < lanes ==> l == laneOffset)
    ensures !(0 <= laneOffset < lanes) ==> l == draw
  {
    if laneOffset < 0 || laneOffset >= lanes then draw else laneOffset
  }

  lemma LaneInside(lane: nat, bytes: nat, size: nat)
    requires bytes > 0 && lane < size / bytes
    ensures lane * bytes + bytes <= size
  {
    var q := size / bytes;
    assert size == q * bytes + size % bytes;
    MulOrder(lane + 1, q, bytes);
    NextMultiple(lane, bytes);
  }

  /** Corrupt one lane of a vector register buffer of at least eight bytes. */
  method CorruptLane(buf: array<bv8>, laneWidth: int, laneOffset: int, draw: nat, f: Fault, mask: bv64)
    returns (lane: nat, bytes: nat)
    requires buf.Length >= 8 && draw < buf.Length / LaneBytes(laneWidth)
    modifies buf
    ensures bytes == LaneBytes(laneWidth) && lane == Lane(laneOffset, draw, buf.Length / bytes)
    ensures lane * bytes + bytes <= buf.Length
    ensures buf[..] == old(buf[..lane * bytes]) + Faulted(f, old(buf[lane * bytes..lane * bytes + bytes]), mask)
                     + old(buf[lane * bytes + bytes..])
  {
    hide Faulted;
    bytes := LaneBytes(laneWidth);
    lane := Lane(laneOffset, draw, buf.Length / bytes);
    LaneInside(lane, bytes, buf.Length);
    CorruptWindow(buf, lane * bytes, bytes, f, mask);
  }

  // ---- Instruction fields -----------------------------------------------------------------------

  /** A64 encoding fields; any other field name is treated as the opcode field. */
  datatype Field = Rd | Rn | Rm | Opcode

  function FieldOnes(f: Field): bv64 {
    match f
    case Rd => 0x1F
    case Rn => 0x3E0
    case Rm => 0x1F0000
    case Opcode => 0x1F800000
  }

  function Bits(f: Field): nat {
    if f == Opcode then 6 else 5
  }

  function One(k: nat): bv64 {
    match k
    case 0 => 1
    case 1 => 2
    case 2 => 4
    case 3 => 8
    case 4 => 16
    case _ => 32
  }

  function Ones(k: nat): bv64 {
    match k
    case 0 => 0
    case 1 => 1
    case 2 => 3
    case 3 => 7
    case 4 => 15
    case 5 => 31
    case _ => 63
  }

  function Place(f: Field, v: bv64): bv64 {
    match f
    case Rd => v
    case Rn => v << 5
    case Rm => v << 16
    case Opcode => v << 23
  }

  /** The selected mask bits moved to the field's place in the instruction word. */
  function FieldMask(f: Field, mask: bv8): bv64 {
    Place(f, And(mask as bv64, Ones(Bits(f))))
  }

  /** A field fault stays inside its field. */
  lemma FieldConfined(f: Field, mask: bv8)
    ensures FieldMask(f, mask) & !FieldOnes(f) == 0
  {
  }

  /** It does nothing exactly when the mask selects no bit of the field. */
  lemma FieldNoop(f: Field, mask: bv8)
    ensures FieldMask(f, mask) == 0 <==> (mask as bv64) & Ones(Bits(f)) == 0
  {
  }

  lemma PlaceNothing(f: Field)
    ensures Place(f, 0) == 0
  {
  }

  lemma RnPlace(v: bv64)
    ensures Place(Rn, v) == v << 5
  {
  }

  lemma RnBits(a: bv64, b: bv64)
    ensures (a | b) << 5 == (a << 5) | (b << 5)
  {
  }

  lemma RnOr(a: bv64, b: bv64)
    ensures Place(Rn, Or(a, b)) == Or(Place(Rn, a), Place(Rn, b))
  {
    hide *;
    OrUnfold(a, b);
    RnPlace(a | b);
    RnBits(a, b);
    RnPlace(a);
    RnPlace(b);
    OrUnfold(Place(Rn, a), Place(Rn, b));
  }

  lemma RmPlace(v: bv64)
    ensures Place(Rm, v) == v << 16
  {
  }

  lemma RmBits(a: bv64, b: bv64)
    ensures (a | b) << 16 == (a << 16) | (b << 16)
  {
  }

  lemma RmOr(a: bv64, b: bv64)
    ensures Place(Rm, Or(a, b)) == Or(Place(Rm, a), Place(Rm, b))
  {
    hide *;
    OrUnfold(a, b);
    RmPlace(a | b);
    RmBits(a, b);
    RmPlace(a);
    RmPlace(b);
    OrUnfold(Place(Rm, a), Place(Rm, b));
  }

  lemma OpcodePlace(v: bv64)
    ensures Place(Opcode, v) == v << 23
  {
  }

  lemma OpcodeBits(a: bv64, b: bv64)
    ensures (a | b) << 23 == (a << 23) | (b << 23)
  {
  }

  lemma OpcodeOr(a: bv64, b: bv64)
    ensures Place(Opcode, Or(a, b)) == Or(Place(Opcode, a), Place(Opcode, b))
  {
    hide *;
    OrUnfold(a, b);
    OpcodePlace(a | b);
    OpcodeBits(a, b);
    OpcodePlace(a);
    OpcodePlace(b);
    OrUnfold(Place(Opcode, a), Place(Opcode, b));
  }

  lemma RdOr(a: bv64, b: bv64)
    ensures Place(Rd, Or(a, b)) == Or(Place(Rd, a), Place(Rd, b))
  {
    hide Or;
  }

  lemma PlaceOr(f: Field, a: bv64, b: bv64)
    ensures Place(f, Or(a, b)) == Or(Place(f, a), Place(f, b))
  {
    hide *;
    match f
    case Rd => RdOr(a, b);
    case Rn => RnOr(a, b);
    case Rm => RmOr(a, b);
    case Opcode => OpcodeOr(a, b);
  }

  lemma OnesStep(mask: bv64, k: nat)
    ensures And(mask, Ones(k + 1))
         == if And(mask, One(k)) != 0 then Or(And(mask, Ones(k)), One(k)) else And(mask, Ones(k))
  {
  }

  lemma NoOnes(m: bv64)
    ensures And(m, Ones(0)) == 0
  {
  }

  /** Collect the selected bits one at a time. */
  method FieldWord(f: Field, mask: bv8) returns (inword: bv64)
    ensures inword == FieldMask(f, mask)
  {
    hide Place, One, Ones, And, Or;
    inword := 0;
    var m := mask as bv64;
    PlaceNothing(f);
    NoOnes(m);
    for k := 0 to Bits(f)
      invariant inword == Place(f, And(m, Ones(k)))
    {
      OnesStep(m, k);
      PlaceOr(f, And(m, Ones(k)), One(k));
      if And(m, One(k)) != 0 {
        inword := Or(inword, Place(f, One(k)));
      }
    }
  }

  lemma FourOnes()
    ensures LowOnes(4) == 0xFFFFFFFF
  {
    assert LowOnes(2) == 0xFFFF;
  }

  lemma FieldFits(f: Field, mask: bv8)
    ensures And(FieldMask(f, mask), 0xFFFFFFFF) == FieldMask(f, mask)
  {
  }

  /** The instruction word as an integer is XORed with exactly the placed bits. */
  lemma FieldIsXor(f: Field, word: seq<bv8>, mask: bv8)
    requires |word| == 4
    ensures Pack(Faulted(BitFlip, word, FieldMask(f, mask))) == ApplyWord(BitFlip, Pack(word), FieldMask(f, mask))
  {
    hide *;
    var m := FieldMask(f, mask);
    PackFaulted(BitFlip, word, m);
    TruncateIsMask(m, 4);
    FourOnes();
    FieldFits(f, mask);
    TruncateUnfold(m, 4);
  }

  lemma TruncateUnfold(m: bv64, n: nat)
    ensures Truncate(m, n) == Pack(Unpack(m, n))
  {
  }

  lemma FlipByZero(b: bv8)
    ensures ApplyByte(BitFlip, b, 0) == b
  {
  }

  lemma {:induction false} FlipAt(s: seq<bv8>, m: bv64, i: nat)
    requires i < |s|
    ensures Faulted(BitFlip, s, m)[i] == ApplyByte(BitFlip, s[i], Low(Downs(m, i)))
    decreases s
  {
    hide ApplyByte, Low, Down;
    if i > 0 {
      FlipAt(s[1..], Down(m), i - 1);
    }
  }

  /** Flip field bits of the aligned instruction word that holds the chosen byte. */
  method CorruptField(data: array<bv8>, byteOffset: nat, f: Field, mask: bv8) returns (off: nat)
    requires data.Length % 4 == 0 && byteOffset < data.Length
    modifies data
    ensures off == byteOffset - byteOffset % 4 && off + 4 <= data.Length
    ensures data[..] == old(data[..off]) + Faulted(BitFlip, old(data[off..off + 4]), FieldMask(f, mask))
                      + old(data[off + 4..])
  {
    hide Faulted, FieldMask, ApplyByte, Low, Downs;
    off := byteOffset - byteOffset % 4;
    var inword := FieldWord(f, mask);
    ghost var word := data[off..off + 4];
    for b := 0 to 4
      invariant forall i :: 0 <= i < b ==> data[off + i] == Faulted(BitFlip, word, inword)[i]
      invariant forall i :: 0 <= i < off || off + b <= i < data.Length ==> data[i] == old(data[i])
    {
      var fm := Low(Downs(inword, b));
      FlipAt(word, inword, b);
      FlipByZero(data[off + b]);
      if fm != 0 {
        data[off + b] := ApplyByte(BitFlip, data[off + b], fm);
      }
    }
    ghost var r := old(data[..off]) + Faulted(BitFlip, word, inword) + old(data[off + 4..]);
    forall i | 0 <= i < data.Length ensures data[i] == r[i] {
      if off <= i < off + 4 {
        assert data[off + (i - off)] == Faulted(BitFlip, word, inword)[i - off];
      }
    }
  }

  // ---- Byte-lane skew ------------------------------------------------------------------------------

  function Rotate<T>(s: seq<T>, k: nat): (r: seq<T>)
    requires k <= |s|
    ensures |r| == |s|
  {
    s[k..] + s[..k]
  }

  /** The rotation amount: drawn when not configured, then clamped below the size. */
  function SkewAmount(skewBytes: int, draw: int, size: nat): (k: nat)
    requires size > 0
    ensures k < size && (k == 0 <==> size == 1)
    ensures 1 <= skewBytes < size ==> k == skewBytes
    ensures skewBytes == 0 && 1 <= draw < size ==> k == draw
  {
    var chosen := if skewBytes == 0 then draw else skewBytes;
    var k := if chosen < 1 then 1 else chosen;
    if k >= size then size - 1 else k
  }

  /** Each byte lane receives the content of the lane k further on. */
  method SkewLanes(data: array<bv8>, skewBytes: int, draw: int) returns (k: nat)
    requires data.Length > 0
    modifies data
    ensures k == SkewAmount(skewBytes, draw, data.Length)
    ensures data[..] == Rotate(old(data[..]), k)
  {
    k := SkewAmount(skewBytes, draw, data.Length);
    var tmp := data[..];
    var size := data.Length;
    for n := 0 to size
      invariant forall i :: 0 <= i < n ==> data[i] == Rotate(tmp, k)[i]
    {
      WrapIndex(n, k, size);
      data[n] := tmp[(n + k) % size];
    }
  }

  /** Skewing by the rest of the size undoes a skew. */
  lemma SkewUndone<T>(s: seq<T>, k: nat)
    requires k <= |s|
    ensures Rotate(Rotate(s, k), |s| - k) == s
  {
    var t := Rotate(s, k);
    assert t[|s| - k..] == s[..k] && t[..|s| - k] == s[k..];
  }

  function Pow256(n: nat): (p: nat)
    ensures p > 0
  {
    if n == 0 then 1 else 256 * Pow256(n - 1)
  }

  /** The number a byte array spells, lowest byte first, of any length. */
  function Value(s: seq<bv8>): nat {
    if s == [] then 0 else (s[0] as int) + 256 * Value(s[1..])
  }

  lemma {:induction false} ValueBound(s: seq<bv8>)
    ensures Value(s) < Pow256(|s|)
  {
    if s != [] {
      ValueBound(s[1..]);
    }
  }

  lemma ShiftProduct(x: nat, v: nat, p: nat, y: nat)
    ensures x + 256 * (v + p * y) == x + 256 * v + 256 * p * y
  {
    assert 256 * (p * y) == 256 * p * y;
  }

  lemma {:induction false} ValueConcat(a: seq<bv8>, b: seq<bv8>)
    ensures Value(a + b) == Value(a) + Pow256(|a|) * Value(b)
  {
    hide *;
    if a == [] {
      assert a + b == b;
      ValueUnfold(a);
      PowUnfold(0);
      assert 1 * Value(b) == Value(b);
    } else {
      assert (a + b)[1..] == a[1..] + b;
      ValueUnfold(a + b);
      ValueUnfold(a);
      PowUnfold(|a|);
      ValueConcat(a[1..], b);
      ShiftProduct(a[0] as int, Value(a[1..]), Pow256(|a| - 1), Value(b));
    }
  }

  lemma ValueUnfold(s: seq<bv8>)
    ensures Value(s) == if s == [] then 0 else (s[0] as int) + 256 * Value(s[1..])
  {
  }

  lemma PowUnfold(n: nat)
    ensures Pow256(n) == if n == 0 then 1 else 256 * Pow256(n - 1)
  {
  }

  /** A skew by k bytes is a right rotation of the value by 8k bits. */
  lemma SkewIsRightRotation(s: seq<bv8>, k: nat)
    requires k <= |s|
    ensures Value(Rotate(s, k))
         == Value(s) / Pow256(k) + (Value(s) % Pow256(k)) * Pow256(|s| - k)
  {
    hide Value, Pow256;
    var a, b := s[..k], s[k..];
    assert s == a + b;
    ValueConcat(a, b);
    ValueConcat(b, a);
    ValueBound(a);
    DivideBack(Value(b), Pow256(k), Value(a));
    assert Pow256(k) * Value(b) == Value(b) * Pow256(k);
    assert Pow256(|s| - k) * Value(a) == Value(a) * Pow256(|s| - k);
  }
}
