/**
 * Little-endian read-modify-write: the shape three injectors share.  A window of up to
 * eight bytes is read as one integer, changed under a mask, and written back.
 */
module ByteWindow {

  datatype Fault = BitFlip | StuckAtZero | StuckAtOne

  function ApplyWord(f: Fault, v: bv64, m: bv64): bv64 {
    match f
    case BitFlip => v ^ m
    case StuckAtZero => v & !m
    case StuckAtOne => v | m
  }

  function ApplyByte(f: Fault, b: bv8, m: bv8): bv8 {
    match f
    case BitFlip => b ^ m
    case StuckAtZero => b & !m
    case StuckAtOne => b | m
  }

  function Low(v: bv64): bv8 {
    (v & 0xff) as bv8
  }

  function Down(v: bv64): bv64 {
    v >> 8
  }

  function Up(v: bv64): bv64 {
    v << 8
  }

  function Or(a: bv64, b: bv64): bv64 {
    a | b
  }

  function And(a: bv64, b: bv64): bv64 {
    a & b
  }

  function Push(y: bv64, b: bv8): bv64 {
    Or(Up(y), b as bv64)
  }

  /** The integer a window of bytes spells, lowest byte first. */
  function Pack(s: seq<bv8>): bv64 {
    if s == [] then 0 else Push(Pack(s[1..]), s[0])
  }

  /** The n lowest bytes of an integer, lowest first. */
  function Unpack(v: bv64, n: nat): (s: seq<bv8>)
    ensures |s| == n
  {
    if n == 0 then [] else [Low(v)] + Unpack(Down(v), n - 1)
  }

  /** The same fault applied byte by byte, each byte under its own slice of the mask. */
  function Faulted(f: Fault, s: seq<bv8>, m: bv64): (r: seq<bv8>)
    ensures |r| == |s|
    decreases s
  {
    if s == [] then [] else [ApplyByte(f, s[0], Low(m))] + Faulted(f, s[1..], Down(m))
  }

  function DropLowest(m: bv64): bv64
    requires m != 0
    ensures DropLowest(m) < m
  {
    m & (m - 1)
  }

  /** Number of bits set. */
  function PopCount(m: bv64): nat
    decreases m
  {
    if m == 0 then 0 else 1 + PopCount(DropLowest(m))
  }

  // ---- Bit-level facts ------------------------------------------------------------------

  lemma LowUnfold(v: bv64)
    ensures Low(v) == (v & 0xff) as bv8
  {
  }

  lemma DownUnfold(v: bv64)
    ensures Down(v) == v >> 8
  {
  }

  lemma PushUnfold(y: bv64, b: bv8)
    ensures Push(y, b) == (y << 8) | (b as bv64)
  {
  }

  lemma FlipUnfold(v: bv64, m: bv64)
    ensures ApplyWord(BitFlip, v, m) == v ^ m
  {
  }

  lemma ZeroUnfold(v: bv64, m: bv64)
    ensures ApplyWord(StuckAtZero, v, m) == v & !m
  {
  }

  lemma OneUnfold(v: bv64, m: bv64)
    ensures ApplyWord(StuckAtOne, v, m) == v | m
  {
  }

  lemma WordUnfold(v: bv64, m: bv64)
    ensures ApplyWord(BitFlip, v, m) == v ^ m
    ensures ApplyWord(StuckAtZero, v, m) == v & !m
    ensures ApplyWord(StuckAtOne, v, m) == v | m
  {
    hide *;
    FlipUnfold(v, m);
    ZeroUnfold(v, m);
    OneUnfold(v, m);
  }

  lemma ByteUnfold(b: bv8, m: bv8)
    ensures ApplyByte(BitFlip, b, m) == b ^ m
    ensures ApplyByte(StuckAtZero, b, m) == b & !m
    ensures ApplyByte(StuckAtOne, b, m) == b | m
  {
  }

  lemma LowFlipBits(v: bv64, m: bv64)
    ensures ((v ^ m) & 0xff) as bv8 == ((v & 0xff) as bv8) ^ ((m & 0xff) as bv8)
  {
  }

  lemma LowFlip(v: bv64, m: bv64)
    ensures Low(ApplyWord(BitFlip, v, m)) == ApplyByte(BitFlip, Low(v), Low(m))
  {
    hide *;
    WordUnfold(v, m);
    LowUnfold(v ^ m);
    LowFlipBits(v, m);
    LowUnfold(v);
    LowUnfold(m);
    ByteUnfold(Low(v), Low(m));
  }

  lemma DownFlipBits(v: bv64, m: bv64)
    ensures (v ^ m) >> 8 == (v >> 8) ^ (m >> 8)
  {
  }

  lemma DownFlip(v: bv64, m: bv64)
    ensures Down(ApplyWord(BitFlip, v, m)) == ApplyWord(BitFlip, Down(v), Down(m))
  {
    hide *;
    WordUnfold(v, m);
    DownUnfold(v ^ m);
    DownFlipBits(v, m);
    DownUnfold(v);
    DownUnfold(m);
    WordUnfold(Down(v), Down(m));
  }

  lemma LowZeroBits(v: bv64, m: bv64)
    ensures ((v & !m) & 0xff) as bv8 == ((v & 0xff) as bv8) & !((m & 0xff) as bv8)
  {
  }

  lemma LowZero(v: bv64, m: bv64)
    ensures Low(ApplyWord(StuckAtZero, v, m)) == ApplyByte(StuckAtZero, Low(v), Low(m))
  {
    hide *;
    WordUnfold(v, m);
    LowUnfold(v & !m);
    LowZeroBits(v, m);
    LowUnfold(v);
    LowUnfold(m);
    ByteUnfold(Low(v), Low(m));
  }

  lemma DownZeroBits(v: bv64, m: bv64)
    ensures (v & !m) >> 8 == (v >> 8) & !(m >> 8)
  {
  }

  lemma DownZero(v: bv64, m: bv64)
    ensures Down(ApplyWord(StuckAtZero, v, m)) == ApplyWord(StuckAtZero, Down(v), Down(m))
  {
    hide *;
    WordUnfold(v, m);
    DownUnfold(v & !m);
    DownZeroBits(v, m);
    DownUnfold(v);
    DownUnfold(m);
    WordUnfold(Down(v), Down(m));
  }

  lemma LowOneBits(v: bv64, m: bv64)
    ensures ((v | m) & 0xff) as bv8 == ((v & 0xff) as bv8) | ((m & 0xff) as bv8)
  {
  }

  lemma LowOne(v: bv64, m: bv64)
    ensures Low(ApplyWord(StuckAtOne, v, m)) == ApplyByte(StuckAtOne, Low(v), Low(m))
  {
    hide *;
    WordUnfold(v, m);
    LowUnfold(v | m);
    LowOneBits(v, m);
    LowUnfold(v);
    LowUnfold(m);
    ByteUnfold(Low(v), Low(m));
  }

  lemma DownOneBits(v: bv64, m: bv64)
    ensures (v | m) >> 8 == (v >> 8) | (m >> 8)
  {
  }

  lemma DownOne(v: bv64, m: bv64)
    ensures Down(ApplyWord(StuckAtOne, v, m)) == ApplyWord(StuckAtOne, Down(v), Down(m))
  {
    hide *;
    WordUnfold(v, m);
    DownUnfold(v | m);
    DownOneBits(v, m);
    DownUnfold(v);
    DownUnfold(m);
    WordUnfold(Down(v), Down(m));
  }

  lemma LowOfApply(f: Fault, v: bv64, m: bv64)
    ensures Low(ApplyWord(f, v, m)) == ApplyByte(f, Low(v), Low(m))
  {
    hide *;
    match f
    case BitFlip => LowFlip(v, m);
    case StuckAtZero => LowZero(v, m);
    case StuckAtOne => LowOne(v, m);
  }

  lemma DownOfApply(f: Fault, v: bv64, m: bv64)
    ensures Down(ApplyWord(f, v, m)) == ApplyWord(f, Down(v), Down(m))
  {
    hide *;
    match f
    case BitFlip => DownFlip(v, m);
    case StuckAtZero => DownZero(v, m);
    case StuckAtOne => DownOne(v, m);
  }

  predicate TopClear(y: bv64) {
    y & 0xFF00000000000000 == 0
  }

  lemma LowOfPush(y: bv64, b: bv8)
    ensures Low(Push(y, b)) == b
  {
  }

  lemma DownOfPush(y: bv64, b: bv8)
    ensures TopClear(y) ==> Down(Push(y, b)) == y
  {
  }

  function Downs(v: bv64, n: nat): bv64
    decreases n
  {
    if n == 0 then v else Downs(Down(v), n - 1)
  }

  lemma {:induction false} DownsZero(n: nat)
    ensures Downs(0, n) == 0
  {
    if n > 0 {
      DownsZero(n - 1);
      assert Down(0) == 0;
    }
  }

  lemma {:induction false} DownsAdd(v: bv64, m: nat, n: nat)
    ensures Downs(Downs(v, m), n) == Downs(v, m + n)
    decreases m
  {
    hide Down;
    if m > 0 {
      DownsAdd(Down(v), m - 1, n);
    }
  }

  lemma SevenDowns(y: bv64)
    ensures Downs(y, 7) == Down(Down(Down(Down(Down(Down(Down(y)))))))
  {
    hide Down;
    var z := Down(Down(Down(Down(y))));
    assert Downs(y, 7) == Downs(Down(Down(y)), 5);
    assert Downs(Down(Down(y)), 5) == Downs(z, 3);
    assert Downs(z, 3) == Downs(Down(Down(z)), 1);
  }

  lemma SevenDownsClear(y: bv64)
    ensures Down(Down(Down(Down(Down(Down(Down(y))))))) == 0 ==> TopClear(y)
  {
  }

  lemma FitsTopClear(y: bv64, n: nat)
    requires n <= 7 && Downs(y, n) == 0
    ensures TopClear(y)
  {
    hide Downs, TopClear, Down;
    DownsAdd(y, n, 7 - n);
    DownsZero(7 - n);
    SevenDowns(y);
    SevenDownsClear(y);
  }

  /** A window of n bytes spells an integer of n bytes. */
  lemma {:induction false} PackFits(s: seq<bv8>)
    requires |s| <= 8
    ensures Downs(Pack(s), |s|) == 0
    ensures s != [] ==> TopClear(Pack(s[1..]))
  {
    hide Push, Down, TopClear;
    if s != [] {
      PackFits(s[1..]);
      FitsTopClear(Pack(s[1..]), |s| - 1);
      DownOfPush(Pack(s[1..]), s[0]);
    }
  }

  // ---- Round trips ------------------------------------------------------------------------

  /** Reading a window as an integer and writing it back is the identity. */
  lemma {:induction false} UnpackPack(s: seq<bv8>)
    requires |s| <= 8
    ensures Unpack(Pack(s), |s|) == s
  {
    hide Push, Down, TopClear, Low;
    if s != [] {
      UnpackPack(s[1..]);
      PackFits(s);
      DownOfPush(Pack(s[1..]), s[0]);
      LowOfPush(Pack(s[1..]), s[0]);
      assert s == [s[0]] + s[1..];
    }
  }

  lemma {:induction false} UnpackApply(f: Fault, v: bv64, m: bv64, n: nat)
    ensures Unpack(ApplyWord(f, v, m), n) == Faulted(f, Unpack(v, n), m)
    decreases n
  {
    hide ApplyWord, ApplyByte, Low, Down;
    if n > 0 {
      LowOfApply(f, v, m);
      DownOfApply(f, v, m);
      UnpackApply(f, Down(v), Down(m), n - 1);
      assert Unpack(v, n)[1..] == Unpack(Down(v), n - 1);
    }
  }

  /** The integer operation on the whole window is the byte operation on each of its bytes. */
  lemma WindowFault(f: Fault, s: seq<bv8>, m: bv64)
    requires |s| <= 8
    ensures Unpack(ApplyWord(f, Pack(s), m), |s|) == Faulted(f, s, m)
  {
    hide Pack, Unpack, Faulted, ApplyWord;
    UnpackApply(f, Pack(s), m, |s|);
    UnpackPack(s);
  }

  function Truncate(m: bv64, n: nat): bv64 {
    Pack(Unpack(m, n))
  }

  lemma {:induction false} FaultedTruncated(f: Fault, s: seq<bv8>, m: bv64, k: bv64)
    requires Unpack(m, |s|) == Unpack(k, |s|)
    ensures Faulted(f, s, m) == Faulted(f, s, k)
    decreases s
  {
    hide ApplyByte, Low, Down;
    if s != [] {
      assert Unpack(m, |s|)[1..] == Unpack(Down(m), |s| - 1);
      assert Unpack(k, |s|)[1..] == Unpack(Down(k), |s| - 1);
      FaultedTruncated(f, s[1..], Down(m), Down(k));
    }
  }

  lemma PushFlipBits(y: bv64, b: bv8, w: bv64, c: bv8)
    ensures ((y << 8) | (b as bv64)) ^ ((w << 8) | (c as bv64)) == ((y ^ w) << 8) | ((b ^ c) as bv64)
  {
  }

  lemma PushFlip(y: bv64, b: bv8, w: bv64, c: bv8)
    ensures ApplyWord(BitFlip, Push(y, b), Push(w, c)) == Push(ApplyWord(BitFlip, y, w), ApplyByte(BitFlip, b, c))
  {
    hide *;
    WordUnfold(Push(y, b), Push(w, c));
    PushUnfold(y, b);
    PushUnfold(w, c);
    PushFlipBits(y, b, w, c);
    WordUnfold(y, w);
    ByteUnfold(b, c);
    PushUnfold(y ^ w, b ^ c);
  }

  lemma PushZeroBits(y: bv64, b: bv8, w: bv64, c: bv8)
    ensures ((y << 8) | (b as bv64)) & !((w << 8) | (c as bv64)) == ((y & !w) << 8) | ((b & !c) as bv64)
  {
  }

  lemma PushZero(y: bv64, b: bv8, w: bv64, c: bv8)
    ensures ApplyWord(StuckAtZero, Push(y, b), Push(w, c))
         == Push(ApplyWord(StuckAtZero, y, w), ApplyByte(StuckAtZero, b, c))
  {
    hide *;
    WordUnfold(Push(y, b), Push(w, c));
    PushUnfold(y, b);
    PushUnfold(w, c);
    PushZeroBits(y, b, w, c);
    WordUnfold(y, w);
    ByteUnfold(b, c);
    PushUnfold(y & !w, b & !c);
  }

  lemma PushOneBits(y: bv64, b: bv8, w: bv64, c: bv8)
    ensures ((y << 8) | (b as bv64)) | ((w << 8) | (c as bv64)) == ((y | w) << 8) | ((b | c) as bv64)
  {
  }

  lemma PushOne(y: bv64, b: bv8, w: bv64, c: bv8)
    ensures ApplyWord(StuckAtOne, Push(y, b), Push(w, c))
         == Push(ApplyWord(StuckAtOne, y, w), ApplyByte(StuckAtOne, b, c))
  {
    hide *;
    WordUnfold(Push(y, b), Push(w, c));
    PushUnfold(y, b);
    PushUnfold(w, c);
    PushOneBits(y, b, w, c);
    WordUnfold(y, w);
    ByteUnfold(b, c);
    PushUnfold(y | w, b | c);
  }

  lemma PushApply(f: Fault, y: bv64, b: bv8, w: bv64, c: bv8)
    ensures ApplyWord(f, Push(y, b), Push(w, c)) == Push(ApplyWord(f, y, w), ApplyByte(f, b, c))
  {
    hide *;
    match f
    case BitFlip => PushFlip(y, b, w, c);
    case StuckAtZero => PushZero(y, b, w, c);
    case StuckAtOne => PushOne(y, b, w, c);
  }

  lemma {:induction false} PackFaulted(f: Fault, s: seq<bv8>, m: bv64)
    ensures Pack(Faulted(f, s, m)) == ApplyWord(f, Pack(s), Pack(Unpack(m, |s|)))
    decreases s
  {
    hide ApplyWord, ApplyByte, Low, Down, Push;
    if s == [] {
      ApplyNothing(f);
    } else {
      PackFaulted(f, s[1..], Down(m));
      assert Faulted(f, s, m)[1..] == Faulted(f, s[1..], Down(m));
      assert Unpack(m, |s|)[1..] == Unpack(Down(m), |s| - 1);
      PushApply(f, Pack(s[1..]), s[0], Pack(Unpack(Down(m), |s| - 1)), Low(m));
    }
  }

  lemma ApplyNothing(f: Fault)
    ensures ApplyWord(f, 0, 0) == 0
  {
  }

  /** The written-back window spells the integer operation under the truncated mask. */
  lemma WindowIsIntegerOperation(f: Fault, s: seq<bv8>, m: bv64)
    requires |s| <= 8
    ensures Pack(Unpack(ApplyWord(f, Pack(s), m), |s|)) == ApplyWord(f, Pack(s), Truncate(m, |s|))
  {
    hide Pack, Unpack, Faulted, ApplyWord;
    WindowFault(f, s, m);
    PackFaulted(f, s, m);
  }

  /** Mask bits above the window have no effect: truncating first changes nothing. */
  lemma TruncationIsHarmless(f: Fault, s: seq<bv8>, m: bv64)
    requires |s| <= 8
    ensures Faulted(f, s, Truncate(m, |s|)) == Faulted(f, s, m)
  {
    hide Pack, Unpack, Faulted;
    UnpackPack(Unpack(m, |s|));
    FaultedTruncated(f, s, Truncate(m, |s|), m);
  }

  // ---- Algebra of the faults ----------------------------------------------------------------

  lemma FlipTwiceBits(b: bv8, m: bv8)
    ensures (b ^ m) ^ m == b
  {
  }

  lemma FlipTwice(b: bv8, m: bv8)
    ensures ApplyByte(BitFlip, ApplyByte(BitFlip, b, m), m) == b
  {
    hide *;
    ByteUnfold(b, m);
    ByteUnfold(b ^ m, m);
    FlipTwiceBits(b, m);
  }

  lemma ZeroTwiceBits(b: bv8, m: bv8)
    ensures (b & !m) & !m == b & !m
  {
  }

  lemma ZeroTwice(b: bv8, m: bv8)
    ensures ApplyByte(StuckAtZero, ApplyByte(StuckAtZero, b, m), m) == ApplyByte(StuckAtZero, b, m)
  {
    hide *;
    ByteUnfold(b, m);
    ByteUnfold(b & !m, m);
    ZeroTwiceBits(b, m);
  }

  lemma OneTwiceBits(b: bv8, m: bv8)
    ensures (b | m) | m == b | m
  {
  }

  lemma OneTwice(b: bv8, m: bv8)
    ensures ApplyByte(StuckAtOne, ApplyByte(StuckAtOne, b, m), m) == ApplyByte(StuckAtOne, b, m)
  {
    hide *;
    ByteUnfold(b, m);
    ByteUnfold(b | m, m);
    OneTwiceBits(b, m);
  }

  lemma ByteTwice(f: Fault, b: bv8, m: bv8)
    ensures ApplyByte(f, ApplyByte(f, b, m), m) == if f == BitFlip then b else ApplyByte(f, b, m)
  {
    hide *;
    match f
    case BitFlip => FlipTwice(b, m);
    case StuckAtZero => ZeroTwice(b, m);
    case StuckAtOne => OneTwice(b, m);
  }

  /** A flip undoes itself; a stuck-at applied twice is a stuck-at applied once. */
  lemma {:induction false} FaultTwice(f: Fault, s: seq<bv8>, m: bv64)
    ensures Faulted(f, Faulted(f, s, m), m) == if f == BitFlip then s else Faulted(f, s, m)
    decreases s
  {
    hide ApplyByte, Low, Down;
    if s != [] {
      ByteTwice(f, s[0], Low(m));
      FaultTwice(f, s[1..], Down(m));
      assert Faulted(f, s, m)[1..] == Faulted(f, s[1..], Down(m));
      assert s == [s[0]] + s[1..];
    }
  }

  lemma ByteOutsideMask(f: Fault, b: bv8, m: bv8)
    ensures (ApplyByte(f, b, m) ^ b) & !m == 0
  {
  }

  /** Within the window only masked bits change. */
  lemma {:induction false} OnlyMaskedBits(f: Fault, s: seq<bv8>, m: bv64, i: nat)
    requires i < |s|
    ensures (Faulted(f, s, m)[i] ^ s[i]) & !Unpack(m, |s|)[i] == 0
    decreases s
  {
    hide ApplyByte, Low, Down;
    if i == 0 {
      ByteOutsideMask(f, s[0], Low(m));
    } else {
      OnlyMaskedBits(f, s[1..], Down(m), i - 1);
    }
  }

  // ---- The loops --------------------------------------------------------------------------------

  function Ups(v: bv64, n: nat): bv64 {
    if n == 0 then v else Up(Ups(v, n - 1))
  }

  lemma OrUnfold(a: bv64, b: bv64)
    ensures Or(a, b) == a | b
  {
  }

  lemma UpUnfold(a: bv64)
    ensures Up(a) == a << 8
  {
  }

  lemma UpOrBits(a: bv64, b: bv64)
    ensures (a | b) << 8 == (a << 8) | (b << 8)
  {
  }

  lemma UpOr(a: bv64, b: bv64)
    ensures Up(Or(a, b)) == Or(Up(a), Up(b))
  {
    hide *;
    OrUnfold(a, b);
    UpUnfold(a | b);
    UpOrBits(a, b);
    UpUnfold(a);
    UpUnfold(b);
    OrUnfold(Up(a), Up(b));
  }

  lemma OrBits(a: bv64, b: bv64, c: bv64, ab: bv64, ac: bv64)
    requires ab == a | b && ac == a | c
    ensures ab | c == ac | b
  {
  }

  lemma OrShuffle(a: bv64, b: bv64, c: bv64)
    ensures Or(Or(a, b), c) == Or(Or(a, c), b)
  {
    hide *;
    OrUnfold(a, b);
    OrUnfold(a, c);
    OrUnfold(Or(a, b), c);
    OrUnfold(Or(a, c), b);
    OrBits(a, b, c, Or(a, b), Or(a, c));
  }

  lemma OrZero(a: bv64)
    ensures Or(0, a) == a && Up(0) == 0
  {
  }

  /** Reading one more byte adds it above the bytes read so far. */
  lemma {:induction false} PackAppend(s: seq<bv8>, b: bv8)
    ensures Pack(s + [b]) == Or(Pack(s), Ups(b as bv64, |s|))
  {
    hide Up, Or;
    if s == [] {
      assert s + [b] == [b] && [b][1..] == [];
      OrZero(b as bv64);
    } else {
      assert (s + [b])[1..] == s[1..] + [b];
      PackAppend(s[1..], b);
      UpOr(Pack(s[1..]), Ups(b as bv64, |s| - 1));
      OrShuffle(Up(Pack(s[1..])), Up(Ups(b as bv64, |s| - 1)), s[0] as bv64);
    }
  }

  lemma {:induction false} UnpackAt(v: bv64, n: nat, i: nat)
    requires i < n
    ensures Unpack(v, n)[i] == Low(Downs(v, i))
    decreases n
  {
    hide Low, Down;
    if i > 0 {
      UnpackAt(Down(v), n - 1, i - 1);
    }
  }

  /** Read the window starting at off as one integer. */
  method ReadWindow(data: array<bv8>, off: nat, width: nat) returns (v: bv64)
    requires off + width <= data.Length
    ensures v == Pack(data[off..off + width])
  {
    hide Pack, Ups, Or;
    v := 0;
    PackNothing();
    assert data[off..off] == [];
    for b := 0 to width
      invariant v == Pack(data[off..off + b])
    {
      PackAppend(data[off..off + b], data[off + b]);
      assert data[off..off + b + 1] == data[off..off + b] + [data[off + b]];
      v := Or(v, Ups(data[off + b] as bv64, b));
    }
  }

  lemma PackNothing()
    ensures Pack([]) == 0
  {
  }

  /** Write the low bytes of an integer over the window; nothing outside it changes. */
  method WriteWindow(data: array<bv8>, off: nat, width: nat, v: bv64)
    requires off + width <= data.Length
    modifies data
    ensures data[..] == old(data[..off]) + Unpack(v, width) + old(data[off + width..])
  {
    hide Unpack, Low, Downs;
    for b := 0 to width
      invariant forall i :: 0 <= i < b ==> data[off + i] == Unpack(v, width)[i]
      invariant forall i :: 0 <= i < off || off + b <= i < data.Length ==> data[i] == old(data[i])
    {
      UnpackAt(v, width, b);
      data[off + b] := Low(Downs(v, b));
    }
    ghost var r := old(data[..off]) + Unpack(v, width) + old(data[off + width..]);
    assert |r| == data.Length;
    forall i | 0 <= i < data.Length ensures data[i] == r[i] {
      if off <= i < off + width {
        assert data[off + (i - off)] == Unpack(v, width)[i - off];
      }
    }
  }

  /** The read-modify-write all three injectors perform. */
  method CorruptWindow(data: array<bv8>, off: nat, width: nat, f: Fault, mask: bv64)
    requires 1 <= width <= 8 && off + width <= data.Length
    modifies data
    ensures data[..] == old(data[..off]) + Faulted(f, old(data[off..off + width]), mask) + old(data[off + width..])
  {
    hide Pack, Unpack, Faulted, ApplyWord;
    var v := ReadWindow(data, off, width);
    WindowFault(f, data[off..off + width], mask);
    WriteWindow(data, off, width, ApplyWord(f, v, mask));
  }
}
