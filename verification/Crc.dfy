/**
 * The bitwise reflected CRC-32 of the generated wrappers and of the CRC workload
 * kernel (the function of section 8 of RFC 1952), and what it detects.
 */
module Crc {

  /** Exclusive or, named so that proofs can treat it as a group operation. */
  function Xor(a: bv32, b: bv32): bv32 {
    a ^ b
  }

  /** One shift of the register: divide by x, reducing when a one falls out. */
  function Step(c: bv32): bv32 {
    (c >> 1) ^ (0xEDB88320 & (0 - (c & 1)))
  }

  function Steps(c: bv32, n: nat): bv32
    decreases n
  {
    if n == 0 then c else Steps(Step(c), n - 1)
  }

  function FeedByte(c: bv32, b: bv8): bv32 {
    Steps(Xor(c, b as bv32), 8)
  }

  function Feed(c: bv32, s: seq<bv8>): bv32
    decreases s
  {
    if s == [] then c else Feed(FeedByte(c, s[0]), s[1..])
  }

  function Crc32(s: seq<bv8>): bv32 {
    Xor(Feed(0xFFFFFFFF, s), 0xFFFFFFFF)
  }

  // ---- Every state step is injective and linear --------------------------------

  lemma StepInjective(x: bv32, y: bv32)
    requires Step(x) == Step(y)
    ensures x == y
  {
  }

  lemma {:induction false} StepsInjective(x: bv32, y: bv32, n: nat)
    requires Steps(x, n) == Steps(y, n)
    ensures x == y
    decreases n
  {
    hide Step;
    if n > 0 {
      StepsInjective(Step(x), Step(y), n - 1);
      StepInjective(x, y);
    }
  }

  /** A register difference before a common stretch of input survives to the end. */
  lemma {:induction false} FeedInjective(c: bv32, d: bv32, s: seq<bv8>)
    requires Feed(c, s) == Feed(d, s)
    ensures c == d
    decreases s
  {
    hide FeedByte;
    if s != [] {
      FeedInjective(FeedByte(c, s[0]), FeedByte(d, s[0]), s[1..]);
      FeedByteInjective(c, d, s[0]);
    }
  }

  lemma FeedByteInjective(c: bv32, d: bv32, b: bv8)
    requires FeedByte(c, b) == FeedByte(d, b)
    ensures c == d
  {
    hide Steps, Xor;
    StepsInjective(Xor(c, b as bv32), Xor(d, b as bv32), 8);
    XorSame(c, d, b as bv32);
  }

  lemma XorSame(a: bv32, b: bv32, p: bv32)
    ensures Xor(a, p) == Xor(b, p) <==> a == b
    ensures Xor(p, a) == Xor(p, b) <==> a == b
  {
  }

  lemma StepCases(c: bv32)
    ensures c & 1 == 0 || c & 1 == 1
    ensures c & 1 == 0 ==> Step(c) == c >> 1
    ensures c & 1 == 1 ==> Step(c) == Xor(c >> 1, 0xEDB88320)
  {
  }

  lemma XorUnfold(a: bv32, b: bv32)
    ensures Xor(a, b) == a ^ b
  {
  }

  lemma ParityXor(x: bv32, y: bv32)
    ensures Xor(x, y) & 1 == 0 <==> x & 1 == y & 1
    ensures Xor(x, y) >> 1 == Xor(x >> 1, y >> 1)
  {
    hide Xor;
    XorUnfold(x, y);
    XorUnfold(x >> 1, y >> 1);
    ParityXorBits(x, y);
  }

  lemma ParityXorBits(x: bv32, y: bv32)
    ensures (x ^ y) & 1 == 0 <==> x & 1 == y & 1
    ensures (x ^ y) >> 1 == (x >> 1) ^ (y >> 1)
  {
  }

  lemma XorAssociates(a: bv32, b: bv32, c: bv32)
    ensures Xor(Xor(a, b), c) == Xor(a, Xor(b, c))
  {
    hide Xor;
    XorUnfold(a, b);
    XorUnfold(b, c);
    XorUnfold(Xor(a, b), c);
    XorUnfold(a, Xor(b, c));
    XorAssociatesBits(a, b, c, Xor(a, b), Xor(b, c));
  }

  lemma XorAssociatesBits(a: bv32, b: bv32, c: bv32, ab: bv32, bc: bv32)
    requires ab == a ^ b && bc == b ^ c
    ensures ab ^ c == a ^ bc
  {
  }

  lemma XorCommutes(a: bv32, b: bv32)
    ensures Xor(a, b) == Xor(b, a)
  {
  }

  lemma XorUnit(a: bv32)
    ensures Xor(a, a) == 0 && Xor(a, 0) == a
  {
  }

  lemma XorShuffle(a: bv32, b: bv32, p: bv32)
    ensures Xor(Xor(a, b), p) == Xor(Xor(a, p), b)
    ensures Xor(Xor(a, b), p) == Xor(a, Xor(b, p))
    ensures Xor(Xor(a, p), Xor(b, p)) == Xor(a, b)
  {
    hide Xor;
    XorAssociates(a, b, p);
    XorAssociates(a, p, b);
    XorCommutes(b, p);
    XorAssociates(a, p, Xor(p, b));
    XorAssociates(p, p, b);
    XorUnit(p);
    XorUnit(b);
    XorCommutes(0, b);
  }

  lemma StepLinear(x: bv32, y: bv32)
    ensures Step(Xor(x, y)) == Xor(Step(x), Step(y))
  {
    hide Step, Xor;
    StepCases(x);
    StepCases(y);
    StepCases(Xor(x, y));
    ParityXor(x, y);
    XorShuffle(x >> 1, y >> 1, 0xEDB88320);
  }

  lemma {:induction false} StepsLinear(x: bv32, y: bv32, n: nat)
    ensures Steps(Xor(x, y), n) == Xor(Steps(x, n), Steps(y, n))
    decreases n
  {
    hide Step, Xor;
    if n > 0 {
      StepLinear(x, y);
      StepsLinear(Step(x), Step(y), n - 1);
    }
  }

  function XorBytes(x: seq<bv8>, y: seq<bv8>): (z: seq<bv8>)
    requires |x| == |y|
    ensures |z| == |x|
  {
    if x == [] then [] else [x[0] ^ y[0]] + XorBytes(x[1..], y[1..])
  }

  lemma Regroup(c: bv32, d: bv32, a: bv8, b: bv8)
    ensures Xor(Xor(c, a as bv32), Xor(d, b as bv32)) == Xor(Xor(c, d), (a ^ b) as bv32)
  {
    hide Xor;
    var x, y := a as bv32, b as bv32;
    XorAssociates(c, x, Xor(d, y));
    XorAssociates(x, d, y);
    XorCommutes(x, d);
    XorAssociates(d, x, y);
    XorAssociates(c, d, Xor(x, y));
    WidenXor(a, b);
  }

  lemma WidenXor(a: bv8, b: bv8)
    ensures Xor(a as bv32, b as bv32) == (a ^ b) as bv32
  {
  }

  lemma FeedByteLinear(c: bv32, d: bv32, a: bv8, b: bv8)
    ensures Xor(FeedByte(c, a), FeedByte(d, b)) == FeedByte(Xor(c, d), a ^ b)
  {
    hide Steps, Xor;
    StepsLinear(Xor(c, a as bv32), Xor(d, b as bv32), 8);
    Regroup(c, d, a, b);
  }

  /** Two registers fed two buffers differ by what the difference of the buffers yields. */
  lemma {:induction false} FeedLinear(c: bv32, d: bv32, x: seq<bv8>, y: seq<bv8>)
    requires |x| == |y|
    ensures Xor(Feed(c, x), Feed(d, y)) == Feed(Xor(c, d), XorBytes(x, y))
    decreases |x|
  {
    hide FeedByte, Xor;
    if x != [] {
      FeedByteLinear(c, d, x[0], y[0]);
      FeedLinear(FeedByte(c, x[0]), FeedByte(d, y[0]), x[1..], y[1..]);
      assert XorBytes(x, y)[1..] == XorBytes(x[1..], y[1..]);
    }
  }

  /** Whether a corruption is detected depends on the error pattern, not on the data. */
  lemma DetectionDependsOnError(x: seq<bv8>, y: seq<bv8>)
    requires |x| == |y|
    ensures Crc32(x) == Crc32(y) <==> Feed(0, XorBytes(x, y)) == 0
  {
    hide Feed, Xor;
    FeedLinear(0xFFFFFFFF, 0xFFFFFFFF, x, y);
    XorZero(0xFFFFFFFF, 0xFFFFFFFF);
    XorSame(Feed(0xFFFFFFFF, x), Feed(0xFFFFFFFF, y), 0xFFFFFFFF);
    XorZero(Feed(0xFFFFFFFF, x), Feed(0xFFFFFFFF, y));
  }

  lemma XorZero(a: bv32, b: bv32)
    ensures Xor(a, b) == 0 <==> a == b
  {
  }

  /** The two wrapper templates finish differently written but equal. */
  lemma ComplementIsXor(a: bv32)
    ensures Xor(a, 0xFFFFFFFF) == !a
  {
  }

  // ---- Chaining ----------------------------------------------------------------

  /** Feeding a concatenation is the same as chaining the register through its parts. */
  lemma {:induction false} FeedConcat(c: bv32, s: seq<bv8>, t: seq<bv8>)
    ensures Feed(c, s + t) == Feed(Feed(c, s), t)
    decreases s
  {
    hide FeedByte;
    if s == [] {
      assert s + t == t;
    } else {
      assert (s + t)[1..] == s[1..] + t;
      FeedConcat(FeedByte(c, s[0]), s[1..], t);
    }
  }

  // ---- The bit stream behind the bytes --------------------------------------------

  function Bit(b: bool): bv32 {
    if b then 1 else 0
  }

  function FeedBits(c: bv32, w: seq<bool>): bv32
    decreases w
  {
    if w == [] then c else FeedBits(Step(Xor(c, Bit(w[0]))), w[1..])
  }

  function Push(y: bv32, b: bool): bv32 {
    (y << 1) | Bit(b)
  }

  /** The bits as a register value, first bit lowest. */
  function Word(w: seq<bool>): bv32 {
    if w == [] then 0 else Push(Word(w[1..]), w[0])
  }

  /** The n lowest bits set. */
  function Ones(n: nat): bv32 {
    if n == 0 then 0 else Push(Ones(n - 1), true)
  }

  predicate Within(a: bv32, o: bv32) {
    a & !o == 0
  }

  lemma PushUnfold(y: bv32, b: bool)
    ensures Push(y, b) == if b then (y << 1) | 1 else y << 1
  {
  }

  lemma WithinUnfold(a: bv32, o: bv32)
    ensures Within(a, o) <==> a & !o == 0
  {
  }

  lemma WithinBits(y: bv32, o: bv32)
    requires y & !o == 0
    ensures (y << 1) & !((o << 1) | 1) == 0 && ((y << 1) | 1) & !((o << 1) | 1) == 0
  {
  }

  lemma PushWithin(y: bv32, o: bv32, b: bool)
    requires Within(y, o)
    ensures Within(Push(y, b), Push(o, true))
  {
    hide *;
    WithinUnfold(y, o);
    PushUnfold(y, b);
    PushUnfold(o, true);
    WithinBits(y, o);
    WithinUnfold(Push(y, b), Push(o, true));
  }

  lemma WithinOrder(a: bv32, b: bv32, c: bv32)
    ensures Within(a, a) && Within(0, a)
    ensures Within(a, b) && Within(b, c) ==> Within(a, c)
  {
  }

  lemma {:induction false} OnesNest(n: nat)
    ensures Within(Ones(n), Ones(n + 1))
  {
    hide Push, Within;
    if n == 0 {
      WithinOrder(Ones(1), 0, 0);
    } else {
      OnesNest(n - 1);
      PushWithin(Ones(n - 1), Ones(n), true);
    }
  }

  lemma {:induction false} OnesMonotone(m: nat, n: nat)
    requires m <= n
    ensures Within(Ones(m), Ones(n))
  {
    hide Ones, Within;
    if m == n {
      WithinOrder(Ones(m), 0, 0);
    } else {
      OnesMonotone(m, n - 1);
      OnesNest(n - 1);
      WithinOrder(Ones(m), Ones(n - 1), Ones(n));
    }
  }

  lemma {:induction false} WordWithin(w: seq<bool>)
    ensures Within(Word(w), Ones(|w|))
  {
    hide Push, Within;
    if w == [] {
      WithinOrder(0, 0, 0);
    } else {
      WordWithin(w[1..]);
      PushWithin(Word(w[1..]), Ones(|w| - 1), w[0]);
    }
  }

  lemma OnesFour(n: nat, o: bv32)
    requires Ones(n) == o
    ensures Ones(n + 4) == Push(Push(Push(Push(o, true), true), true), true)
  {
    hide Push;
    assert Ones(n + 2) == Push(Ones(n + 1), true);
    assert Ones(n + 4) == Push(Ones(n + 3), true);
  }

  lemma OnesThirtyOne()
    ensures Ones(31) == 0x7FFFFFFF
  {
    OnesFour(0, 0);
    OnesFour(4, 0xF);
    OnesFour(8, 0xFF);
    OnesFour(12, 0xFFF);
    OnesFour(16, 0xFFFF);
    OnesFour(20, 0xFFFFF);
    OnesFour(24, 0xFFFFFF);
    assert Ones(29) == 0x1FFFFFFF;
    assert Ones(30) == 0x3FFFFFFF;
  }

  predicate TopClear(y: bv32) {
    y & 0x80000000 == 0
  }

  lemma WithinTopClear(y: bv32)
    ensures Within(y, 0x7FFFFFFF) ==> TopClear(y)
  {
  }

  /** Fewer than 32 bits leave the top of the word clear. */
  lemma WordTopClear(w: seq<bool>)
    requires |w| <= 31
    ensures TopClear(Word(w))
  {
    hide *;
    WordWithin(w);
    OnesMonotone(|w|, 31);
    OnesThirtyOne();
    WithinOrder(Word(w), Ones(|w|), Ones(31));
    WithinTopClear(Word(w));
  }

  lemma ShiftBack(y: bv32)
    ensures TopClear(y) ==> (y << 1) & 1 == 0 && (y << 1) >> 1 == y
  {
  }

  lemma StepOfShift(y: bv32)
    requires TopClear(y)
    ensures Step(y << 1) == y
  {
    hide Step, TopClear;
    ShiftBack(y);
    StepCases(y << 1);
  }

  lemma StepXor(x: bv32, y: bv32, z: bv32)
    requires Step(z) == y
    ensures Step(Xor(x, z)) == Xor(Step(x), y)
  {
    hide Step, Xor;
    StepLinear(x, z);
  }

  lemma PushIsXor(x: bv32, y: bv32, b: bool)
    ensures Xor(x, Push(y, b)) == Xor(Xor(x, Bit(b)), y << 1)
  {
  }

  /** Bits still ahead of the register's end simply wait their turn. */
  lemma StepShift(x: bv32, y: bv32, b: bool)
    requires TopClear(y)
    ensures Step(Xor(x, Push(y, b))) == Xor(Step(Xor(x, Bit(b))), y)
  {
    hide *;
    PushIsXor(x, y, b);
    StepOfShift(y);
    StepXor(Xor(x, Bit(b)), y, y << 1);
  }

  /** Up to 32 input bits act as one XOR of the word they spell, followed by as many steps. */
  lemma {:induction false} FeedBitsIsWord(c: bv32, w: seq<bool>)
    requires |w| <= 32
    ensures FeedBits(c, w) == Steps(Xor(c, Word(w)), |w|)
    decreases w
  {
    hide Step, Push, TopClear, Bit, Xor;
    if w == [] {
      XorNothing(c);
    } else {
      WordTopClear(w[1..]);
      StepShift(c, Word(w[1..]), w[0]);
      FeedBitsIsWord(Step(Xor(c, Bit(w[0]))), w[1..]);
    }
  }

  lemma XorNothing(c: bv32)
    ensures Xor(c, 0) == c
  {
  }

  function Half(v: bv32): bv32 {
    v >> 1
  }

  predicate Odd(v: bv32) {
    v & 1 == 1
  }

  lemma HalfBits(y: bv32, v: bv32)
    requires TopClear(y) && (v == y << 1 || v == (y << 1) | 1)
    ensures Half(v) == y
  {
  }

  lemma OddBits(y: bv32, v: bv32)
    ensures v == y << 1 ==> !Odd(v)
    ensures v == (y << 1) | 1 ==> Odd(v)
  {
  }

  /** A pushed bit and the register below it can be read back. */
  lemma PushBack(y: bv32, b: bool)
    requires TopClear(y)
    ensures Half(Push(y, b)) == y && (Odd(Push(y, b)) <==> b)
  {
    hide *;
    PushUnfold(y, b);
    HalfBits(y, Push(y, b));
    OddBits(y, Push(y, b));
  }

  lemma PushInjective(x: bv32, y: bv32, a: bool, b: bool)
    requires TopClear(x) && TopClear(y) && Push(x, a) == Push(y, b)
    ensures x == y && a == b
  {
    hide *;
    PushBack(x, a);
    PushBack(y, b);
  }

  lemma {:induction false} WordInjective(v: seq<bool>, w: seq<bool>)
    requires |v| == |w| <= 32 && Word(v) == Word(w)
    ensures v == w
  {
    hide Push, TopClear;
    if v != [] {
      WordTopClear(v[1..]);
      WordTopClear(w[1..]);
      PushInjective(Word(v[1..]), Word(w[1..]), v[0], w[0]);
      WordInjective(v[1..], w[1..]);
      assert v == [v[0]] + v[1..] && w == [w[0]] + w[1..];
    }
  }

  lemma {:induction false} FeedBitsConcat(c: bv32, v: seq<bool>, w: seq<bool>)
    ensures FeedBits(c, v + w) == FeedBits(FeedBits(c, v), w)
    decreases v
  {
    hide Step;
    if v == [] {
      assert v + w == w;
    } else {
      assert (v + w)[1..] == v[1..] + w;
      FeedBitsConcat(Step(Xor(c, Bit(v[0]))), v[1..], w);
    }
  }

  lemma {:induction false} FeedBitsInjective(c: bv32, d: bv32, w: seq<bool>)
    requires FeedBits(c, w) == FeedBits(d, w)
    ensures c == d
    decreases w
  {
    hide Step, Bit, Xor;
    if w != [] {
      FeedBitsInjective(Step(Xor(c, Bit(w[0]))), Step(Xor(d, Bit(w[0]))), w[1..]);
      StepInjective(Xor(c, Bit(w[0])), Xor(d, Bit(w[0])));
      XorSame(c, d, Bit(w[0]));
    }
  }

  /** The bits of a byte, lowest first. */
  function ByteBits(b: bv8): (w: seq<bool>)
    ensures |w| == 8
  {
    [b & 1 != 0, b & 2 != 0, b & 4 != 0, b & 8 != 0, b & 16 != 0, b & 32 != 0, b & 64 != 0, b & 128 != 0]
  }

  function Bits(s: seq<bv8>): (w: seq<bool>)
    ensures |w| == 8 * |s|
  {
    if s == [] then [] else ByteBits(s[0]) + Bits(s[1..])
  }

  lemma {:induction false} BitsAt(s: seq<bv8>, i: nat, j: nat)
    requires i < |s| && j < 8
    ensures Bits(s)[8 * i + j] == ByteBits(s[i])[j]
  {
    if i > 0 {
      BitsAt(s[1..], i - 1, j);
    }
  }

  lemma WordUnfold(w: seq<bool>, i: nat)
    requires i < |w|
    ensures Word(w[i..]) == Push(Word(w[i + 1..]), w[i])
  {
    assert w[i..][1..] == w[i + 1..];
  }

  lemma WordOfEight(w: seq<bool>)
    requires |w| == 8
    ensures Word(w) == Push(Push(Push(Push(Push(Push(Push(Push(0, w[7]), w[6]), w[5]), w[4]), w[3]), w[2]), w[1]), w[0])
  {
    hide Push;
    WordUnfold(w, 7);
    WordUnfold(w, 6);
    WordUnfold(w, 5);
    WordUnfold(w, 4);
    WordUnfold(w, 3);
    WordUnfold(w, 2);
    WordUnfold(w, 1);
    WordUnfold(w, 0);
    assert w[0..] == w && w[8..] == [];
  }

  lemma ByteWord(b: bv8)
    ensures Word(ByteBits(b)) == b as bv32
  {
    hide Word;
    WordOfEight(ByteBits(b));
  }

  lemma {:induction false} FeedIsBits(c: bv32, s: seq<bv8>)
    ensures Feed(c, s) == FeedBits(c, Bits(s))
    decreases s
  {
    hide Steps, Word, FeedBits, ByteBits, Xor;
    if s == [] {
      FeedNothing(c);
    } else {
      FeedBitsIsWord(c, ByteBits(s[0]));
      ByteWord(s[0]);
      FeedBitsConcat(c, ByteBits(s[0]), Bits(s[1..]));
      FeedIsBits(FeedByte(c, s[0]), s[1..]);
    }
  }

  lemma FeedNothing(c: bv32)
    ensures FeedBits(c, []) == c
  {
  }

  // ---- Detection ----------------------------------------------------------------

  lemma WindowDiffers(c: bv32, v: seq<bool>, w: seq<bool>)
    requires |v| == |w| <= 32 && v != w
    ensures FeedBits(c, v) != FeedBits(c, w)
  {
    hide FeedBits, Word, Steps, Xor;
    FeedBitsIsWord(c, v);
    FeedBitsIsWord(c, w);
    if FeedBits(c, v) == FeedBits(c, w) {
      StepsInjective(Xor(c, Word(v)), Xor(c, Word(w)), |v|);
      XorSame(Word(v), Word(w), c);
      WordInjective(v, w);
      assert false;
    }
  }

  lemma SplitBurst(c: bv32, x: seq<bool>, a: nat, b: nat)
    requires a <= b <= |x|
    ensures FeedBits(c, x) == FeedBits(FeedBits(FeedBits(c, x[..a]), x[a..b]), x[b..])
  {
    hide FeedBits;
    assert x == (x[..a] + x[a..b]) + x[b..];
    FeedBitsConcat(c, x[..a] + x[a..b], x[b..]);
    FeedBitsConcat(c, x[..a], x[a..b]);
  }

  lemma BurstInside(c: bv32, v: seq<bool>, w: seq<bool>, rest: seq<bool>)
    requires |v| == |w| <= 32 && v != w
    ensures FeedBits(FeedBits(c, v), rest) != FeedBits(FeedBits(c, w), rest)
  {
    hide FeedBits;
    WindowDiffers(c, v, w);
    if FeedBits(FeedBits(c, v), rest) == FeedBits(FeedBits(c, w), rest) {
      FeedBitsInjective(FeedBits(c, v), FeedBits(c, w), rest);
      assert false;
    }
  }

  /** Streams that differ, but not outside a window, differ in it. */
  lemma WindowHoldsDifference(v: seq<bool>, w: seq<bool>, a: nat, b: nat)
    requires |v| == |w| && v != w && a <= b <= |v|
    requires forall i :: 0 <= i < |v| && !(a <= i < b) ==> v[i] == w[i]
    ensures v[..a] == w[..a] && v[b..] == w[b..] && v[a..b] != w[a..b]
  {
    var i :| 0 <= i < |v| && v[i] != w[i];
    assert v[a..b][i - a] != w[a..b][i - a];
  }

  lemma BurstInStream(c: bv32, v: seq<bool>, w: seq<bool>, k: nat)
    requires |v| == |w| && v != w
    requires forall i :: 0 <= i < |v| && !(k <= i < k + 32) ==> v[i] == w[i]
    ensures FeedBits(c, v) != FeedBits(c, w)
  {
    hide FeedBits;
    var a := if k < |v| then k else |v|;
    var b := if k + 32 < |v| then k + 32 else |v|;
    WindowHoldsDifference(v, w, a, b);
    SplitBurst(c, v, a, b);
    SplitBurst(c, w, a, b);
    BurstInside(FeedBits(c, v[..a]), v[a..b], w[a..b], v[b..]);
  }

  /** Any non-empty error confined to 32 consecutive bits of the stream changes the CRC. */
  lemma BurstDetected(x: seq<bv8>, y: seq<bv8>, k: nat)
    requires |x| == |y| && Bits(x) != Bits(y)
    requires forall i :: 0 <= i < 8 * |x| && !(k <= i < k + 32) ==> Bits(x)[i] == Bits(y)[i]
    ensures Crc32(x) != Crc32(y)
  {
    hide FeedBits, Bits, Feed, Xor;
    BurstInStream(0xFFFFFFFF, Bits(x), Bits(y), k);
    FeedIsBits(0xFFFFFFFF, x);
    FeedIsBits(0xFFFFFFFF, y);
    XorSame(Feed(0xFFFFFFFF, x), Feed(0xFFFFFFFF, y), 0xFFFFFFFF);
  }

  lemma ByteDiffers(a: bv8, b: bv8)
    requires ByteBits(a) == ByteBits(b)
    ensures a == b
  {
    ByteWord(a);
    ByteWord(b);
    hide Word, ByteBits;
    Widen(a, b);
  }

  lemma Widen(a: bv8, b: bv8)
    ensures a as bv32 == b as bv32 ==> a == b
  {
  }

  /** Buffers of equal length that differ only inside four consecutive bytes have different CRCs. */
  lemma WindowDetected(x: seq<bv8>, y: seq<bv8>, a: nat)
    requires |x| == |y| && x != y
    requires forall i :: 0 <= i < |x| && !(a <= i < a + 4) ==> x[i] == y[i]
    ensures Crc32(x) != Crc32(y)
  {
    hide Bits, ByteBits, Crc32;
    forall i | 0 <= i < 8 * |x| && !(8 * a <= i < 8 * a + 32) ensures Bits(x)[i] == Bits(y)[i] {
      BitsAt(x, i / 8, i % 8);
      BitsAt(y, i / 8, i % 8);
    }
    assert Bits(x) != Bits(y) by {
      if Bits(x) == Bits(y) {
        forall i | 0 <= i < |x| ensures x[i] == y[i] {
          forall j | 0 <= j < 8 ensures ByteBits(x[i])[j] == ByteBits(y[i])[j] {
            BitsAt(x, i, j);
            BitsAt(y, i, j);
          }
          ByteDiffers(x[i], y[i]);
        }
      }
    }
    BurstDetected(x, y, 8 * a);
  }

  // ---- The bound is sharp ---------------------------------------------------------

  /** The generator polynomial itself, 33 bits long, is an error the CRC cannot see. */
  lemma GeneratorUnseen()
    ensures Feed(0, [0x41, 0x06, 0x71, 0xDB, 0x01]) == 0
  {
    hide FeedByte;
    FeedByteUnfold(0, 0x41);
    FeedByteUnfold(0x1DB7106, 0x06);
    FeedByteUnfold(0x1DB71, 0x71);
    FeedByteUnfold(0x1DB, 0xDB);
    FeedByteUnfold(0x1, 0x01);
    FeedFive(0, 0x41, 0x06, 0x71, 0xDB, 0x01);
  }

  /** So 32 bits is the most any window can promise: in every buffer, a 33-bit error escapes. */
  lemma GeneratorEscapes(p: seq<bv8>, x: seq<bv8>, s: seq<bv8>)
    requires |x| == 5
    ensures Crc32(p + XorBytes(x, [0x41, 0x06, 0x71, 0xDB, 0x01]) + s) == Crc32(p + x + s)
    ensures XorBytes(x, [0x41, 0x06, 0x71, 0xDB, 0x01]) != x
  {
    hide Feed, Xor;
    var g: seq<bv8> := [0x41, 0x06, 0x71, 0xDB, 0x01];
    var c := Feed(0xFFFFFFFF, p);
    GeneratorUnseen();
    FeedLinear(c, 0, x, g);
    XorNothing(c);
    XorNothing(Feed(c, x));
    FeedThree(0xFFFFFFFF, p, x, s);
    FeedThree(0xFFFFFFFF, p, XorBytes(x, g), s);
    ByteChanges(x[0], 0x41);
  }

  lemma FeedThree(c: bv32, p: seq<bv8>, x: seq<bv8>, s: seq<bv8>)
    ensures Feed(c, p + x + s) == Feed(Feed(Feed(c, p), x), s)
  {
    hide Feed;
    FeedConcat(c, p + x, s);
    FeedConcat(c, p, x);
  }

  lemma ByteChanges(a: bv8, e: bv8)
    ensures e != 0 ==> a ^ e != a
  {
  }

  lemma FeedUnfold(c: bv32, b: bv8, s: seq<bv8>)
    ensures Feed(c, [b] + s) == Feed(FeedByte(c, b), s)
    ensures Feed(c, []) == c
  {
    hide FeedByte;
    assert ([b] + s)[1..] == s;
  }

  lemma FeedFive(c: bv32, a: bv8, b: bv8, d: bv8, e: bv8, f: bv8)
    ensures Feed(c, [a, b, d, e, f]) == FeedByte(FeedByte(FeedByte(FeedByte(FeedByte(c, a), b), d), e), f)
  {
    hide *;
    var c1 := FeedByte(c, a);
    var c2 := FeedByte(c1, b);
    var c3 := FeedByte(c2, d);
    var c4 := FeedByte(c3, e);
    FeedUnfold(c, a, [b, d, e, f]);
    FeedUnfold(c1, b, [d, e, f]);
    FeedUnfold(c2, d, [e, f]);
    FeedUnfold(c3, e, [f]);
    FeedUnfold(c4, f, []);
    FeedUnfold(FeedByte(c4, f), f, []);
    assert [a, b, d, e, f] == [a] + [b, d, e, f] && [b, d, e, f] == [b] + [d, e, f];
    assert [d, e, f] == [d] + [e, f] && [e, f] == [e] + [f] && [f] == [f] + [];
  }

  lemma StepsUnfold(c: bv32, n: nat)
    ensures Steps(c, n + 1) == Steps(Step(c), n) && Steps(c, 0) == c
  {
    hide Step;
  }

  lemma FeedByteUnfold(c: bv32, b: bv8)
    ensures FeedByte(c, b) == Step(Step(Step(Step(Step(Step(Step(Step(Xor(c, b as bv32)))))))))
  {
    hide Step, Steps, Xor;
    var x0 := Xor(c, b as bv32);
    var x1 := Step(x0);
    var x2 := Step(x1);
    var x3 := Step(x2);
    var x4 := Step(x3);
    var x5 := Step(x4);
    var x6 := Step(x5);
    var x7 := Step(x6);
    StepsUnfold(x0, 7);
    StepsUnfold(x1, 6);
    StepsUnfold(x2, 5);
    StepsUnfold(x3, 4);
    StepsUnfold(x4, 3);
    StepsUnfold(x5, 2);
    StepsUnfold(x6, 1);
    StepsUnfold(x7, 0);
    StepsUnfold(Step(x7), 0);
  }
}
