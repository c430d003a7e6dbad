/** The memory image the checksum reads, bit by bit: every element lowest byte first, in order. */
module MemoryImage {
  import opened Bits
  import opened IntArith
  import opened SelfCheck

  /** Binary digit j of a number. */
  predicate Digit(x: nat, j: nat)
    decreases j
  {
    if j == 0 then x % 2 == 1 else Digit(x / 2, j - 1)
  }

  lemma DoubleBits(y: bv8, b: bool)
    requires Within(y, 0x7f)
    ensures Bits.Odd(Double(y, b) as bv64) == b && Half(Double(y, b) as bv64) == y as bv64
  {
  }

  lemma DigitsUnfold(x: nat, n: nat)
    requires n > 0
    ensures Digits(x, n) == Double(Digits(x / 2, n - 1), x % 2 == 1)
  {
    hide Double;
  }

  lemma ByteBitUnfold(b: bv8, j: nat)
    ensures ByteBit(b, j) == Bit(b as bv64, j)
    ensures Bit(b as bv64, j) == if j == 0 then Bits.Odd(b as bv64) else Bit(Half(b as bv64), j - 1)
  {
    hide Half, Bits.Odd;
  }

  lemma DigitUnfold(x: nat, j: nat)
    ensures Digit(x, j) == if j == 0 then x % 2 == 1 else Digit(x / 2, j - 1)
  {
  }

  lemma {:induction false} DigitsBit(x: nat, n: nat, j: nat)
    requires j < n <= 8
    ensures ByteBit(Digits(x, n), j) == Digit(x, j)
    decreases n
  {
    hide *;
    SevenOnes();
    DigitsWithin(x / 2, n - 1, 7);
    DoubleBits(Digits(x / 2, n - 1), x % 2 == 1);
    DigitsUnfold(x, n);
    DigitUnfold(x, j);
    ByteBitUnfold(Digits(x, n), j);
    if j > 0 {
      ByteBitUnfold(Digits(x / 2, n - 1), j - 1);
      DigitsBit(x / 2, n - 1, j - 1);
    }
  }

  /** A remainder modulo a power of two keeps the digits below it. */
  lemma {:induction false} RemainderDigit(x: nat, n: nat, j: nat)
    requires j < n
    ensures Range(n) > 0 && Digit(x % Range(n), j) == Digit(x, j)
    decreases n
  {
    RangePositive(n - 1);
    HalfRemainder(x, Range(n - 1));
    if j > 0 {
      RemainderDigit(x / 2, n - 1, j - 1);
    }
  }

  lemma {:induction false} RangePositive(n: nat)
    ensures Range(n) > 0
  {
    if n > 0 {
      RangePositive(n - 1);
    }
  }

  lemma HalfRemainder(x: nat, r: nat)
    requires r > 0
    ensures (x % (2 * r)) % 2 == x % 2 && (x % (2 * r)) / 2 == (x / 2) % r
  {
    var q, m := Divided(x, 2 * r);
    Reassociate(q, r);
    HalfOf(x, q, r, m);
  }

  lemma Divided(x: nat, t: nat) returns (q: nat, m: nat)
    requires t > 0
    ensures x == q * t + m && m == x % t < t
  {
    q, m := x / t, x % t;
  }

  lemma HalfOf(x: nat, q: nat, r: nat, m: nat)
    requires x == 2 * (q * r) + m && m < 2 * r
    ensures m % 2 == x % 2 && m / 2 == (x / 2) % r
  {
    HalfSplit(x, q * r, m);
    DivideBack(q, r, m / 2);
  }

  lemma Reassociate(q: nat, r: nat)
    ensures q * (2 * r) == 2 * (q * r)
  {
  }

  lemma HalfSplit(x: nat, p: nat, m: nat)
    requires x == 2 * p + m
    ensures x % 2 == m % 2 && x / 2 == p + m / 2
  {
  }

  lemma EightDigits(x: nat, j: nat)
    ensures Digit(x, j + 8) == Digit(x / 256, j)
  {
    var y := x / 2 / 2 / 2 / 2;
    assert Digit(x, j + 8) == Digit(x / 2, j + 7) == Digit(x / 2 / 2, j + 6) == Digit(x / 2 / 2 / 2, j + 5);
    assert Digit(y, j + 4) == Digit(y / 2, j + 3) == Digit(y / 2 / 2, j + 2) == Digit(y / 2 / 2 / 2, j + 1);
    assert y / 2 / 2 / 2 / 2 == x / 256;
  }

  lemma ByteDigit(v: word, scale: int, j: nat)
    requires scale > 0 && j < 8
    ensures ByteBit(ByteOf(v, scale), j) == Digit(v / scale, j)
  {
    hide Digits, ByteBit, Digit;
    DigitsBit(Quotient(v, scale) % 256, 8, j);
    EightRange();
    RemainderDigit(Quotient(v, scale), 8, j);
  }

  lemma EightRange()
    ensures Range(8) == 256
  {
    assert Range(2) == 4 && Range(4) == 16 && Range(6) == 64;
  }

  /** v shifted down by i bytes. */
  function Shifted(v: nat, i: nat): nat
    decreases i
  {
    if i == 0 then v else Shifted(v / 256, i - 1)
  }

  lemma {:induction false} ShiftedDigit(v: nat, i: nat, j: nat)
    ensures Digit(Shifted(v, i), j) == Digit(v, 8 * i + j)
    decreases i
  {
    hide Digit;
    if i > 0 {
      ShiftedDigit(v / 256, i - 1, j);
      EightDigits(v, 8 * (i - 1) + j);
    }
  }

  lemma Scales(v: word)
    ensures v / 0x100 == Shifted(v, 1) && v / 0x1_0000 == Shifted(v, 2) && v / 0x100_0000 == Shifted(v, 3)
    ensures v / 0x1_0000_0000 == Shifted(v, 4) && v / 0x100_0000_0000 == Shifted(v, 5)
    ensures v / 0x1_0000_0000_0000 == Shifted(v, 6) && v / 0x100_0000_0000_0000 == Shifted(v, 7)
  {
    var a, b, d := v / 0x100, v / 0x1_0000, v / 0x100_0000;
    var e, f, g := v / 0x1_0000_0000, v / 0x100_0000_0000, v / 0x1_0000_0000_0000;
    assert b == a / 256 && d == b / 256 && e == d / 256 && f == e / 256 && g == f / 256;
    assert v / 0x100_0000_0000_0000 == g / 256;
    assert Shifted(v, 3) == Shifted(a, 2) == Shifted(b, 1) == d;
    assert Shifted(v, 7) == Shifted(a, 6) == Shifted(b, 5) == Shifted(d, 4);
    assert Shifted(d, 4) == Shifted(e, 3) == Shifted(f, 2) == Shifted(g, 1);
    assert Shifted(v, 6) == Shifted(a, 5) == Shifted(b, 4) == Shifted(d, 3) == Shifted(e, 2) == Shifted(f, 1);
    assert Shifted(v, 5) == Shifted(a, 4) == Shifted(b, 3) == Shifted(d, 2) == Shifted(e, 1);
    assert Shifted(v, 4) == Shifted(a, 3) == Shifted(b, 2) == Shifted(d, 1);
  }

  lemma ElementBit(v: word, i: nat, j: nat)
    requires i < 8 && j < 8
    ensures ByteBit(ElementBytes(v)[i], j) == Digit(v, 8 * i + j)
  {
    hide ByteOf, ByteBit, Digit, Shifted;
    Scales(v);
    ShiftedDigit(v, i, j);
    ShiftedNothing(v);
    match i
    case 0 => ByteDigit(v, 1, j);
    case 1 => ByteDigit(v, 0x100, j);
    case 2 => ByteDigit(v, 0x1_0000, j);
    case 3 => ByteDigit(v, 0x100_0000, j);
    case 4 => ByteDigit(v, 0x1_0000_0000, j);
    case 5 => ByteDigit(v, 0x100_0000_0000, j);
    case 6 => ByteDigit(v, 0x1_0000_0000_0000, j);
    case 7 => ByteDigit(v, 0x100_0000_0000_0000, j);
  }

  lemma ShiftedNothing(v: word)
    ensures v / 1 == v == Shifted(v, 0)
  {
  }

  lemma {:induction false} ImageByte(mem: seq<word>, k: nat, i: nat)
    requires k < |mem| && i < 8
    ensures MemoryBytes(mem)[8 * k + i] == ElementBytes(mem[k])[i]
    decreases mem
  {
    hide ElementBytes;
    if k > 0 {
      ImageByte(mem[1..], k - 1, i);
    }
  }

  /** Bit j of byte 8k + i of the image is binary digit 8i + j of element k. */
  lemma ImageBits(mem: seq<word>, k: nat, i: nat, j: nat)
    requires k < |mem| && i < 8 && j < 8
    ensures ByteBit(MemoryBytes(mem)[8 * k + i], j) == Digit(mem[k], 8 * i + j)
  {
    hide ElementBytes, ByteBit, Digit, MemoryBytes;
    ImageByte(mem, k, i);
    ElementBit(mem[k], i, j);
  }
}
