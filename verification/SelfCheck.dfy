/**
 * The deterministic output signature of the generated wrappers and the two-pass
 * checker built on it.  The assembly body is an arbitrary deterministic function
 * of registers and memory.
 */
module SelfCheck {
  import opened Crc

  const WORD: int := 0x1_0000_0000_0000_0000

  /** A 64-bit register or memory element. */
  type word = x: int | 0 <= x < 0x1_0000_0000_0000_0000

  datatype State = State(regs: seq<word>, mem: seq<word>)

  datatype Signature = Signature(sum: word, crc: bv32)

  /** One step of the register hash, modulo 2^64. */
  function Mix(sum: word, reg: word): word {
    (sum * 1315423911 + reg) % 0x1_0000_0000_0000_0000
  }

  /** The register hash, continued from an intermediate sum. */
  function Hash(sum: word, regs: seq<word>): word
    decreases regs
  {
    if regs == [] then sum else Hash(Mix(sum, regs[0]), regs[1..])
  }

  function Double(y: bv8, b: bool): bv8 {
    (y << 1) | (if b then 1 else 0)
  }

  /** The n lowest binary digits of a number, as bits of a byte. */
  function Digits(x: nat, n: nat): bv8 {
    if n == 0 then 0 else Double(Digits(x / 2, n - 1), x % 2 == 1)
  }

  function ToByte(x: int): bv8
    requires 0 <= x < 256
  {
    Digits(x, 8)
  }

  function Quotient(v: word, scale: int): int
    requires scale > 0
  {
    v / scale
  }

  function ByteOf(v: word, scale: int): bv8
    requires scale > 0
  {
    ToByte(Quotient(v, scale) % 256)
  }

  /** The eight bytes of a memory element, lowest first, as the CRC reads them. */
  function ElementBytes(v: word): (b: seq<bv8>)
    ensures |b| == 8
  {
    [ByteOf(v, 1), ByteOf(v, 0x100), ByteOf(v, 0x1_0000), ByteOf(v, 0x100_0000), ByteOf(v, 0x1_0000_0000),
     ByteOf(v, 0x100_0000_0000), ByteOf(v, 0x1_0000_0000_0000), ByteOf(v, 0x100_0000_0000_0000)]
  }

  function MemoryBytes(mem: seq<word>): (b: seq<bv8>)
    ensures |b| == 8 * |mem|
  {
    if mem == [] then [] else ElementBytes(mem[0]) + MemoryBytes(mem[1..])
  }

  function Sign(s: State): Signature {
    Signature(Hash(0, s.regs), Crc32(MemoryBytes(s.mem)))
  }

  // ---- The register hash ---------------------------------------------------------

  /** The multiplier is odd, hence a unit modulo 2^64: a multiple of it vanishes only at zero. */
  lemma MultiplierIsUnit(d: int, q: int)
    requires d * 1315423911 == q * 0x1_0000_0000_0000_0000
    requires -0x1_0000_0000_0000_0000 < d < 0x1_0000_0000_0000_0000
    ensures d == 0
  {
    var k := q * 17277697729899102487 - d * 1232060066;
    assert d == k * 0x1_0000_0000_0000_0000;
  }

  lemma ModEqual(a: int, b: int)
    ensures a % 0x1_0000_0000_0000_0000 == b % 0x1_0000_0000_0000_0000 <==> (a - b) % 0x1_0000_0000_0000_0000 == 0
  {
    var p, q, k := a / WORD, b / WORD, (a - b) / WORD;
    assert a == p * WORD + a % WORD && b == q * WORD + b % WORD && a - b == k * WORD + (a - b) % WORD;
    if a % WORD == b % WORD {
      assert a - b == (p - q) * WORD;
    }
    if (a - b) % WORD == 0 {
      assert a % WORD - b % WORD == (k - p + q) * WORD;
    }
  }

  /** What it takes for two hash steps to end in the same sum. */
  lemma MixEqual(x: word, y: word, r: word, s: word)
    ensures Mix(x, r) == Mix(y, s) <==>
            (x * 1315423911 + r - (y * 1315423911 + s)) % 0x1_0000_0000_0000_0000 == 0
  {
    ModEqual(x * 1315423911 + r, y * 1315423911 + s);
  }

  lemma MixInjective(x: word, y: word, r: word, s: word)
    ensures Mix(x, r) == Mix(y, r) <==> x == y
    ensures Mix(x, r) == Mix(x, s) <==> r == s
  {
    hide Mix;
    MixEqual(x, y, r, r);
    MixEqual(x, x, r, s);
    if Mix(x, r) == Mix(y, r) {
      MultiplierIsUnit(x - y, (x - y) * 1315423911 / 0x1_0000_0000_0000_0000);
    }
  }

  lemma {:induction false} HashInjective(x: word, y: word, regs: seq<word>)
    requires Hash(x, regs) == Hash(y, regs)
    ensures x == y
    decreases regs
  {
    hide Mix;
    if regs != [] {
      HashInjective(Mix(x, regs[0]), Mix(y, regs[0]), regs[1..]);
      MixInjective(x, y, regs[0], 0);
    }
  }

  lemma {:induction false} HashConcat(sum: word, a: seq<word>, b: seq<word>)
    ensures Hash(sum, a + b) == Hash(Hash(sum, a), b)
    decreases a
  {
    hide Mix;
    if a == [] {
      assert a + b == b;
    } else {
      assert (a + b)[1..] == a[1..] + b;
      HashConcat(Mix(sum, a[0]), a[1..], b);
    }
  }

  lemma SplitHash(regs: seq<word>, i: nat)
    requires i < |regs|
    ensures Hash(0, regs) == Hash(Mix(Hash(0, regs[..i]), regs[i]), regs[i + 1..])
  {
    hide Mix;
    assert regs == regs[..i] + regs[i..];
    HashConcat(0, regs[..i], regs[i..]);
    assert regs[i..][1..] == regs[i + 1..];
  }

  /** Changing exactly one register changes the hash. */
  lemma OneRegisterSeen(a: seq<word>, b: seq<word>, i: nat)
    requires |a| == |b| && i < |a| && a[i] != b[i]
    requires forall j :: 0 <= j < |a| && j != i ==> a[j] == b[j]
    ensures Hash(0, a) != Hash(0, b)
  {
    hide Mix, Hash;
    SplitHash(a, i);
    SplitHash(b, i);
    assert a[..i] == b[..i] && a[i + 1..] == b[i + 1..];
    var h := Hash(0, a[..i]);
    MixInjective(h, h, a[i], b[i]);
    if Hash(0, a) == Hash(0, b) {
      HashInjective(Mix(h, a[i]), Mix(h, b[i]), a[i + 1..]);
      assert false;
    }
  }

  lemma ModShift(a: int, k: int)
    ensures (a - k * 0x1_0000_0000_0000_0000) % 0x1_0000_0000_0000_0000 == a % 0x1_0000_0000_0000_0000
  {
    ModEqual(a - k * WORD, a);
    assert (a - k * WORD) - a == (-k) * WORD;
  }

  lemma MixTwice(h: word, p: word, q: word, r: word, s: word)
    ensures Mix(Mix(h, p), q) == Mix(Mix(h, r), s)
       <==> ((p - r) * 1315423911 + (q - s)) % 0x1_0000_0000_0000_0000 == 0
  {
    var d := (h * 1315423911 + p) / WORD - (h * 1315423911 + r) / WORD;
    assert Mix(h, p) - Mix(h, r) == (p - r) - d * WORD;
    hide Mix;
    MixEqual(Mix(h, p), Mix(h, r), q, s);
    ModShift((p - r) * 1315423911 + (q - s), d * 1315423911);
  }

  /**
   * Two adjacent registers can hide each other's change, and only in one way: the
   * later one must move by the earlier one's change times the multiplier.
   */
  lemma TwoRegistersEscape(a: seq<word>, b: seq<word>, i: nat)
    requires |a| == |b| && i + 1 < |a|
    requires forall j :: 0 <= j < |a| && j != i && j != i + 1 ==> a[j] == b[j]
    ensures Hash(0, a) == Hash(0, b) <==>
      ((a[i] as int - b[i] as int) * 1315423911 + (a[i + 1] as int - b[i + 1] as int)) % 0x1_0000_0000_0000_0000 == 0
  {
    hide Mix, Hash;
    SplitTwice(a, i);
    SplitTwice(b, i);
    assert a[..i] == b[..i] && a[i + 2..] == b[i + 2..];
    var h := Hash(0, a[..i]);
    var x, y := Mix(Mix(h, a[i]), a[i + 1]), Mix(Mix(h, b[i]), b[i + 1]);
    MixTwice(h, a[i], a[i + 1], b[i], b[i + 1]);
    if Hash(0, a) == Hash(0, b) {
      HashInjective(x, y, a[i + 2..]);
    }
  }

  lemma SplitTwice(regs: seq<word>, i: nat)
    requires i + 1 < |regs|
    ensures Hash(0, regs) == Hash(Mix(Mix(Hash(0, regs[..i]), regs[i]), regs[i + 1]), regs[i + 2..])
  {
    hide Mix;
    SplitHash(regs, i);
    assert regs[i + 1..][1..] == regs[i + 2..];
  }

  // ---- The hash is linear --------------------------------------------------------------

  function Power(n: nat): int {
    if n == 0 then 1 else 1315423911 * Power(n - 1)
  }

  /** The registers weighed by the powers of the multiplier, as an integer. */
  function Weighed(regs: seq<word>): int {
    if regs == [] then 0 else regs[0] * Power(|regs| - 1) + Weighed(regs[1..])
  }

  /** The weighed sum of the register differences. */
  function Difference(a: seq<word>, b: seq<word>): int
    requires |a| == |b|
  {
    if a == [] then 0 else (a[0] as int - b[0] as int) * Power(|a| - 1) + Difference(a[1..], b[1..])
  }

  lemma MixSplits(sum: word, reg: word) returns (k: int)
    ensures Mix(sum, reg) == sum * 1315423911 + reg - k * 0x1_0000_0000_0000_0000
  {
    k := (sum * 1315423911 + reg) / WORD;
  }

  lemma WeighStep(s: int, r: int, k: int, p: int, x: int)
    ensures (s * 1315423911 + r - k * 0x1_0000_0000_0000_0000) * p + x
         == s * (1315423911 * p) + (r * p + x) - (k * p) * 0x1_0000_0000_0000_0000
  {
    assert (s * 1315423911) * p == s * (1315423911 * p);
    assert (k * 0x1_0000_0000_0000_0000) * p == (k * p) * 0x1_0000_0000_0000_0000;
    Spread3(s * 1315423911, r, k * 0x1_0000_0000_0000_0000, p);
  }

  lemma Spread3(a: int, b: int, c: int, p: int)
    ensures (a + b - c) * p == a * p + b * p - c * p
  {
  }

  lemma PowerUnfold(n: nat)
    ensures Power(n) == if n == 0 then 1 else 1315423911 * Power(n - 1)
  {
  }

  /** The hash is the weighed sum modulo 2^64. */
  lemma {:induction false} HashIsWeighed(sum: word, regs: seq<word>)
    ensures Hash(sum, regs) == (sum * Power(|regs|) + Weighed(regs)) % 0x1_0000_0000_0000_0000
    decreases regs
  {
    hide Mix, Power;
    PowerUnfold(|regs|);
    if regs != [] {
      var k := MixSplits(sum, regs[0]);
      HashIsWeighed(Mix(sum, regs[0]), regs[1..]);
      var p, x := Power(|regs| - 1), Weighed(regs[1..]);
      WeighStep(sum, regs[0], k, p, x);
      ModShift(sum * (1315423911 * p) + (regs[0] * p + x), k * p);
    }
  }

  lemma {:induction false} DifferenceIs(a: seq<word>, b: seq<word>)
    requires |a| == |b|
    ensures Difference(a, b) == Weighed(a) - Weighed(b)
  {
    hide Power;
    if a != [] {
      DifferenceIs(a[1..], b[1..]);
      var p := Power(|a| - 1);
      assert (a[0] as int - b[0] as int) * p == a[0] * p - b[0] * p;
    }
  }

  /** Two register files have the same hash exactly when their weighed differences vanish modulo 2^64. */
  lemma CollisionIff(a: seq<word>, b: seq<word>)
    requires |a| == |b|
    ensures Hash(0, a) == Hash(0, b) <==> Difference(a, b) % 0x1_0000_0000_0000_0000 == 0
  {
    hide Hash, Weighed, Difference, Power;
    HashIsWeighed(0, a);
    HashIsWeighed(0, b);
    DifferenceIs(a, b);
    ZeroTimes(Power(|a|));
    ModEqual(Weighed(a), Weighed(b));
  }

  lemma ZeroTimes(p: int)
    ensures 0 * p == 0
  {
  }

  // ---- Memory images ---------------------------------------------------------------------

  function Ones(n: nat): bv8 {
    if n == 0 then 0 else Double(Ones(n - 1), true)
  }

  predicate Within(y: bv8, o: bv8) {
    y & !o == 0
  }

  lemma DoubleWithin(y: bv8, o: bv8, b: bool)
    ensures Within(y, o) ==> Within(Double(y, b), Double(o, true))
  {
  }

  lemma DoubleInjective(y: bv8, z: bv8, a: bool, b: bool)
    ensures Within(y, 0x7f) && Within(z, 0x7f) && Double(y, a) == Double(z, b) ==> y == z && a == b
  {
  }

  lemma WithinOrder(y: bv8, o: bv8, p: bv8)
    ensures Within(y, o) && Within(o, p) ==> Within(y, p)
  {
  }

  lemma WithinSelf(y: bv8)
    ensures Within(0, y) && Within(y, y)
  {
  }

  lemma {:induction false} OnesNest(n: nat)
    ensures Within(Ones(n), Ones(n + 1))
  {
    hide Within, Double;
    if n == 0 {
      WithinSelf(Ones(1));
    } else {
      OnesNest(n - 1);
      DoubleWithin(Ones(n - 1), Ones(n), true);
    }
  }

  lemma {:induction false} DigitsWithin(x: nat, n: nat, m: nat)
    requires n <= m
    ensures Within(Digits(x, n), Ones(m))
    decreases n + m
  {
    hide Within, Double;
    if n == 0 {
      WithinSelf(Ones(m));
    } else if n < m {
      DigitsWithin(x, n, m - 1);
      OnesNest(m - 1);
      WithinOrder(Digits(x, n), Ones(m - 1), Ones(m));
    } else {
      DigitsWithin(x / 2, n - 1, m - 1);
      DoubleWithin(Digits(x / 2, n - 1), Ones(m - 1), x % 2 == 1);
    }
  }

  lemma SevenOnes()
    ensures Ones(7) == 0x7f
  {
    assert Ones(2) == 3;
    assert Ones(4) == 15;
    assert Ones(6) == 63;
  }

  lemma {:induction false} DigitsInjective(x: nat, y: nat, n: nat)
    requires n <= 8 && Digits(x, n) == Digits(y, n) && x < Range(n) && y < Range(n)
    ensures x == y
    decreases n
  {
    hide Within, Double;
    if n > 0 {
      SevenOnes();
      DigitsWithin(x / 2, n - 1, 7);
      DigitsWithin(y / 2, n - 1, 7);
      DoubleInjective(Digits(x / 2, n - 1), Digits(y / 2, n - 1), x % 2 == 1, y % 2 == 1);
      DigitsInjective(x / 2, y / 2, n - 1);
    }
  }

  function Range(n: nat): nat {
    if n == 0 then 1 else 2 * Range(n - 1)
  }

  lemma ByteInjective(x: int, y: int)
    requires 0 <= x < 256 && 0 <= y < 256 && ToByte(x) == ToByte(y)
    ensures x == y
  {
    hide Digits;
    assert Range(2) == 4 && Range(4) == 16 && Range(6) == 64;
    DigitsInjective(x, y, 8);
  }

  lemma DigitEqual(v: word, w: word, scale: int)
    requires scale > 0 && ByteOf(v, scale) == ByteOf(w, scale)
    ensures Quotient(v, scale) % 256 == Quotient(w, scale) % 256
  {
    hide Quotient, ToByte;
    ByteInjective(Quotient(v, scale) % 256, Quotient(w, scale) % 256);
  }

  lemma SameQuotient(x: int, y: int)
    requires x / 256 == y / 256 && x % 256 == y % 256
    ensures x == y
  {
  }

  /** Equal above one byte and equal in it: equal from it on. */
  lemma NextDigit(v: word, w: word, low: int, high: int)
    requires low > 0 && high > 0 && Quotient(v, high) == Quotient(w, high) && ByteOf(v, low) == ByteOf(w, low)
    requires Quotient(v, low) / 256 == Quotient(v, high) && Quotient(w, low) / 256 == Quotient(w, high)
    ensures Quotient(v, low) == Quotient(w, low)
  {
    hide Quotient, ByteOf;
    DigitEqual(v, w, low);
    SameQuotient(Quotient(v, low), Quotient(w, low));
  }

  lemma Nested(v: word)
    ensures Quotient(v, 0x100_0000_0000_0000) / 256 == 0
    ensures Quotient(v, 0x1_0000_0000_0000) / 256 == Quotient(v, 0x100_0000_0000_0000)
    ensures Quotient(v, 0x100_0000_0000) / 256 == Quotient(v, 0x1_0000_0000_0000)
    ensures Quotient(v, 0x1_0000_0000) / 256 == Quotient(v, 0x100_0000_0000)
    ensures Quotient(v, 0x100_0000) / 256 == Quotient(v, 0x1_0000_0000)
    ensures Quotient(v, 0x1_0000) / 256 == Quotient(v, 0x100_0000)
    ensures Quotient(v, 0x100) / 256 == Quotient(v, 0x1_0000)
    ensures Quotient(v, 1) / 256 == Quotient(v, 0x100) && Quotient(v, 1) == v
  {
  }

  lemma EqualBytes(v: word, w: word)
    requires ElementBytes(v) == ElementBytes(w)
    ensures ByteOf(v, 1) == ByteOf(w, 1) && ByteOf(v, 0x100) == ByteOf(w, 0x100)
    ensures ByteOf(v, 0x1_0000) == ByteOf(w, 0x1_0000) && ByteOf(v, 0x100_0000) == ByteOf(w, 0x100_0000)
    ensures ByteOf(v, 0x1_0000_0000) == ByteOf(w, 0x1_0000_0000)
    ensures ByteOf(v, 0x100_0000_0000) == ByteOf(w, 0x100_0000_0000)
    ensures ByteOf(v, 0x1_0000_0000_0000) == ByteOf(w, 0x1_0000_0000_0000)
    ensures ByteOf(v, 0x100_0000_0000_0000) == ByteOf(w, 0x100_0000_0000_0000)
  {
    hide ByteOf;
    var a, b := ElementBytes(v), ElementBytes(w);
    assert a[0] == b[0] && a[1] == b[1] && a[2] == b[2] && a[3] == b[3];
    assert a[4] == b[4] && a[5] == b[5] && a[6] == b[6] && a[7] == b[7];
  }

  /** No two elements have the same bytes. */
  lemma ElementInjective(v: word, w: word)
    requires ElementBytes(v) == ElementBytes(w)
    ensures v == w
  {
    hide *;
    EqualBytes(v, w);
    Nested(v);
    Nested(w);
    DigitEqual(v, w, 0x100_0000_0000_0000);
    SameQuotient(Quotient(v, 0x100_0000_0000_0000), Quotient(w, 0x100_0000_0000_0000));
    NextDigit(v, w, 0x1_0000_0000_0000, 0x100_0000_0000_0000);
    NextDigit(v, w, 0x100_0000_0000, 0x1_0000_0000_0000);
    NextDigit(v, w, 0x1_0000_0000, 0x100_0000_0000);
    NextDigit(v, w, 0x100_0000, 0x1_0000_0000);
    NextDigit(v, w, 0x1_0000, 0x100_0000);
    NextDigit(v, w, 0x100, 0x1_0000);
    NextDigit(v, w, 1, 0x100);
  }

  /** No two memories of one size have the same image. */
  lemma {:induction false} MemoryInjective(m: seq<word>, n: seq<word>)
    requires |m| == |n| && MemoryBytes(m) == MemoryBytes(n)
    ensures m == n
  {
    hide ElementBytes;
    if m != [] {
      assert ElementBytes(m[0]) == MemoryBytes(m)[..8] && MemoryBytes(m[1..]) == MemoryBytes(m)[8..];
      assert ElementBytes(n[0]) == MemoryBytes(n)[..8] && MemoryBytes(n[1..]) == MemoryBytes(n)[8..];
      ElementInjective(m[0], n[0]);
      MemoryInjective(m[1..], n[1..]);
      assert m == [m[0]] + m[1..] && n == [n[0]] + n[1..];
    }
  }

  // ---- The verdict of the two-pass checker ------------------------------------------

  type Pass = State -> State

  predicate SameShape(s: State, t: State) {
    |s.regs| == |t.regs| && |s.mem| == |t.mem|
  }

  /** A pass runs the body a number of times on its own channel. */
  function Iterate(f: Pass, n: nat, s: State): State {
    if n == 0 then s else f(Iterate(f, n - 1, s))
  }

  predicate Accepts(s: State, t: State) {
    Sign(s) == Sign(t)
  }

  /**
   * Both passes running the same function are accepted, whatever that function is:
   * a fault that corrupts both passes alike goes unseen.
   */
  lemma {:induction false} SameFunctionAccepted(f: Pass, g: Pass, n: nat, s: State)
    requires forall x :: f(x) == g(x)
    ensures Iterate(f, n, s) == Iterate(g, n, s)
    ensures Accepts(Iterate(f, n, s), Iterate(g, n, s))
  {
    hide Sign;
    if n > 0 {
      SameFunctionAccepted(f, g, n - 1, s);
    }
  }

  /** Final states that differ in exactly one register are rejected, whatever memory holds. */
  lemma OneRegisterRejected(s: State, t: State, i: nat)
    requires SameShape(s, t) && i < |s.regs| && s.regs[i] != t.regs[i]
    requires forall j :: 0 <= j < |s.regs| && j != i ==> s.regs[j] == t.regs[j]
    ensures !Accepts(s, t)
  {
    hide Hash, Crc32, MemoryBytes;
    OneRegisterSeen(s.regs, t.regs, i);
  }

  /** Final memories that differ only within four consecutive bytes are rejected, whatever the registers hold. */
  lemma MemoryWindowRejected(s: State, t: State, a: nat)
    requires SameShape(s, t) && s.mem != t.mem
    requires forall i :: 0 <= i < 8 * |s.mem| && !(a <= i < a + 4) ==> MemoryBytes(s.mem)[i] == MemoryBytes(t.mem)[i]
    ensures !Accepts(s, t)
  {
    hide Hash, Crc32, MemoryBytes;
    if MemoryBytes(s.mem) == MemoryBytes(t.mem) {
      MemoryInjective(s.mem, t.mem);
      assert false;
    }
    WindowDetected(MemoryBytes(s.mem), MemoryBytes(t.mem), a);
  }
}
