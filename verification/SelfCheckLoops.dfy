/** The C loops behind the signature: CRC, register hash, seeding and the checker's main. */
module SelfCheckLoops {
  import opened Crc
  import opened SelfCheck

  /** Feed one more byte at the end. */
  lemma FeedAppend(c: bv32, s: seq<bv8>, b: bv8)
    ensures Feed(c, s + [b]) == FeedByte(Feed(c, s), b)
  {
    hide FeedByte;
    FeedConcat(c, s, [b]);
    FeedUnfold(Feed(c, s), b, []);
    FeedUnfold(FeedByte(Feed(c, s), b), b, []);
    assert [b] == [b] + [];
  }

  method EightSteps(start: bv32) returns (crc: bv32)
    ensures crc == Steps(start, 8)
  {
    hide Step;
    crc := start;
    for k := 0 to 8
      invariant Steps(crc, 8 - k) == Steps(start, 8)
    {
      StepsUnfold(crc, 8 - k - 1);
      crc := Step(crc);
    }
  }

  /** The workload kernel's routine: continue a CRC register over the first len bytes. */
  method CrcSimple(start: bv32, buf: array<bv8>, len: int) returns (crc: bv32)
    requires len <= buf.Length
    ensures crc == Feed(start, buf[..if len < 0 then 0 else len])
  {
    hide Feed, Steps, Step;
    crc := start;
    var i := 0;
    FeedUnfold(start, 0, []);
    assert buf[..0] == [];
    while i < len
      invariant 0 <= i && (len < 0 ==> i == 0) && (0 <= len ==> i <= len)
      invariant crc == Feed(start, buf[..i])
    {
      FeedAppend(start, buf[..i], buf[i]);
      assert buf[..i + 1] == buf[..i] + [buf[i]];
      crc := EightSteps(Xor(crc, buf[i] as bv32));
      i := i + 1;
    }
  }

  /** The wrapper's routine: initial and final complement around the same loop. */
  method CrcOfBuffer(buf: array<bv8>) returns (r: bv32)
    ensures r == Crc32(buf[..])
  {
    hide Feed;
    var crc := CrcSimple(0xFFFFFFFF, buf, buf.Length);
    assert buf[..buf.Length] == buf[..];
    r := Xor(crc, 0xFFFFFFFF);
  }

  method HashOfRegisters(regs: array<word>) returns (sum: word)
    ensures sum == Hash(0, regs[..])
  {
    hide Mix;
    sum := 0;
    for i := 0 to regs.Length
      invariant sum == Hash(0, regs[..i])
    {
      assert regs[..i + 1] == regs[..i] + [regs[i]];
      HashConcat(0, regs[..i], [regs[i]]);
      assert Hash(Hash(0, regs[..i]), [regs[i]]) == Mix(Hash(0, regs[..i]), regs[i]);
      sum := Mix(sum, regs[i]);
    }
    assert regs[..regs.Length] == regs[..];
  }

  // ---- Deterministic seeding --------------------------------------------------------

  /** The two-word state of the xorshift generator. */
  datatype Seed = Seed(xs1: bv64, xs2: bv64)

  function ShiftLeft(x: bv64): bv64 { x ^ (x << 23) }

  function UnshiftLeft(y: bv64): bv64 { y ^ (y << 23) ^ (y << 46) }

  function ShiftRight(x: bv64): bv64 { x ^ (x >> 17) }

  function UnshiftRight(y: bv64): bv64 { y ^ (y >> 17) ^ (y >> 34) ^ (y >> 51) }

  function NextSeed(g: Seed): Seed {
    var s2 := ShiftLeft(g.xs2);
    Seed(s2, ShiftRight(g.xs1) ^ (s2 >> 26))
  }

  /** The step run backwards. */
  function PreviousSeed(h: Seed): Seed {
    Seed(UnshiftRight(h.xs2 ^ (h.xs1 >> 26)), UnshiftLeft(h.xs1))
  }

  function AddSelf(x: bv64): bv64 { x + x }

  /** The value drawn: the new first word added to itself, as the C code returns it. */
  function DrawnBits(g: Seed): bv64 {
    AddSelf(ShiftLeft(g.xs2))
  }

  function Draw(g: Seed): word {
    DrawnBits(g) as int
  }

  /** So a draw is the new first word moved up by one bit, and no draw is odd. */
  lemma DrawsAreEven(g: Seed)
    ensures DrawnBits(g) == NextSeed(g).xs1 << 1 && DrawnBits(g) & 1 == 0
  {
    hide ShiftLeft, ShiftRight, AddSelf;
    Doubled(ShiftLeft(g.xs2), AddSelf(ShiftLeft(g.xs2)));
  }

  lemma Doubled(x: bv64, y: bv64)
    requires y == AddSelf(x)
    ensures y == x << 1 && y & 1 == 0
  {
  }

  /** One step worked out, on a seed that shows all three shift distances. */
  lemma WorkedStep()
    ensures NextSeed(Seed(0x20000, 0x4000000)) == Seed(0x2000004000000, 0x820000)
  {
  }

  function Advance(g: Seed, n: nat): Seed {
    if n == 0 then g else NextSeed(Advance(g, n - 1))
  }

  lemma UnshiftLeftBits(x: bv64)
    ensures UnshiftLeft(x ^ (x << 23)) == x
  {
  }

  lemma UnshiftRightBits(x: bv64)
    ensures UnshiftRight(x ^ (x >> 17)) == x
  {
  }

  lemma UnshiftShift(x: bv64)
    ensures UnshiftLeft(ShiftLeft(x)) == x && UnshiftRight(ShiftRight(x)) == x
  {
    hide UnshiftLeft, UnshiftRight;
    UnshiftLeftBits(x);
    UnshiftRightBits(x);
  }

  lemma XorTwice(a: bv64, m: bv64)
    ensures (a ^ m) ^ m == a
  {
  }

  /** The generator never merges two states: every step can be undone. */
  lemma SeedRoundTrip(g: Seed)
    ensures PreviousSeed(NextSeed(g)) == g
  {
    hide ShiftLeft, ShiftRight, UnshiftLeft, UnshiftRight;
    UnshiftShift(g.xs1);
    UnshiftShift(g.xs2);
    XorTwice(ShiftRight(g.xs1), ShiftLeft(g.xs2) >> 26);
  }

  lemma ZeroIsFixed()
    ensures NextSeed(Seed(0, 0)) == Seed(0, 0)
  {
  }

  /** A non-zero seed never reaches the all-zero state, where the generator would stay for ever. */
  lemma {:induction false} NeverStuck(g: Seed, n: nat)
    requires g != Seed(0, 0)
    ensures Advance(g, n) != Seed(0, 0)
  {
    hide NextSeed, PreviousSeed;
    if n > 0 {
      NeverStuck(g, n - 1);
      ZeroIsFixed();
      SeedRoundTrip(Advance(g, n - 1));
      SeedRoundTrip(Seed(0, 0));
    }
  }

  /** The n values drawn from position k of the stream on. */
  function Draws(g: Seed, k: nat, n: nat): (v: seq<word>)
    ensures |v| == n && forall i :: 0 <= i < n ==> v[i] == Draw(Advance(g, k + i))
  {
    if n == 0 then [] else Draws(g, k, n - 1) + [Draw(Advance(g, k + n - 1))]
  }

  function InitialState(g: Seed, nregs: nat, nmem: nat): State {
    State(Draws(g, 0, nregs), Draws(g, nregs, nmem))
  }

  /** Fill both channels with the same draws, as the checker's first loops do. */
  method Fill(g: Seed, a: array<word>, b: array<word>, ghost first: Seed, ghost k: nat) returns (next: Seed)
    requires a.Length == b.Length && a != b && g == Advance(first, k)
    modifies a, b
    ensures a[..] == Draws(first, k, a.Length) && b[..] == a[..]
    ensures next == Advance(first, k + a.Length)
  {
    hide NextSeed, Draw;
    next := g;
    for i := 0 to a.Length
      invariant next == Advance(first, k + i)
      invariant forall j :: 0 <= j < i ==> a[j] == b[j] == Draw(Advance(first, k + j))
    {
      a[i], b[i] := Draw(next), Draw(next);
      next := NextSeed(next);
    }
  }

  /** Run one pass of the body on its own register and memory arrays. */
  method RunPass(f: Pass, iters: int, regs: array<word>, mem: array<word>)
    requires regs != mem
    requires forall s :: SameShape(f(s), s)
    modifies regs, mem
    ensures State(regs[..], mem[..])
         == Iterate(f, if iters < 0 then 0 else iters, State(old(regs[..]), old(mem[..])))
  {
    ghost var start := State(regs[..], mem[..]);
    var it := 0;
    while it < iters
      invariant 0 <= it && (iters < 0 ==> it == 0) && (0 <= iters ==> it <= iters)
      invariant State(regs[..], mem[..]) == Iterate(f, it, start)
    {
      var out := f(State(regs[..], mem[..]));
      assert SameShape(out, State(regs[..], mem[..]));
      forall i | 0 <= i < regs.Length { regs[i] := out.regs[i]; }
      forall i | 0 <= i < mem.Length { mem[i] := out.mem[i]; }
      assert regs[..] == out.regs && mem[..] == out.mem;
      it := it + 1;
    }
  }

  method BytesOf(mem: array<word>) returns (buf: array<bv8>)
    ensures fresh(buf) && buf[..] == MemoryBytes(mem[..])
  {
    hide ElementBytes;
    var bytes: seq<bv8> := [];
    for i := 0 to mem.Length
      invariant bytes == MemoryBytes(mem[..i])
    {
      MemoryAppend(mem[..i], mem[i]);
      assert mem[..i + 1] == mem[..i] + [mem[i]];
      bytes := bytes + ElementBytes(mem[i]);
    }
    assert mem[..mem.Length] == mem[..];
    buf := new bv8[|bytes|](i requires 0 <= i < |bytes| => bytes[i]);
  }

  lemma {:induction false} MemoryAppend(m: seq<word>, v: word)
    ensures MemoryBytes(m + [v]) == MemoryBytes(m) + ElementBytes(v)
  {
    hide ElementBytes;
    if m == [] {
      assert m + [v] == [v];
    } else {
      assert (m + [v])[1..] == m[1..] + [v];
      MemoryAppend(m[1..], v);
    }
  }

  method SignatureOf(regs: array<word>, mem: array<word>) returns (sum: word, crc: bv32)
    ensures Signature(sum, crc) == Sign(State(regs[..], mem[..]))
  {
    hide Hash, Crc32, MemoryBytes;
    sum := HashOfRegisters(regs);
    var buf := BytesOf(mem);
    crc := CrcOfBuffer(buf);
  }

  /**
   * The checker's main: seed both channels alike, run the body on each, compare the
   * two signatures.  `pass1` and `pass2` are what the hardware made of the one body.
   */
  method CheckerMain(seed: Seed, nregs: nat, memBytes: nat, iters: int, pass1: Pass, pass2: Pass)
    returns (ok: bool)
    requires forall s :: SameShape(pass1(s), s)
    requires forall s :: SameShape(pass2(s), s)
    ensures var n := if iters < 0 then 0 else iters;
            var s := InitialState(seed, nregs, memBytes / 8);
            ok <==> Accepts(Iterate(pass1, n, s), Iterate(pass2, n, s))
  {
    hide NextSeed, Draw, Sign, Iterate;
    var regs1, regs2 := new word[nregs](_ => 0), new word[nregs](_ => 0);
    var mem1, mem2 := new word[memBytes / 8](_ => 0), new word[memBytes / 8](_ => 0);
    var next := Fill(seed, regs1, regs2, seed, 0);
    next := Fill(next, mem1, mem2, seed, nregs);
    assert State(regs1[..], mem1[..]) == InitialState(seed, nregs, memBytes / 8);
    RunPass(pass1, iters, regs1, mem1);
    RunPass(pass2, iters, regs2, mem2);
    var s1, c1 := SignatureOf(regs1, mem1);
    var s2, c2 := SignatureOf(regs2, mem2);
    ok := !(s1 != s2 || c1 != c2);
  }

  // ---- The CRC workload kernel ---------------------------------------------------------

  function Repeat(s: seq<bv8>, n: nat): seq<bv8> {
    if n == 0 then [] else Repeat(s, n - 1) + s
  }

  /** The register values after each round, summed in 64 bits. */
  function Total(after: seq<bv32>): bv64 {
    if after == [] then 0 else Add(Total(after[..|after| - 1]), after[|after| - 1])
  }

  function Add(sum: bv64, crc: bv32): bv64 {
    sum + (crc as bv64)
  }

  const FNV_OFFSET: bv64 := 0xcbf29ce484222325

  /** Each round adds its register to the sum, widened to 64 bits. */
  lemma TotalNext(a: seq<bv32>, x: bv32)
    ensures Total([]) == 0 && Total(a + [x]) == Add(Total(a), x)
    ensures Add(0, x) == x as bv64
  {
    hide Add;
    assert (a + [x])[..|a|] == a;
    AddNothing(x);
  }

  lemma AddNothing(x: bv32)
    ensures Add(0, x) == x as bv64
  {
  }

  /** The kernel's closing step: one round of the 64-bit FNV mix. */
  function FnvMix(cs: bv64, sum: bv64): bv64 {
    (cs ^ sum) * 0x100000001b3
  }

  /** The published FNV-1a value of the one-letter text "a" fixes offset and prime. */
  lemma FnvValue()
    ensures FnvMix(FNV_OFFSET, 0x61) == 0xaf63dc4c8601ec8c
  {
  }

  /**
   * The kernel: round r ends with the CRC register of the buffer written r times, the registers
   * are summed, and the sum is mixed into the checksum it prints.
   */
  method KernelRounds(buf: array<bv8>, rounds: nat) returns (after: seq<bv32>, cs: bv64)
    ensures |after| == rounds
    ensures forall r :: 0 <= r < rounds ==> after[r] == Feed(0xFFFFFFFF, Repeat(buf[..], r + 1))
    ensures cs == FnvMix(FNV_OFFSET, Total(after))
  {
    hide Feed, Add, FnvMix;
    var crc := 0xFFFFFFFF;
    after := [];
    var sum: bv64 := 0;
    FeedUnfold(0xFFFFFFFF, 0, []);
    for r := 0 to rounds
      invariant |after| == r && crc == Feed(0xFFFFFFFF, Repeat(buf[..], r)) && sum == Total(after)
      invariant forall j :: 0 <= j < r ==> after[j] == Feed(0xFFFFFFFF, Repeat(buf[..], j + 1))
    {
      FeedConcat(0xFFFFFFFF, Repeat(buf[..], r), buf[..]);
      crc := CrcSimple(crc, buf, buf.Length);
      assert buf[..buf.Length] == buf[..];
      ghost var before := after;
      after := after + [crc];
      assert after[..|after| - 1] == before;
      sum := Add(sum, crc);
    }
    cs := FnvMix(FNV_OFFSET, sum);
  }
}
