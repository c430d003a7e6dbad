/** What every run of the memory injector leaves in every bit of memory, read off the steps alone. */
module MemBits {
  import opened Options
  import opened ByteWindow
  import opened Bits
  import opened Injection
  import opened MemSpec
  import opened MemStuck

  /** The address an attack aims at: the drawn one, with the redirection mask's bits toggled. */
  predicate AimsAt(c: Config, d: Draws, a: nat)
    requires d.addr < 0x1_0000_0000_0000_0000
  {
    match c.redirect
    case None => a == d.addr
    case Some(m) => a == Redirected(d.addr, m)
  }

  /** SECDED undoes a fault of exactly one bit; the faulty ECC logic undoes none. */
  predicate Undone(c: Config, mask: bv8) {
    c.protection == Secded && BitsIn(mask) == 1
  }

  lemma AimsIff(c: Config, d: Draws, a: nat)
    requires d.addr < 0x1_0000_0000_0000_0000
    ensures AimsAt(c, d, a) <==> a == Target(c, d)
  {
    hide Redirected;
  }

  lemma WordBack(v: bv64)
    ensures (v as nat) < 0x1_0000_0000_0000_0000 && (v as nat) as bv64 == v
  {
  }

  lemma XorBack(a: bv64, m: bv64)
    ensures (a ^ m) ^ a == m
  {
  }

  lemma RedirectUnfold(a: nat, m: bv64)
    requires a < 0x1_0000_0000_0000_0000
    ensures Redirected(a, m) == ((a as bv64) ^ m) as nat
  {
  }

  /** A redirected address differs from the drawn one in exactly the bits of the mask. */
  lemma RedirectedBits(a: nat, m: bv64)
    requires a < 0x1_0000_0000_0000_0000
    ensures Redirected(a, m) < 0x1_0000_0000_0000_0000
    ensures (Redirected(a, m) as bv64) ^ (a as bv64) == m
  {
    hide Redirected;
    RedirectUnfold(a, m);
    WordBack((a as bv64) ^ m);
    XorBack(a as bv64, m);
  }

  /** The bits of a byte under a mask, and those beside it. */
  function Under(b: bv8, mask: bv8): bv8 {
    b & mask
  }

  function Beside(b: bv8, mask: bv8): bv8 {
    b & !mask
  }

  /** A byte after a fault, in terms of its mask: the bits under it and the bits beside it. */
  predicate Effect(f: Fault, before: bv8, after: bv8, mask: bv8) {
    match f
    case BitFlip => after ^ before == mask
    case StuckAtZero => Under(after, mask) == 0 && Beside(after, mask) == Beside(before, mask)
    case StuckAtOne => Under(after, mask) == mask && Beside(after, mask) == Beside(before, mask)
  }

  lemma FlipEffect(b: bv8, m: bv8, r: bv8)
    requires r == b ^ m
    ensures Effect(BitFlip, b, r, m)
  {
  }

  lemma ZeroEffect(b: bv8, m: bv8, r: bv8)
    requires r == b & !m
    ensures Under(r, m) == 0 && Beside(r, m) == Beside(b, m)
  {
  }

  lemma OneUnder(b: bv8, m: bv8, r: bv8)
    requires r == b | m
    ensures Under(r, m) == m
  {
  }

  lemma OneBeside(b: bv8, m: bv8, r: bv8)
    requires r == b | m
    ensures Beside(r, m) == Beside(b, m)
  {
  }

  lemma ByteEffect(f: Fault, b: bv8, m: bv8)
    ensures Effect(f, b, ApplyByte(f, b, m), m)
  {
    hide ApplyByte, Under, Beside;
    ByteUnfold(b, m);
    match f
    case BitFlip => FlipEffect(b, m, ApplyByte(f, b, m));
    case StuckAtZero => ZeroEffect(b, m, ApplyByte(f, b, m));
    case StuckAtOne =>
      OneUnder(b, m, ApplyByte(f, b, m));
      OneBeside(b, m, ApplyByte(f, b, m));
  }

  lemma UndoneIff(c: Config, mask: bv8)
    ensures Undone(c, mask) <==> Corrects(c.protection, mask)
  {
    hide PopCount, BitsIn;
    ByteCount(mask);
  }

  /**
   * One attack, exactly: the byte aimed at becomes the faulty one unless the fault is undone,
   * and every other byte keeps its value.
   */
  lemma AttackByte(c: Config, s: State, d: Draws, i: nat)
    requires Legal(c) && |s.mem| == c.memSize && s.attackAt.Some? && DrawsOk(c, d) && i < c.memSize
    ensures var r := AttackOnce(c, s, d);
      && |r.mem| == c.memSize
      && if AimsAt(c, d, c.memStart + i) && !Undone(c, d.mask) then Effect(d.fault, s.mem[i], r.mem[i], d.mask)
         else r.mem[i] == s.mem[i]
  {
    hide ApplyByte, Target, Corrects, Booked, Interval, BitsIn, Undone, Effect, AimsAt;
    AimsIff(c, d, c.memStart + i);
    UndoneIff(c, d.mask);
    ByteEffect(d.fault, s.mem[i], d.mask);
  }

  // ---- Whole runs --------------------------------------------------------------------------

  /** An attack whose fault reaches bit j of the byte at address a. */
  predicate Reaches(c: Config, step: Step, a: nat, j: nat) {
    && step.Attack? && DrawsOk(c, step.draws) && Legal(c) && InMemory(c, a)
    && AimsAt(c, step.draws, a) && ByteBit(step.draws.mask, j) && !Undone(c, step.draws.mask)
  }

  /** The value step k gives bit j of address a whatever it was before, if it gives one. */
  function Assigned(c: Config, steps: seq<Step>, k: nat, a: nat, j: nat): Option<bool>
    requires k < |steps|
  {
    match steps[k]
    case Write(at, v) => if at == a then Some(ByteBit(v, j)) else None
    case Attack(d) => if Reaches(c, steps[k], a, j) && d.fault != BitFlip then Some(d.fault == StuckAtOne) else None
    case Check =>
      var s := Latest(c, steps[..k], a);
      if s.Some? && ByteBit(s.value.mask, j) then Some(s.value.fault == StuckAtOne) else None
  }

  /** The steps from k on that flip bit j of address a. */
  function Flips(c: Config, steps: seq<Step>, k: nat, a: nat, j: nat): set<nat> {
    set m: nat | k <= m < |steps| && Reaches(c, steps[m], a, j) && steps[m].draws.fault == BitFlip
  }

  /** No step from k on assigns the bit. */
  predicate Unassigned(c: Config, steps: seq<Step>, k: nat, a: nat, j: nat) {
    forall m: nat :: k <= m < |steps| ==> Assigned(c, steps, m, a, j).None?
  }

  predicate Toggled(bit: bool, times: nat) {
    if times % 2 == 1 then !bit else bit
  }

  lemma StepBit(c: Config, states: seq<State>, steps: seq<Step>, a: nat, j: nat)
    requires IsRun(c, states, steps) && steps != [] && InMemory(c, a)
    ensures |states| == |steps| + 1 && |states[|steps|].mem| == |states[|steps| - 1].mem| == c.memSize
    ensures var n, i := |steps| - 1, a - c.memStart;
      ByteBit(states[n + 1].mem[i], j)
        == match Assigned(c, steps, n, a, j)
           case Some(v) => v
           case None => ByteBit(states[n].mem[i], j) != (n in Flips(c, steps, n, a, j))
  {
    hide IsRun, ByteBit, Latest, Reapply, ApplyByte, Stored, Reaches, Next;
    var n: nat, i: nat := |steps| - 1, a - c.memStart;
    RunStep(c, states, steps);
    RunInvariant(c, states, steps);
    var s := states[n];
    match steps[n]
    case Write(at, v) =>
      WriteByte(c, s, at, v, i);
      NotAttack(c, steps[n], a, j);
    case Attack(d) =>
      AttackBit(c, s, d, i, j);
    case Check =>
      NotAttack(c, steps[n], a, j);
      CheckRestores(c, states, steps, a);
      LatestBefore(c, steps, a);
      LatestStuck(c, steps, a);
      var latest := Latest(c, steps, a);
      if latest.Some? {
        ByteStruck(latest.value.fault, s.mem[i], latest.value.mask, j);
      }
  }

  lemma WriteByte(c: Config, s: State, at: nat, v: bv8, i: nat)
    requires |s.mem| == c.memSize && InMemory(c, at) && i < c.memSize
    ensures Next(c, s, Write(at, v)).mem[i] == if at == c.memStart + i then v else s.mem[i]
  {
  }

  lemma NotAttack(c: Config, step: Step, a: nat, j: nat)
    ensures !step.Attack? ==> !Reaches(c, step, a, j)
  {
  }

  lemma AttackBit(c: Config, s: State, d: Draws, i: nat, j: nat)
    requires |s.mem| == c.memSize && Enabled(c, s, Attack(d)) && i < c.memSize
    ensures ByteBit(Next(c, s, Attack(d)).mem[i], j)
         == Faulty(d.fault, ByteBit(s.mem[i], j), Reaches(c, Attack(d), c.memStart + i, j))
  {
    hide ByteBit, ApplyByte, Target, Corrects, Booked, Interval, Undone, AimsAt;
    AimsIff(c, d, c.memStart + i);
    UndoneIff(c, d.mask);
    ByteStruck(d.fault, s.mem[i], d.mask, j);
  }

  /** A check records nothing. */
  lemma LatestBefore(c: Config, steps: seq<Step>, a: nat)
    requires steps != [] && steps[|steps| - 1] == Check
    ensures Latest(c, steps, a) == Latest(c, steps[..|steps| - 1], a)
  {
  }

  lemma {:induction false} LatestStuck(c: Config, steps: seq<Step>, a: nat)
    ensures Latest(c, steps, a).Some? ==> Latest(c, steps, a).value.fault != BitFlip
  {
    if steps != [] {
      LatestStuck(c, steps[..|steps| - 1], a);
    }
  }

  lemma AssignedPrefix(c: Config, steps: seq<Step>, n: nat, k: nat, a: nat, j: nat)
    requires k < n <= |steps|
    ensures Assigned(c, steps[..n], k, a, j) == Assigned(c, steps, k, a, j)
  {
    hide Reaches, Latest, ByteBit;
    assert steps[..n][..k] == steps[..k];
  }

  lemma FlipsStep(c: Config, steps: seq<Step>, k: nat, a: nat, j: nat)
    requires k < |steps|
    ensures var n := |steps| - 1;
      |Flips(c, steps, k, a, j)|
        == |Flips(c, steps[..n], k, a, j)| + if n in Flips(c, steps, n, a, j) then 1 else 0
  {
    hide Reaches;
    var n := |steps| - 1;
    assert Flips(c, steps, k, a, j)
        == Flips(c, steps[..n], k, a, j) + if n in Flips(c, steps, n, a, j) then {n} else {};
  }

  /** From step k on nothing assigns the bit: it is what it was, toggled by each flip that reaches it. */
  lemma {:induction false} BitSince(c: Config, states: seq<State>, steps: seq<Step>, k: nat, a: nat, j: nat)
    requires IsRun(c, states, steps) && k <= |steps| && InMemory(c, a) && Unassigned(c, steps, k, a, j)
    ensures |states| == |steps| + 1 && |states[k].mem| == |states[|steps|].mem| == c.memSize
    ensures var i := a - c.memStart;
      ByteBit(states[|steps|].mem[i], j) == Toggled(ByteBit(states[k].mem[i], j), |Flips(c, steps, k, a, j)|)
    decreases |steps|
  {
    hide IsRun, ByteBit, Assigned, Flips;
    RunInvariant(c, states, steps);
    if k == |steps| {
      NoFlips(c, steps, a, j);
    } else {
      var n: nat := |steps| - 1;
      RunStep(c, states, steps);
      forall m: nat | k <= m < n ensures Assigned(c, steps[..n], m, a, j).None? {
        AssignedPrefix(c, steps, n, m, a, j);
      }
      BitSince(c, states[..n + 1], steps[..n], k, a, j);
      StepBit(c, states, steps, a, j);
      FlipsStep(c, steps, k, a, j);
    }
  }

  lemma NoFlips(c: Config, steps: seq<Step>, a: nat, j: nat)
    ensures |Flips(c, steps, |steps|, a, j)| == 0
  {
    assert Flips(c, steps, |steps|, a, j) == {};
  }

  /**
   * Every bit of memory after every run: the value of the last step that assigned it, a program
   * write, a stuck-at fault or the re-application of the latest one recorded, toggled once for
   * each later flip that reaches it.
   */
  lemma BitAfterRun(c: Config, states: seq<State>, steps: seq<Step>, k: nat, a: nat, j: nat)
    requires IsRun(c, states, steps) && k < |steps| && InMemory(c, a)
    requires Assigned(c, steps, k, a, j).Some? && Unassigned(c, steps, k + 1, a, j)
    ensures |states| == |steps| + 1 && |states[|steps|].mem| == c.memSize
    ensures ByteBit(states[|steps|].mem[a - c.memStart], j)
         == Toggled(Assigned(c, steps, k, a, j).value, |Flips(c, steps, k + 1, a, j)|)
  {
    hide IsRun, ByteBit, Flips;
    BitSince(c, states, steps, k + 1, a, j);
    RunPrefix(c, states, steps, k + 1);
    StepBit(c, states[..k + 2], steps[..k + 1], a, j);
    AssignedPrefix(c, steps, k + 1, k, a, j);
  }
}
