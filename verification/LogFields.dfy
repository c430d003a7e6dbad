/** The fields of every reported event, read off the log lines themselves. */
module LogFields {
  import opened Options
  import opened LogParse
  import LogOrder

  /** The lines of an event: its start and the WARNINGs merged into it, or the context below them. */
  datatype Part = Headers | Context | Both

  /** A line that matches none of the four event patterns. */
  predicate Plain(l: Line) {
    !l.spurious && !l.warning && !l.oops && !l.edac
  }

  /** An event started at line i is still open at line m: no start and no end marker between them. */
  ghost predicate StillOpen(log: seq<Line>, i: nat, m: nat)
    requires i < m <= |log|
  {
    forall k :: i < k < m ==> !IsStart(log, k) && !(Plain(log[k]) && log[k].endTrace && !log[k].callTrace)
  }

  lemma StillOpenIff(log: seq<Line>, i: nat, m: nat)
    requires i < m <= |log|
    ensures StillOpen(log, i, m) <==> OpenAt(log, i, m)
  {
    hide IsStart;
  }

  /** Line m belongs to the given part of the event started at line i. */
  ghost predicate Of(log: seq<Line>, i: nat, m: nat, part: Part)
    requires i <= m < |log|
  {
    var header := m == i || (log[m].warning && !log[m].spurious);
    var context := m > i && Plain(log[m]);
    && (m > i ==> StillOpen(log, i, m) && !IsStart(log, m))
    && match part
       case Headers => header
       case Context => context
       case Both => header || context
  }

  /** v is the value on the last line of that part that carries one, and None if none does. */
  ghost predicate IsLast<T>(log: seq<Line>, i: nat, n: nat, part: Part, get: Line -> Option<T>, v: Option<T>)
    requires i < n <= |log|
  {
    if v.None? then forall m :: i <= m < n && Of(log, i, m, part) ==> get(log[m]).None?
    else exists m :: Carries(log, i, m, n, part, get, v)
  }

  ghost predicate Carries<T>(log: seq<Line>, i: nat, m: int, n: nat, part: Part, get: Line -> Option<T>, v: Option<T>)
    requires i < n <= |log|
  {
    && i <= m < n && Of(log, i, m, part) && get(log[m]) == v
    && forall k :: m < k < n && Of(log, i, k, part) ==> get(log[k]).None?
  }

  /** v is the value on the first line of that part that carries one, and None if none does. */
  ghost predicate IsFirst<T>(log: seq<Line>, i: nat, n: nat, part: Part, get: Line -> Option<T>, v: Option<T>)
    requires i < n <= |log|
  {
    if v.None? then forall m :: i <= m < n && Of(log, i, m, part) ==> get(log[m]).None?
    else exists m ::
        && i <= m < n && Of(log, i, m, part) && get(log[m]) == v
        && forall k :: i <= k < m && Of(log, i, k, part) ==> get(log[k]).None?
  }

  function Register(l: Line, r: string): Option<string> {
    if l.registerDump && r in l.registers then Some(l.registers[r]) else None
  }

  function Lookup(regs: map<string, string>, r: string): Option<string> {
    if r in regs then Some(regs[r]) else None
  }

  function NamedComm(l: Line): Option<string> {
    if l.pid.None? then None else l.comm
  }

  /** A context line before line n of the event announced a call trace. */
  ghost predicate InTrace(log: seq<Line>, i: nat, n: nat)
    requires i < n <= |log|
  {
    exists m :: i <= m < n && Of(log, i, m, Context) && log[m].callTrace
  }

  /** The frames of the event's trace before line n, in line order. */
  ghost function Frames(log: seq<Line>, i: nat, n: nat): seq<string>
    requires i < n <= |log|
  {
    if n == i + 1 then []
    else if IsFrame(log, i, n - 1) then Frames(log, i, n - 1) + [log[n - 1].frame]
    else Frames(log, i, n - 1)
  }

  /** A context line below the event's call-trace line that carries a frame. */
  ghost predicate IsFrame(log: seq<Line>, i: nat, m: nat)
    requires i < m < |log|
  {
    Of(log, i, m, Context) && InTrace(log, i, m) && !log[m].callTrace && log[m].frame != ""
  }

  function FirstTwelve(s: seq<string>): seq<string> {
    if |s| <= 12 then s else s[..12]
  }

  // ---- What the event says, field by field -------------------------------------------------

  ghost predicate HeaderFields(log: seq<Line>, i: nat, n: nat, source: string, e: Event)
    requires i < n <= |log|
  {
    && e.ts == log[i].ts && e.raw == log[i].raw && e.source == source
    && IsLast(log, i, n, Both, (l: Line) => l.pid, e.pid)
    && IsLast(log, i, n, Both, NamedComm, e.comm)
  }

  ghost predicate CpuField(log: seq<Line>, i: nat, n: nat, e: Event)
    requires i < n <= |log|
  {
    exists c: Option<nat> ::
      && IsLast(log, i, n, Headers, (l: Line) => l.headerCpu, c)
      && if c.Some? then e.cpu == c else IsFirst(log, i, n, Context, (l: Line) => l.looseCpu, e.cpu)
  }

  ghost predicate ContextFields(log: seq<Line>, i: nat, n: nat, e: Event)
    requires i < n <= |log|
  {
    && IsLast(log, i, n, Context, (l: Line) => l.esr, e.esr)
    && IsLast(log, i, n, Context, (l: Line) => l.far, e.far)
    && IsLast(log, i, n, Context, (l: Line) => l.pc, e.pc)
    && IsLast(log, i, n, Context, (l: Line) => l.lr, e.lr)
    && forall r :: IsLast(log, i, n, Context, (l: Line) => Register(l, r), Lookup(e.registers, r))
  }

  ghost predicate TraceField(log: seq<Line>, i: nat, n: nat, e: Event)
    requires i < n <= |log|
  {
    && (e.inTrace <==> InTrace(log, i, n))
    && e.trace == FirstTwelve(Frames(log, i, n))
  }

  // ---- One line at a time ------------------------------------------------------------------

  lemma LastStep<T>(log: seq<Line>, i: nat, n: nat, part: Part, get: Line -> Option<T>, v: Option<T>, w: Option<T>)
    requires i < n < |log| && IsLast(log, i, n, part, get, v)
    requires w == if Of(log, i, n, part) then OrElse(get(log[n]), v) else v
    ensures IsLast(log, i, n + 1, part, get, w)
  {
    hide Of;
    if w.Some? {
      if Of(log, i, n, part) && get(log[n]).Some? {
        assert Carries(log, i, n, n + 1, part, get, w);
      } else {
        var m :| Carries(log, i, m, n, part, get, v);
        assert Carries(log, i, m, n + 1, part, get, w);
      }
    }
  }

  lemma LastStart<T>(log: seq<Line>, i: nat, part: Part, get: Line -> Option<T>, v: Option<T>)
    requires i < |log| && v == if part.Context? then None else get(log[i])
    ensures IsLast(log, i, i + 1, part, get, v)
  {
    if v.Some? {
      assert Carries(log, i, i, i + 1, part, get, v);
    }
  }

  lemma FirstStep<T>(log: seq<Line>, i: nat, n: nat, part: Part, get: Line -> Option<T>, v: Option<T>, w: Option<T>)
    requires i < n < |log| && IsFirst(log, i, n, part, get, v)
    requires w == if Of(log, i, n, part) && v.None? then get(log[n]) else v
    ensures IsFirst(log, i, n + 1, part, get, w)
  {
    hide Of;
  }

  /** The event after line n, when line n belongs to it and when it does not. */
  lemma LineAbsorbed(log: seq<Line>, i: nat, n: nat, source: string)
    requires i < n < |log|
    ensures var e := EventUpTo(log, i, n, source);
      EventUpTo(log, i, n + 1, source)
        == if Of(log, i, n, Headers) then Merged(e, log[n])
           else if Of(log, i, n, Context) then WithContext(e, log[n]) else e
    ensures Of(log, i, n, Both) <==> Of(log, i, n, Headers) || Of(log, i, n, Context)
    ensures !(Of(log, i, n, Headers) && Of(log, i, n, Context))
  {
    hide EventUpTo, OpenAt, StillOpen, SpuriousOpen, Merged, WithContext;
    EventStep(log, i, n, source);
    StillOpenIff(log, i, n);
  }

  lemma {:induction false} HeaderHolds(log: seq<Line>, i: nat, n: nat, source: string)
    requires i < n <= |log|
    ensures HeaderFields(log, i, n, source, EventUpTo(log, i, n, source))
    decreases n
  {
    hide IsLast, Of, EventUpTo;
    var pid := (l: Line) => l.pid;
    if n == i + 1 {
      Fresh(log, i, source);
      LastStart(log, i, Both, pid, log[i].pid);
      LastStart(log, i, Both, NamedComm, NamedComm(log[i]));
    } else {
      HeaderHolds(log, i, n - 1, source);
      LineAbsorbed(log, i, n - 1, source);
      var e, f := EventUpTo(log, i, n - 1, source), EventUpTo(log, i, n, source);
      LastStep(log, i, n - 1, Both, pid, e.pid, f.pid);
      LastStep(log, i, n - 1, Both, NamedComm, e.comm, f.comm);
    }
  }

  lemma Fresh(log: seq<Line>, i: nat, source: string)
    requires i < |log|
    ensures var e, l := EventUpTo(log, i, i + 1, source), log[i];
      && e.ts == l.ts && e.source == source && e.raw == l.raw && e.kind == KindOf(l)
      && e.cpu == l.headerCpu && e.pid == l.pid && e.comm == NamedComm(l)
      && e.esr == e.far == None && e.pc == e.lr == None
      && e.registers == map[] && !e.inTrace && e.trace == []
  {
  }

  lemma {:induction false} CpuHolds(log: seq<Line>, i: nat, n: nat, source: string) returns (c: Option<nat>)
    requires i < n <= |log|
    ensures var e := EventUpTo(log, i, n, source);
      && IsLast(log, i, n, Headers, (l: Line) => l.headerCpu, c)
      && if c.Some? then e.cpu == c else IsFirst(log, i, n, Context, (l: Line) => l.looseCpu, e.cpu)
    decreases n
  {
    hide IsLast, IsFirst, Of, EventUpTo;
    var header, loose := (l: Line) => l.headerCpu, (l: Line) => l.looseCpu;
    if n == i + 1 {
      Fresh(log, i, source);
      c := log[i].headerCpu;
      LastStart(log, i, Headers, header, c);
      FirstStart(log, i, loose);
    } else {
      var b := CpuHolds(log, i, n - 1, source);
      LineAbsorbed(log, i, n - 1, source);
      var e, f := EventUpTo(log, i, n - 1, source), EventUpTo(log, i, n, source);
      c := if Of(log, i, n - 1, Headers) then OrElse(log[n - 1].headerCpu, b) else b;
      LastStep(log, i, n - 1, Headers, header, b, c);
      if c.None? {
        FirstStep(log, i, n - 1, Context, loose, e.cpu, f.cpu);
      }
    }
  }

  lemma FirstStart(log: seq<Line>, i: nat, get: Line -> Option<nat>)
    requires i < |log|
    ensures IsFirst(log, i, i + 1, Context, get, None)
  {
  }

  lemma {:induction false} ContextHolds(log: seq<Line>, i: nat, n: nat, source: string)
    requires i < n <= |log|
    ensures var e := EventUpTo(log, i, n, source);
      && IsLast(log, i, n, Context, (l: Line) => l.esr, e.esr)
      && IsLast(log, i, n, Context, (l: Line) => l.far, e.far)
      && IsLast(log, i, n, Context, (l: Line) => l.pc, e.pc)
      && IsLast(log, i, n, Context, (l: Line) => l.lr, e.lr)
    decreases n
  {
    hide IsLast, Of, EventUpTo;
    var esr, far := (l: Line) => l.esr, (l: Line) => l.far;
    var pc, lr := (l: Line) => l.pc, (l: Line) => l.lr;
    if n == i + 1 {
      Fresh(log, i, source);
      LastStart(log, i, Context, esr, None);
      LastStart(log, i, Context, far, None);
      LastStart(log, i, Context, pc, None);
      LastStart(log, i, Context, lr, None);
    } else {
      ContextHolds(log, i, n - 1, source);
      LineAbsorbed(log, i, n - 1, source);
      var e, f := EventUpTo(log, i, n - 1, source), EventUpTo(log, i, n, source);
      LastStep(log, i, n - 1, Context, esr, e.esr, f.esr);
      LastStep(log, i, n - 1, Context, far, e.far, f.far);
      LastStep(log, i, n - 1, Context, pc, e.pc, f.pc);
      LastStep(log, i, n - 1, Context, lr, e.lr, f.lr);
    }
  }

  lemma {:induction false} RegistersHold(log: seq<Line>, i: nat, n: nat, source: string, r: string)
    requires i < n <= |log|
    ensures IsLast(log, i, n, Context, (l: Line) => Register(l, r), Lookup(EventUpTo(log, i, n, source).registers, r))
    decreases n
  {
    hide IsLast, Of, EventUpTo;
    var get := (l: Line) => Register(l, r);
    if n == i + 1 {
      Fresh(log, i, source);
      LastStart(log, i, Context, get, None);
    } else {
      RegistersHold(log, i, n - 1, source, r);
      LineAbsorbed(log, i, n - 1, source);
      var e, f := EventUpTo(log, i, n - 1, source), EventUpTo(log, i, n, source);
      LastStep(log, i, n - 1, Context, get, Lookup(e.registers, r), Lookup(f.registers, r));
    }
  }

  lemma InTraceStep(log: seq<Line>, i: nat, n: nat)
    requires i < n < |log|
    ensures InTrace(log, i, n + 1) <==> InTrace(log, i, n) || (Of(log, i, n, Context) && log[n].callTrace)
  {
    hide Of;
    if InTrace(log, i, n) {
      var m :| i <= m < n && Of(log, i, m, Context) && log[m].callTrace;
      assert Of(log, i, m, Context);
    }
  }

  lemma {:induction false} TraceHolds(log: seq<Line>, i: nat, n: nat, source: string)
    requires i < n <= |log|
    ensures TraceField(log, i, n, EventUpTo(log, i, n, source))
    decreases n
  {
    hide Of, EventUpTo, InTrace;
    if n == i + 1 {
      Fresh(log, i, source);
      NoTraceYet(log, i);
    } else {
      TraceHolds(log, i, n - 1, source);
      LineAbsorbed(log, i, n - 1, source);
      InTraceStep(log, i, n - 1);
    }
  }

  lemma NoTraceYet(log: seq<Line>, i: nat)
    requires i < |log|
    ensures !InTrace(log, i, i + 1)
  {
  }

  // ---- The reported events -----------------------------------------------------------------

  /**
   * Every reported anomaly, field by field: the kind, time stamp and text of its starting
   * line; the PID and process last named; the core named last by a header line, and failing
   * that first by a context line; ESR, FAR, pc, lr and every register as last printed before
   * it closed; and the first twelve frames below a call-trace line.
   */
  lemma ReportedFields(log: seq<Line>, source: string, j: nat)
    requires j < |Starts(log, |log|)|
    ensures |Anomalies(ParseResult(log, source))| == |Starts(log, |log|)|
    ensures var e, i := Anomalies(ParseResult(log, source))[j], Starts(log, |log|)[j];
      && e.kind == (if log[i].spurious then Spurious else if log[i].warning then Warning else Oops)
      && HeaderFields(log, i, |log|, source, e) && CpuField(log, i, |log|, e)
      && ContextFields(log, i, |log|, e) && TraceField(log, i, |log|, e)
  {
    hide EventUpTo, HeaderFields, TraceField, IsLast, IsFirst, ParseResult, Anomalies, Starts;
    OneEventPerStart(log, source);
    var i := Starts(log, |log|)[j];
    LogOrder.KindKept(log, i, |log|, source);
    HeaderHolds(log, i, |log|, source);
    var c := CpuHolds(log, i, |log|, source);
    ContextHolds(log, i, |log|, source);
    forall r
      ensures IsLast(log, i, |log|, Context, (l: Line) => Register(l, r),
                     Lookup(EventUpTo(log, i, |log|, source).registers, r))
    {
      RegistersHold(log, i, |log|, source, r);
    }
    TraceHolds(log, i, |log|, source);
  }

  /** Which lines start an event, by what the patterns found in them. */
  lemma StartIff(log: seq<Line>, n: nat)
    requires n < |log|
    ensures IsStart(log, n) <==>
      || log[n].spurious
      || (log[n].warning && !SpuriousOpen(log, n))
      || (log[n].oops && !log[n].warning)
  {
    hide SpuriousOpen;
  }

  /**
   * A line yields an EDAC event exactly when it matches the EDAC or RAS patterns and none of
   * the others; the event has the line's time stamp, at most 200 characters of it, and no context.
   */
  lemma EdacFields(l: Line, source: string)
    ensures |EdacOf(l, source)| == if l.edac && !l.spurious && !l.warning && !l.oops then 1 else 0
    ensures EdacOf(l, source) != [] ==>
      var e := EdacOf(l, source)[0];
      && e.kind == EdacRas && e.ts == l.ts && e.source == source
      && e.raw <= l.raw && |e.raw| == (if |l.raw| < 200 then |l.raw| else 200)
      && e.cpu == e.pid == e.esr == e.far == None && e.comm == e.pc == e.lr == None
      && e.registers == map[] && e.trace == []
  {
  }
}
