/**
 * The kernel-log event machine.  Each log line arrives classified: the record of what
 * the regular expressions found in it.  One event may be pending at a time.
 */
module LogParse {

  import opened Options

  /** What the patterns found in one line, after its timestamp was split off. */
  datatype Line = Line(
    ts: Option<string>, raw: string,
    spurious: bool, warning: bool, oops: bool, edac: bool,
    headerCpu: Option<nat>,            // CPU by the WARNING pattern, else by the loose one
    looseCpu: Option<nat>,             // CPU by the loose pattern alone
    pid: Option<nat>, comm: Option<string>,
    esr: Option<nat>, far: Option<nat>, pc: Option<string>, lr: Option<string>,
    registerDump: bool, registers: map<string, string>,
    callTrace: bool, frame: string, endTrace: bool)

  datatype Kind = Spurious | Warning | Oops | EdacRas

  datatype Event = Event(
    kind: Kind, ts: Option<string>, source: string, raw: string,
    cpu: Option<nat>, pid: Option<nat>, comm: Option<string>,
    esr: Option<nat>, far: Option<nat>, pc: Option<string>, lr: Option<string>,
    registers: map<string, string>, inTrace: bool, trace: seq<string>)

  /** The role of a line, by the order in which the code tests for it. */
  datatype Role = SpuriousLine | WarningLine | OopsLine | EdacLine | ContextLine

  function RoleOf(l: Line): Role {
    if l.spurious then SpuriousLine
    else if l.warning then WarningLine
    else if l.oops then OopsLine
    else if l.edac then EdacLine
    else ContextLine
  }

  function OrElse<T>(a: Option<T>, b: Option<T>): Option<T> {
    if a.Some? then a else b
  }

  /** The process name counts only on a line that also names a PID. */
  function CommOf(l: Line): Option<string> {
    if l.pid.Some? then l.comm else None
  }

  function Started(kind: Kind, l: Line, source: string): Event {
    Event(kind, l.ts, source, l.raw, l.headerCpu, l.pid, CommOf(l), None, None, None, None, map[], false, [])
  }

  /** A WARNING line that belongs to the pending spurious-fault event. */
  function Merged(e: Event, l: Line): Event {
    e.(cpu := OrElse(l.headerCpu, e.cpu), pid := OrElse(l.pid, e.pid), comm := OrElse(CommOf(l), e.comm))
  }

  const TRACE_LIMIT := 12

  /** A context line for the pending event. */
  function WithContext(e: Event, l: Line): Event {
    var f := e.(
      esr := OrElse(l.esr, e.esr), far := OrElse(l.far, e.far), pc := OrElse(l.pc, e.pc), lr := OrElse(l.lr, e.lr),
      cpu := OrElse(e.cpu, l.looseCpu), pid := OrElse(l.pid, e.pid), comm := OrElse(CommOf(l), e.comm),
      registers := if l.registerDump then e.registers + l.registers else e.registers);
    if l.callTrace then f.(inTrace := true)
    else if f.inTrace && l.frame != "" && |f.trace| < TRACE_LIMIT then f.(trace := f.trace + [l.frame])
    else f
  }

  /** An end-of-trace marker counts only on a context line that does not itself open a trace. */
  predicate EndsTrace(l: Line) {
    RoleOf(l) == ContextLine && !l.callTrace && l.endTrace
  }

  function EdacEvent(l: Line, source: string): Event {
    Event(EdacRas, l.ts, source, if |l.raw| > 200 then l.raw[..200] else l.raw,
          None, None, None, None, None, None, None, map[], false, [])
  }

  // ---- The machine ----------------------------------------------------------------------

  datatype Parser = Parser(events: seq<Event>, pending: Option<Event>)

  function Flush(p: Parser): Parser {
    if p.pending.Some? then Parser(p.events + [p.pending.value], None) else p
  }

  predicate MergesInto(p: Parser) {
    p.pending.Some? && p.pending.value.kind == Spurious
  }

  function Step(p: Parser, l: Line, source: string): Parser {
    match RoleOf(l)
    case SpuriousLine => Flush(p).(pending := Some(Started(Spurious, l, source)))
    case WarningLine =>
      if MergesInto(p) then p.(pending := Some(Merged(p.pending.value, l)))
      else Flush(p).(pending := Some(Started(Warning, l, source)))
    case OopsLine => Flush(p).(pending := Some(Started(Oops, l, source)))
    case EdacLine => p.(events := p.events + [EdacEvent(l, source)])
    case ContextLine =>
      if p.pending.None? then p
      else
        var q := p.(pending := Some(WithContext(p.pending.value, l)));
        if EndsTrace(l) then Flush(q) else q
  }

  function Run(log: seq<Line>, n: nat, source: string): Parser
    requires n <= |log|
  {
    if n == 0 then Parser([], None) else Step(Run(log, n - 1, source), log[n - 1], source)
  }

  function ParseResult(log: seq<Line>, source: string): seq<Event> {
    Flush(Run(log, |log|, source)).events
  }

  /** The parsing loop. */
  method Parse(log: seq<Line>, source: string) returns (events: seq<Event>)
    ensures events == ParseResult(log, source)
  {
    events := [];
    var cur: Option<Event> := None;
    for n := 0 to |log|
      invariant Parser(events, cur) == Run(log, n, source)
    {
      var l := log[n];
      if l.spurious {
        if cur.Some? { events := events + [cur.value]; }
        cur := Some(Started(Spurious, l, source));
      } else if l.warning {
        if cur.Some? && cur.value.kind == Spurious {
          cur := Some(Merged(cur.value, l));
        } else {
          if cur.Some? { events := events + [cur.value]; }
          cur := Some(Started(Warning, l, source));
        }
      } else if l.oops {
        if cur.Some? { events := events + [cur.value]; }
        cur := Some(Started(Oops, l, source));
      } else if l.edac {
        events := events + [EdacEvent(l, source)];
      } else if cur.Some? {
        cur := Some(WithContext(cur.value, l));
        if !l.callTrace && l.endTrace {
          events := events + [cur.value];
          cur := None;
        }
      }
    }
    if cur.Some? { events := events + [cur.value]; }
  }

  // ---- What the result means, line by line -----------------------------------------------

  /** A spurious-fault line is still open just before line n. */
  ghost predicate SpuriousOpen(log: seq<Line>, n: nat)
    requires n <= |log|
  {
    exists i :: 0 <= i < n && SpuriousSince(log, i, n)
  }

  predicate SpuriousSince(log: seq<Line>, i: nat, n: nat)
    requires i < n <= |log|
  {
    && log[i].spurious
    && forall m :: i < m < n ==> RoleOf(log[m]) != SpuriousLine && RoleOf(log[m]) != OopsLine && !EndsTrace(log[m])
  }

  /** The lines that start an event: every one but the WARNINGs merged into an open spurious fault. */
  ghost predicate IsStart(log: seq<Line>, n: nat)
    requires n < |log|
  {
    match RoleOf(log[n])
    case SpuriousLine => true
    case OopsLine => true
    case WarningLine => !SpuriousOpen(log, n)
    case _ => false
  }

  function KindOf(l: Line): Kind {
    match RoleOf(l)
    case SpuriousLine => Spurious
    case WarningLine => Warning
    case OopsLine => Oops
    case _ => EdacRas
  }

  /** Neither a starting line nor an end marker lies between line i and line n. */
  ghost predicate OpenAt(log: seq<Line>, i: nat, n: nat)
    requires i < n <= |log|
  {
    forall m :: i < m < n ==> !IsStart(log, m) && !EndsTrace(log[m])
  }

  function Absorb(e: Event, l: Line): Event {
    match RoleOf(l)
    case WarningLine => Merged(e, l)
    case ContextLine => WithContext(e, l)
    case _ => e
  }

  /** The event started at line i, as known after the first n lines. */
  ghost function EventUpTo(log: seq<Line>, i: nat, n: nat, source: string): Event
    requires i < n <= |log|
  {
    if n == i + 1 then Started(KindOf(log[i]), log[i], source)
    else
      var e := EventUpTo(log, i, n - 1, source);
      if OpenAt(log, i, n - 1) && !IsStart(log, n - 1) then Absorb(e, log[n - 1]) else e
  }

  ghost function Starts(log: seq<Line>, n: nat): (s: seq<nat>)
    requires n <= |log|
    ensures forall j :: 0 <= j < |s| ==> s[j] < n && IsStart(log, s[j])
    ensures forall j, k :: 0 <= j < k < |s| ==> s[j] < s[k]
    ensures forall i: nat :: i < n && IsStart(log, i) ==> i in s
  {
    if n == 0 then [] else Starts(log, n - 1) + (if IsStart(log, n - 1) then [n - 1] else [])
  }

  /** One event per starting line, in line order. */
  ghost function EventsByLine(log: seq<Line>, n: nat, source: string): (r: seq<Event>)
    requires n <= |log|
    ensures |r| == |Starts(log, n)|
    ensures forall j :: 0 <= j < |r| ==> r[j] == EventUpTo(log, Starts(log, n)[j], n, source)
  {
    var s := Starts(log, n);
    seq(|s|, j requires 0 <= j < |s| => EventUpTo(log, s[j], n, source))
  }

  function Anomalies(events: seq<Event>): seq<Event> {
    if events == [] then []
    else
      var n := |events| - 1;
      Anomalies(events[..n]) + (if events[n].kind != EdacRas then [events[n]] else [])
  }

  function EdacLines(events: seq<Event>): seq<Event> {
    if events == [] then []
    else
      var n := |events| - 1;
      EdacLines(events[..n]) + (if events[n].kind == EdacRas then [events[n]] else [])
  }

  lemma AppendOne(events: seq<Event>, e: Event)
    ensures Anomalies(events + [e]) == Anomalies(events) + (if e.kind != EdacRas then [e] else [])
    ensures EdacLines(events + [e]) == EdacLines(events) + (if e.kind == EdacRas then [e] else [])
  {
    assert (events + [e])[..|events|] == events;
  }

  // ---- The proof -----------------------------------------------------------------------------

  lemma SpuriousOpenStep(log: seq<Line>, n: nat)
    requires n < |log|
    ensures SpuriousOpen(log, n + 1) <==>
      (RoleOf(log[n]) == SpuriousLine ||
       (SpuriousOpen(log, n) && RoleOf(log[n]) != OopsLine && !EndsTrace(log[n])))
  {
    if RoleOf(log[n]) == SpuriousLine {
      assert SpuriousSince(log, n, n + 1);
    } else if SpuriousOpen(log, n) && RoleOf(log[n]) != OopsLine && !EndsTrace(log[n]) {
      var i :| 0 <= i < n && SpuriousSince(log, i, n);
      assert SpuriousSince(log, i, n + 1);
    }
    if SpuriousOpen(log, n + 1) && RoleOf(log[n]) != SpuriousLine {
      var i :| 0 <= i < n + 1 && SpuriousSince(log, i, n + 1);
      assert SpuriousSince(log, i, n);
    }
  }

  lemma OpenAtStep(log: seq<Line>, i: nat, n: nat)
    requires i < n < |log|
    ensures OpenAt(log, i, n + 1) <==> OpenAt(log, i, n) && !IsStart(log, n) && !EndsTrace(log[n])
  {
  }

  /** What the machine holds after n lines, in terms of the lines themselves. */
  ghost predicate Holds(log: seq<Line>, n: nat, source: string, p: Parser)
    requires n <= |log|
  {
    var s, r := Starts(log, n), EventsByLine(log, n, source);
    && Anomalies(p.events) + (if p.pending.Some? then [p.pending.value] else []) == r
    && (p.pending.Some? ==> p.pending.value.kind != EdacRas)
    && (p.pending.Some? <==> |s| > 0 && OpenAt(log, s[|s| - 1], n))
    && (MergesInto(p) <==> SpuriousOpen(log, n))
  }

  lemma OnlyLastOpen(log: seq<Line>, n: nat, j: nat)
    requires n <= |log| && j + 1 < |Starts(log, n)|
    ensures !OpenAt(log, Starts(log, n)[j], n)
  {
    assert IsStart(log, Starts(log, n)[j + 1]);
  }

  lemma StartsStep(log: seq<Line>, n: nat)
    requires n < |log|
    ensures Starts(log, n + 1) == Starts(log, n) + (if IsStart(log, n) then [n] else [])
  {
  }

  lemma EventStep(log: seq<Line>, i: nat, n: nat, source: string)
    requires i < n < |log|
    ensures EventUpTo(log, i, n + 1, source)
         == if OpenAt(log, i, n) && !IsStart(log, n) then Absorb(EventUpTo(log, i, n, source), log[n])
            else EventUpTo(log, i, n, source)
  {
    hide Absorb, OpenAt, IsStart, Started;
  }

  /** A starting line adds its event and leaves the earlier ones alone. */
  lemma ByLineStart(log: seq<Line>, n: nat, source: string)
    requires n < |log| && IsStart(log, n)
    ensures EventsByLine(log, n + 1, source)
         == EventsByLine(log, n, source) + [Started(KindOf(log[n]), log[n], source)]
  {
    hide IsStart, OpenAt, Absorb, Started;
    StartsStep(log, n);
    var s, r := Starts(log, n), EventsByLine(log, n + 1, source);
    forall j | 0 <= j < |s| ensures r[j] == EventsByLine(log, n, source)[j] {
      EventStep(log, s[j], n, source);
    }
  }

  ghost function LastAbsorbs(log: seq<Line>, n: nat, r: seq<Event>): seq<Event>
    requires n < |log| && |r| == |Starts(log, n)|
  {
    var s := Starts(log, n);
    if |s| > 0 && OpenAt(log, s[|s| - 1], n) then r[..|s| - 1] + [Absorb(r[|s| - 1], log[n])] else r
  }

  /** Any other line changes at most the last event, and that only while it is open. */
  lemma ByLineOther(log: seq<Line>, n: nat, source: string)
    requires n < |log| && !IsStart(log, n)
    ensures EventsByLine(log, n + 1, source) == LastAbsorbs(log, n, EventsByLine(log, n, source))
  {
    hide IsStart, OpenAt, Absorb, Started;
    StartsStep(log, n);
    var s, r, t := Starts(log, n), EventsByLine(log, n, source), EventsByLine(log, n + 1, source);
    forall j | 0 <= j < |s|
      ensures t[j] == if j == |s| - 1 && OpenAt(log, s[j], n) then Absorb(r[j], log[n]) else r[j]
    {
      EventStep(log, s[j], n, source);
      if j + 1 < |s| {
        OnlyLastOpen(log, n, j);
      }
    }
  }

  lemma FlushAnomalies(p: Parser)
    requires p.pending.Some? ==> p.pending.value.kind != EdacRas
    ensures Anomalies(Flush(p).events) == Anomalies(p.events) + (if p.pending.Some? then [p.pending.value] else [])
    ensures Flush(p).pending == None
  {
    if p.pending.Some? {
      AppendOne(p.events, p.pending.value);
    }
  }

  lemma StepStart(log: seq<Line>, n: nat, source: string, p: Parser)
    requires n < |log| && Holds(log, n, source, p) && IsStart(log, n)
    ensures Holds(log, n + 1, source, Step(p, log[n], source))
  {
    hide OpenAt, Absorb, SpuriousOpen, EventsByLine, Starts, Anomalies;
    ByLineStart(log, n, source);
    StartsStep(log, n);
    FlushAnomalies(p);
    SpuriousOpenStep(log, n);
    FreshlyOpen(log, n);
  }

  lemma FreshlyOpen(log: seq<Line>, n: nat)
    requires n < |log|
    ensures OpenAt(log, n, n + 1)
  {
  }

  /** While an event is pending, it is the last one, and absorbing a line updates it. */
  lemma PendingAbsorbs(log: seq<Line>, n: nat, source: string, p: Parser)
    requires n < |log| && Holds(log, n, source, p) && !IsStart(log, n)
    ensures p.pending.None? ==> EventsByLine(log, n + 1, source) == Anomalies(p.events)
    ensures p.pending.Some? ==>
      EventsByLine(log, n + 1, source) == Anomalies(p.events) + [Absorb(p.pending.value, log[n])]
    ensures |Starts(log, n + 1)| == |Starts(log, n)|
    ensures (|Starts(log, n + 1)| > 0 && OpenAt(log, Starts(log, n + 1)[|Starts(log, n + 1)| - 1], n + 1))
       <==> p.pending.Some? && !EndsTrace(log[n])
  {
    hide OpenAt, SpuriousOpen, EventsByLine, Starts, Anomalies, Absorb, IsStart, EndsTrace;
    ByLineOther(log, n, source);
    StartsStep(log, n);
    var s := Starts(log, n);
    if |s| > 0 {
      OpenAtStep(log, s[|s| - 1], n);
    }
  }

  lemma KindsKept(e: Event, l: Line)
    ensures Merged(e, l).kind == e.kind && WithContext(e, l).kind == e.kind
  {
  }

  lemma StepMerge(log: seq<Line>, n: nat, source: string, p: Parser)
    requires n < |log| && Holds(log, n, source, p) && !IsStart(log, n) && RoleOf(log[n]) == WarningLine
    ensures Holds(log, n + 1, source, Step(p, log[n], source))
  {
    hide OpenAt, SpuriousOpen, EventsByLine, Starts, Anomalies, Merged;
    PendingAbsorbs(log, n, source, p);
    SpuriousOpenStep(log, n);
    KindsKept(p.pending.value, log[n]);
  }

  /** The last start before line n is open at line m. */
  ghost predicate LastOpen(log: seq<Line>, n: nat, m: nat)
    requires n <= m <= |log|
  {
    var s := Starts(log, n);
    |s| > 0 && OpenAt(log, s[|s| - 1], m)
  }

  /** Holds depends on the list of events only through the anomalies in it. */
  lemma HoldsAgain(log: seq<Line>, n: nat, source: string, p: Parser, q: Parser)
    requires n < |log| && Holds(log, n, source, p)
    requires q.pending == p.pending && Anomalies(q.events) == Anomalies(p.events)
    requires Starts(log, n + 1) == Starts(log, n) && EventsByLine(log, n + 1, source) == EventsByLine(log, n, source)
    requires SpuriousOpen(log, n + 1) <==> SpuriousOpen(log, n)
    requires LastOpen(log, n, n + 1) <==> LastOpen(log, n, n)
    ensures Holds(log, n + 1, source, q)
  {
    hide OpenAt, SpuriousOpen, EventsByLine, Starts, Anomalies, IsStart;
  }

  /** An EDAC line leaves every event as it was. */
  lemma EdacLeaves(log: seq<Line>, n: nat, source: string)
    requires n < |log| && RoleOf(log[n]) == EdacLine
    ensures Starts(log, n + 1) == Starts(log, n) && EventsByLine(log, n + 1, source) == EventsByLine(log, n, source)
    ensures SpuriousOpen(log, n + 1) <==> SpuriousOpen(log, n)
    ensures LastOpen(log, n, n + 1) <==> LastOpen(log, n, n)
  {
    hide OpenAt, SpuriousOpen, EventsByLine, Starts, Merged, WithContext;
    ByLineOther(log, n, source);
    StartsStep(log, n);
    SpuriousOpenStep(log, n);
    var s, r := Starts(log, n), EventsByLine(log, n, source);
    if |s| > 0 {
      OpenAtStep(log, s[|s| - 1], n);
      assert r[..|s| - 1] + [r[|s| - 1]] == r;
    }
  }

  lemma StepEdac(log: seq<Line>, n: nat, source: string, p: Parser)
    requires n < |log| && Holds(log, n, source, p) && RoleOf(log[n]) == EdacLine
    ensures Holds(log, n + 1, source, Step(p, log[n], source))
  {
    hide Holds, OpenAt, SpuriousOpen, EventsByLine, Starts, Anomalies, Step, EdacEvent, IsStart;
    EdacFacts(log, n, source, p);
    EdacLeaves(log, n, source);
    EdacKind(log[n], source);
    AppendOne(p.events, EdacEvent(log[n], source));
    HoldsAgain(log, n, source, p, Step(p, log[n], source));
  }

  lemma EdacFacts(log: seq<Line>, n: nat, source: string, p: Parser)
    requires n < |log| && RoleOf(log[n]) == EdacLine
    ensures !IsStart(log, n) && !EndsTrace(log[n])
    ensures Step(p, log[n], source) == Parser(p.events + [EdacEvent(log[n], source)], p.pending)
    ensures p.pending.Some? ==> Absorb(p.pending.value, log[n]) == p.pending.value
  {
    hide SpuriousOpen, EdacEvent, WithContext, Merged;
  }

  lemma EdacKind(l: Line, source: string)
    ensures EdacEvent(l, source).kind == EdacRas
  {
  }

  lemma StepContext(log: seq<Line>, n: nat, source: string, p: Parser)
    requires n < |log| && Holds(log, n, source, p) && RoleOf(log[n]) == ContextLine
    ensures Holds(log, n + 1, source, Step(p, log[n], source))
  {
    hide OpenAt, SpuriousOpen, EventsByLine, Starts, Anomalies, WithContext;
    PendingAbsorbs(log, n, source, p);
    SpuriousOpenStep(log, n);
    if p.pending.Some? {
      KindsKept(p.pending.value, log[n]);
      FlushAnomalies(p.(pending := Some(WithContext(p.pending.value, log[n]))));
    }
  }

  lemma StepHolds(log: seq<Line>, n: nat, source: string, p: Parser)
    requires n < |log| && Holds(log, n, source, p)
    ensures Holds(log, n + 1, source, Step(p, log[n], source))
  {
    hide Holds, Step, SpuriousOpen;
    if IsStart(log, n) {
      StepStart(log, n, source, p);
    } else {
      match RoleOf(log[n])
      case WarningLine => StepMerge(log, n, source, p);
      case EdacLine => StepEdac(log, n, source, p);
      case ContextLine => StepContext(log, n, source, p);
    }
  }

  lemma NothingHolds(log: seq<Line>, source: string)
    ensures Holds(log, 0, source, Parser([], None))
  {
  }

  lemma {:induction false} MachineHolds(log: seq<Line>, n: nat, source: string)
    requires n <= |log|
    ensures Holds(log, n, source, Run(log, n, source))
  {
    hide Step, Holds;
    if n == 0 {
      NothingHolds(log, source);
    } else {
      MachineHolds(log, n - 1, source);
      StepHolds(log, n - 1, source, Run(log, n - 1, source));
    }
  }

  /**
   * Every spurious-fault line, every Oops line and every WARNING line not merged into
   * an open spurious fault yields exactly one event, in line order.
   */
  lemma OneEventPerStart(log: seq<Line>, source: string)
    ensures Anomalies(ParseResult(log, source)) == EventsByLine(log, |log|, source)
  {
    hide Starts, EventsByLine, OpenAt, SpuriousOpen;
    MachineHolds(log, |log|, source);
    FlushAnomalies(Run(log, |log|, source));
  }

  // ---- Locality and order ------------------------------------------------------------------

  /** Once a starting line or an end marker has closed an event, no later line changes it. */
  lemma {:induction false} ClosedEventFixed(log: seq<Line>, i: nat, n: nat, m: nat, source: string)
    requires i < n <= m <= |log| && !OpenAt(log, i, n)
    ensures EventUpTo(log, i, m, source) == EventUpTo(log, i, n, source)
  {
    hide EventUpTo, IsStart, EndsTrace, Absorb;
    if n < m {
      ClosedEventFixed(log, i, n, m - 1, source);
      EventStep(log, i, m - 1, source);
    }
  }

  /** Starts, openness and events depend only on the lines read so far. */
  lemma {:induction false} PrefixDetermines(log: seq<Line>, other: seq<Line>, i: nat, n: nat, source: string)
    requires i < n <= |log| && n <= |other| && log[..n] == other[..n]
    ensures forall m :: 0 <= m < n ==> (IsStart(log, m) <==> IsStart(other, m))
    ensures OpenAt(log, i, n) <==> OpenAt(other, i, n)
    ensures EventUpTo(log, i, n, source) == EventUpTo(other, i, n, source)
    decreases n
  {
    hide Started, Absorb, RoleOf, EndsTrace, KindOf, IsStart;
    forall m | 0 <= m < n ensures log[m] == other[m] && (IsStart(log, m) <==> IsStart(other, m)) {
      SameStart(log, other, n, m);
    }
    if n > i + 1 {
      assert log[..n - 1] == other[..n - 1] by {
        assert log[..n - 1] == log[..n][..n - 1] && other[..n - 1] == other[..n][..n - 1];
      }
      PrefixDetermines(log, other, i, n - 1, source);
    }
  }

  lemma SameStart(log: seq<Line>, other: seq<Line>, n: nat, m: nat)
    requires m < n <= |log| && n <= |other| && log[..n] == other[..n]
    ensures log[m] == other[m] && (IsStart(log, m) <==> IsStart(other, m))
  {
    assert forall k :: 0 <= k < n ==> log[k] == log[..n][k] && other[k] == other[..n][k];
    forall k | 0 <= k < m ensures SpuriousSince(log, k, m) <==> SpuriousSince(other, k, m) {
    }
  }

  /** Up to and including an end marker: two logs that agree that far report the same event. */
  lemma ClosedByMarker(log: seq<Line>, other: seq<Line>, i: nat, n: nat, source: string)
    requires i < n <= |log| && n <= |other| && log[..n] == other[..n]
    requires !OpenAt(log, i, n)
    ensures EventUpTo(log, i, |log|, source) == EventUpTo(other, i, |other|, source)
  {
    hide EventUpTo, OpenAt;
    PrefixDetermines(log, other, i, n, source);
    ClosedEventFixed(log, i, n, |log|, source);
    ClosedEventFixed(other, i, n, |other|, source);
  }

  /** The log ends before line m, or line m starts another event. */
  ghost predicate Supersedes(log: seq<Line>, m: nat) {
    m == |log| || (m < |log| && IsStart(log, m))
  }

  lemma SupersededFixed(log: seq<Line>, i: nat, m: nat, source: string)
    requires i < m <= |log| && Supersedes(log, m)
    ensures EventUpTo(log, i, |log|, source) == EventUpTo(log, i, m, source)
  {
    hide EventUpTo, SpuriousOpen;
    if m < |log| {
      EventStep(log, i, m, source);
      assert !OpenAt(log, i, m + 1);
      ClosedEventFixed(log, i, m + 1, |log|, source);
    }
  }

  /**
   * An event's fields come only from lines before the next starting line: two logs that agree
   * up to there report the same event, whatever the starting lines are and whatever follows.
   */
  lemma ContextIsLocal(log: seq<Line>, other: seq<Line>, i: nat, m: nat, source: string)
    requires i < m <= |log| && m <= |other| && log[..m] == other[..m]
    requires Supersedes(log, m) && Supersedes(other, m)
    ensures EventUpTo(log, i, |log|, source) == EventUpTo(other, i, |other|, source)
  {
    hide EventUpTo, OpenAt, Supersedes;
    PrefixDetermines(log, other, i, m, source);
    SupersededFixed(log, i, m, source);
    SupersededFixed(other, i, m, source);
  }

  function EdacOf(l: Line, source: string): seq<Event> {
    if RoleOf(l) == EdacLine then [EdacEvent(l, source)] else []
  }

  function EdacByLine(log: seq<Line>, n: nat, source: string): seq<Event>
    requires n <= |log|
  {
    if n == 0 then [] else EdacByLine(log, n - 1, source) + EdacOf(log[n - 1], source)
  }

  lemma FlushEdac(p: Parser)
    requires p.pending.Some? ==> p.pending.value.kind != EdacRas
    ensures EdacLines(Flush(p).events) == EdacLines(p.events)
  {
    if p.pending.Some? {
      AppendOne(p.events, p.pending.value);
    }
  }

  lemma StepEdacLines(p: Parser, l: Line, source: string)
    requires p.pending.Some? ==> p.pending.value.kind != EdacRas
    ensures EdacLines(Step(p, l, source).events) == EdacLines(p.events) + EdacOf(l, source)
  {
    hide EdacLines, EdacEvent, WithContext, Merged, Started;
    FlushEdac(p);
    EdacKind(l, source);
    AppendOne(p.events, EdacEvent(l, source));
    if p.pending.Some? {
      KindsKept(p.pending.value, l);
      FlushEdac(p.(pending := Some(WithContext(p.pending.value, l))));
    }
  }

  lemma {:induction false} EdacRun(log: seq<Line>, n: nat, source: string)
    requires n <= |log|
    ensures EdacLines(Run(log, n, source).events) == EdacByLine(log, n, source)
  {
    hide Step, EdacOf, EdacLines;
    if n == 0 {
      AppendNothing();
    } else {
      EdacRun(log, n - 1, source);
      PendingKind(log, n - 1, source);
      StepEdacLines(Run(log, n - 1, source), log[n - 1], source);
    }
  }

  lemma PendingKind(log: seq<Line>, n: nat, source: string)
    requires n <= |log|
    ensures Run(log, n, source).pending.Some? ==> Run(log, n, source).pending.value.kind != EdacRas
  {
    hide Run;
    MachineHolds(log, n, source);
  }

  lemma AppendNothing()
    ensures EdacLines([]) == []
  {
  }

  /** Every EDAC or RAS line yields exactly one event of its own, in line order. */
  lemma OneEventPerEdacLine(log: seq<Line>, source: string)
    ensures EdacLines(ParseResult(log, source)) == EdacByLine(log, |log|, source)
  {
    hide EdacByLine, EdacLines, Run, Flush;
    EdacRun(log, |log|, source);
    PendingKind(log, |log|, source);
    FlushEdac(Run(log, |log|, source));
  }

  /** Anomalies the machine holds: those listed and the one pending. */
  function Held(p: Parser): nat {
    |Anomalies(p.events)| + if p.pending.Some? then 1 else 0
  }

  lemma {:induction false} HeldIsStarts(log: seq<Line>, n: nat, source: string)
    requires n <= |log|
    ensures Held(Run(log, n, source)) == |Starts(log, n)|
  {
    hide Run, Starts, EventsByLine, Anomalies, SpuriousOpen, IsStart, OpenAt;
    MachineHolds(log, n, source);
  }

  /**
   * When a WARNING merges: it adds no anomaly exactly when some spurious-fault line before it is
   * followed by no other spurious-fault line, no Oops line and no end marker.
   */
  lemma WarningMergesIff(log: seq<Line>, n: nat, source: string)
    requires n < |log| && RoleOf(log[n]) == WarningLine
    ensures Held(Run(log, n + 1, source)) == Held(Run(log, n, source)) <==> SpuriousOpen(log, n)
  {
    hide Held, Run, Starts, SpuriousOpen;
    HeldIsStarts(log, n, source);
    HeldIsStarts(log, n + 1, source);
    StartsStep(log, n);
  }

  /**
   * A WARNING need not follow its spurious-fault line directly to be merged: any number of
   * context and EDAC lines may stand between, as long as none ends the trace.  It starts no event
   * of its own, and the CPU, PID and process it names become those of the spurious-fault event.
   */
  lemma MergeAcrossContext(log: seq<Line>, i: nat, n: nat, source: string)
    requires i < n < |log| && log[i].spurious && RoleOf(log[n]) == WarningLine
    requires forall m :: i < m < n ==> RoleOf(log[m]) in {WarningLine, EdacLine, ContextLine} && !EndsTrace(log[m])
    ensures !IsStart(log, n)
    ensures var before, after, l := EventUpTo(log, i, n, source), EventUpTo(log, i, n + 1, source), log[n];
      && after.cpu == (if l.headerCpu.Some? then l.headerCpu else before.cpu)
      && after.pid == (if l.pid.Some? then l.pid else before.pid)
      && after.comm == (if l.pid.Some? && l.comm.Some? then l.comm else before.comm)
      && after == before.(cpu := after.cpu, pid := after.pid, comm := after.comm)
  {
    hide EventUpTo;
    assert SpuriousSince(log, i, n);
    forall m | i < m < n ensures !IsStart(log, m) {
      assert SpuriousSince(log, i, m);
    }
    EventStep(log, i, n, source);
  }
}
