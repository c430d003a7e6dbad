/** The order of the parsed events against the order of the lines they come from. */
module LogOrder {
  import opened Options
  import opened LogParse

  /** What one line contributes, as known after n lines: its event if it starts one, its EDAC event, or nothing. */
  ghost function LineEvents(log: seq<Line>, m: nat, n: nat, source: string): seq<Event>
    requires m < n <= |log|
  {
    if IsStart(log, m) then [EventUpTo(log, m, n, source)] else EdacOf(log[m], source)
  }

  /** All events of the first m lines in line order, as known after n lines. */
  ghost function ByLine(log: seq<Line>, m: nat, n: nat, source: string): seq<Event>
    requires m <= n <= |log|
  {
    if m == 0 then [] else ByLine(log, m - 1, n, source) + LineEvents(log, m - 1, n, source)
  }

  /** An EDAC line that arrives while the event started at line i is still open. */
  ghost predicate Overtaken(log: seq<Line>, i: nat, n: nat) {
    i < n < |log| && IsStart(log, i) && RoleOf(log[n]) == EdacLine && OpenAt(log, i, n)
  }

  ghost predicate NoneOvertaken(log: seq<Line>, n: nat) {
    forall i: nat, m: nat :: m < n ==> !Overtaken(log, i, m)
  }

  // ---- Counting ---------------------------------------------------------------------------------------

  lemma {:induction false} KindKept(log: seq<Line>, i: nat, n: nat, source: string)
    requires i < n <= |log| && IsStart(log, i)
    ensures EventUpTo(log, i, n, source).kind == KindOf(log[i]) != EdacRas
    decreases n
  {
    hide OpenAt, SpuriousOpen, WithContext, Merged;
    if n > i + 1 {
      KindKept(log, i, n - 1, source);
      KindsKept(EventUpTo(log, i, n - 1, source), log[n - 1]);
    }
  }

  lemma {:induction false} Partition(events: seq<Event>)
    ensures |events| == |Anomalies(events)| + |EdacLines(events)|
  {
    if events != [] {
      Partition(events[..|events| - 1]);
    }
  }

  lemma LineCounts(log: seq<Line>, m: nat, n: nat, source: string, events: seq<Event>)
    requires m < n <= |log|
    ensures |Anomalies(events + LineEvents(log, m, n, source))|
         == |Anomalies(events)| + if IsStart(log, m) then 1 else 0
    ensures |events + LineEvents(log, m, n, source)|
         == |events| + (if IsStart(log, m) then 1 else 0) + |EdacOf(log[m], source)|
  {
    hide SpuriousOpen, Anomalies, EventUpTo, EdacEvent;
    if IsStart(log, m) {
      KindKept(log, m, n, source);
      AppendOne(events, EventUpTo(log, m, n, source));
    } else if RoleOf(log[m]) == EdacLine {
      EdacKind(log[m], source);
      AppendOne(events, EdacEvent(log[m], source));
    } else {
      assert events + LineEvents(log, m, n, source) == events;
    }
  }

  lemma {:induction false} ByLineCounts(log: seq<Line>, m: nat, n: nat, source: string)
    requires m <= n <= |log|
    ensures |Anomalies(ByLine(log, m, n, source))| == |Starts(log, m)|
    ensures |ByLine(log, m, n, source)| == |Starts(log, m)| + |EdacByLine(log, m, source)|
    decreases m
  {
    hide IsStart, LineEvents, EdacOf;
    if m > 0 {
      ByLineCounts(log, m - 1, n, source);
      LineCounts(log, m - 1, n, source, ByLine(log, m - 1, n, source));
    }
  }

  // ---- The result only grows ----------------------------------------------------------------------------

  lemma StepGrows(p: Parser, l: Line, source: string)
    ensures p.events <= Step(p, l, source).events
  {
    hide Started, WithContext, Merged, EdacEvent;
  }

  lemma {:induction false} RunGrows(log: seq<Line>, m: nat, n: nat, source: string)
    requires m <= n <= |log|
    ensures Run(log, m, source).events <= Run(log, n, source).events
    decreases n
  {
    hide Step;
    if m < n {
      RunGrows(log, m, n - 1, source);
      StepGrows(Run(log, n - 1, source), log[n - 1], source);
    }
  }

  lemma ResultGrows(log: seq<Line>, n: nat, source: string)
    requires n <= |log|
    ensures Run(log, n, source).events <= ParseResult(log, source)
  {
    hide Run, Step;
    RunGrows(log, n, |log|, source);
  }

  lemma {:induction false} ByLineGrows(log: seq<Line>, m: nat, k: nat, n: nat, source: string)
    requires m <= k <= n <= |log|
    ensures ByLine(log, m, n, source) <= ByLine(log, k, n, source)
    decreases k
  {
    hide LineEvents;
    if m < k {
      ByLineGrows(log, m, k - 1, n, source);
    }
  }

  lemma {:induction false} StartsGrow(log: seq<Line>, m: nat, n: nat)
    requires m <= n <= |log|
    ensures Starts(log, m) <= Starts(log, n)
    decreases n
  {
    hide IsStart;
    if m < n {
      StartsGrow(log, m, n - 1);
    }
  }

  // ---- An overtaking line ---------------------------------------------------------------------------------

  lemma OpenIsLast(log: seq<Line>, i: nat, n: nat)
    requires i < n <= |log| && IsStart(log, i) && OpenAt(log, i, n)
    ensures |Starts(log, n)| > 0 && Starts(log, n)[|Starts(log, n)| - 1] == i
  {
    hide Starts, IsStart, OpenAt;
    var s := Starts(log, n);
    assert i in s;
    var j :| 0 <= j < |s| && s[j] == i;
    if j + 1 < |s| {
      OnlyLastOpen(log, n, j);
      assert false;
    }
  }

  /** The machine when an EDAC line overtakes: the open event is pending, and every earlier one is out. */
  lemma OvertakenState(log: seq<Line>, i: nat, n: nat, source: string)
    requires Overtaken(log, i, n)
    ensures Run(log, n, source).pending.Some? && |Starts(log, n)| > 0
    ensures |Anomalies(Run(log, n, source).events)| == |Starts(log, n)| - 1
    ensures |Run(log, n, source).events| == |Starts(log, n)| - 1 + |EdacByLine(log, n, source)|
    ensures Run(log, n + 1, source).events == Run(log, n, source).events + [EdacEvent(log[n], source)]
  {
    hide Run, Starts, EventsByLine, OpenAt, IsStart, Anomalies, EdacLines, EdacByLine, SpuriousOpen;
    OpenIsLast(log, i, n);
    MachineHolds(log, n, source);
    EdacRun(log, n, source);
    Partition(Run(log, n, source).events);
    EdacFacts(log, n, source, Run(log, n, source));
    RunStep(log, n, source);
  }

  lemma RunStep(log: seq<Line>, n: nat, source: string)
    requires n < |log|
    ensures Run(log, n + 1, source) == Step(Run(log, n, source), log[n], source)
  {
  }

  /** An anomaly not among the first m events comes later. */
  lemma {:induction false} FindAnomaly(events: seq<Event>, m: nat, j: nat) returns (q: nat)
    requires m <= |events| && |Anomalies(events[..m])| <= j < |Anomalies(events)|
    ensures m <= q < |events| && events[q] == Anomalies(events)[j]
  {
    var n := |events| - 1;
    assert events[..|events|] == events;
    assert events[..n][..m] == events[..m];
    if j < |Anomalies(events[..n])| {
      q := FindAnomaly(events[..n], m, j);
    } else {
      q := n;
    }
  }

  /**
   * In every log, an EDAC or RAS line that arrives while an event is open is listed before that
   * event, though it comes from a later line.
   */
  lemma EdacOvertakes(log: seq<Line>, i: nat, n: nat, source: string) returns (p: nat, q: nat)
    requires Overtaken(log, i, n)
    ensures p < q < |ParseResult(log, source)|
    ensures ParseResult(log, source)[p] == EdacEvent(log[n], source)
    ensures ParseResult(log, source)[q] == EventUpTo(log, i, |log|, source)
  {
    hide Run, Anomalies, Starts, EventsByLine, IsStart, OpenAt, EventUpTo, EdacEvent, EdacByLine;
    var r, before := ParseResult(log, source), Run(log, n, source).events;
    OvertakenState(log, i, n, source);
    ResultGrows(log, n + 1, source);
    p := |before|;
    assert r[..p + 1] == before + [EdacEvent(log[n], source)];
    AppendOne(before, EdacEvent(log[n], source));
    EdacKind(log[n], source);
    OneEventPerStart(log, source);
    OpenIsLast(log, i, n);
    StartsGrow(log, n, |log|);
    q := FindAnomaly(r, p + 1, |Starts(log, n)| - 1);
  }

  lemma OvertakenOutOfOrder(log: seq<Line>, i: nat, n: nat, source: string)
    requires Overtaken(log, i, n)
    ensures ParseResult(log, source) != ByLine(log, |log|, |log|, source)
  {
    hide Run, Anomalies, Starts, IsStart, OpenAt, EdacEvent, EdacByLine, ByLine;
    var r, t, before := ParseResult(log, source), ByLine(log, |log|, |log|, source), Run(log, n, source).events;
    OvertakenState(log, i, n, source);
    ResultGrows(log, n + 1, source);
    AppendOne(before, EdacEvent(log[n], source));
    EdacKind(log[n], source);
    ByLineCounts(log, n, |log|, source);
    ByLineGrows(log, n, |log|, |log|, source);
    var k := |before| + 1;
    assert r[..k] == before + [EdacEvent(log[n], source)] && t[..k] == ByLine(log, n, |log|, source);
    assert Anomalies(r[..k]) != Anomalies(t[..k]);
  }

  // ---- Without overtaking -----------------------------------------------------------------------------------

  lemma {:induction false} ByLineFixed(log: seq<Line>, m: nat, n: nat, source: string)
    requires m <= n < |log|
    requires IsStart(log, n) || forall i: nat :: i < m && IsStart(log, i) ==> !OpenAt(log, i, n)
    ensures ByLine(log, m, n + 1, source) == ByLine(log, m, n, source)
    decreases m
  {
    hide IsStart, OpenAt, Absorb, Started, EventUpTo, EdacOf;
    if m > 0 {
      ByLineFixed(log, m - 1, n, source);
      EventStep(log, m - 1, n, source);
    }
  }

  /** After the open start nothing else was listed, so it is the last entry. */
  lemma {:induction false} OpenEndsList(log: seq<Line>, i: nat, m: nat, n: nat, source: string)
    requires i < m <= n <= |log| && IsStart(log, i) && OpenAt(log, i, m) && NoneOvertaken(log, m)
    ensures ByLine(log, m, n, source) == ByLine(log, i, n, source) + [EventUpTo(log, i, n, source)]
    decreases m
  {
    hide EventUpTo, EdacEvent;
    if m > i + 1 {
      OpenEndsList(log, i, m - 1, n, source);
      assert !Overtaken(log, i, m - 1);
    }
  }

  ghost predicate Listed(log: seq<Line>, n: nat, source: string, p: Parser)
    requires n <= |log|
  {
    p.events + (if p.pending.Some? then [p.pending.value] else []) == ByLine(log, n, n, source)
  }

  /** A pending event is the last listed one, and it stands for the last starting line. */
  lemma PendingIsOpen(log: seq<Line>, n: nat, source: string) returns (i: nat)
    requires n <= |log| && Run(log, n, source).pending.Some?
    ensures i < n && IsStart(log, i) && OpenAt(log, i, n)
  {
    hide Run, Starts, EventsByLine, Anomalies, SpuriousOpen, IsStart, OpenAt;
    MachineHolds(log, n, source);
    i := Starts(log, n)[|Starts(log, n)| - 1];
  }

  lemma NothingOpen(log: seq<Line>, n: nat, source: string, i: nat)
    requires n <= |log| && Run(log, n, source).pending.None? && i < n && IsStart(log, i)
    ensures !OpenAt(log, i, n)
  {
    hide Run, Starts, EventsByLine, Anomalies, SpuriousOpen, IsStart, OpenAt;
    MachineHolds(log, n, source);
    if OpenAt(log, i, n) {
      OpenIsLast(log, i, n);
      assert false;
    }
  }

  lemma StartStep(log: seq<Line>, n: nat, source: string, p: Parser)
    requires n < |log| && IsStart(log, n) && (MergesInto(p) <==> SpuriousOpen(log, n))
    ensures Step(p, log[n], source) == Parser(Flush(p).events, Some(Started(KindOf(log[n]), log[n], source)))
  {
    hide SpuriousOpen, Started;
  }

  lemma Merging(log: seq<Line>, n: nat, source: string)
    requires n <= |log|
    ensures MergesInto(Run(log, n, source)) <==> SpuriousOpen(log, n)
  {
    hide Run, Starts, EventsByLine, Anomalies, SpuriousOpen, IsStart, OpenAt;
    MachineHolds(log, n, source);
  }

  lemma FreshEvent(log: seq<Line>, n: nat, source: string)
    requires n < |log|
    ensures EventUpTo(log, n, n + 1, source) == Started(KindOf(log[n]), log[n], source)
  {
  }

  lemma ListedStart(log: seq<Line>, n: nat, source: string)
    requires n < |log| && IsStart(log, n) && Listed(log, n, source, Run(log, n, source))
    ensures Listed(log, n + 1, source, Run(log, n + 1, source))
  {
    hide Run, Step, Started, EventUpTo, IsStart;
    RunStep(log, n, source);
    ByLineFixed(log, n, n, source);
    Merging(log, n, source);
    StartStep(log, n, source, Run(log, n, source));
    FreshEvent(log, n, source);
  }

  /** A line that starts nothing: an EDAC event is appended, the pending event absorbs, an end marker flushes. */
  lemma OtherStep(log: seq<Line>, n: nat, source: string, p: Parser)
    requires n < |log| && !IsStart(log, n) && (MergesInto(p) <==> SpuriousOpen(log, n))
    ensures p.pending.None? ==> Step(p, log[n], source) == Parser(p.events + EdacOf(log[n], source), None)
    ensures p.pending.Some? && RoleOf(log[n]) != EdacLine ==>
      var q := Parser(p.events, Some(Absorb(p.pending.value, log[n])));
      Step(p, log[n], source) == if EndsTrace(log[n]) then Flush(q) else q
  {
    hide SpuriousOpen, WithContext, Merged, EdacEvent;
    assert p.events + [] == p.events;
  }

  lemma ListedIdle(log: seq<Line>, n: nat, source: string)
    requires n < |log| && !IsStart(log, n) && Run(log, n, source).pending.None?
    requires Listed(log, n, source, Run(log, n, source))
    ensures Listed(log, n + 1, source, Run(log, n + 1, source))
  {
    hide Run, Step, EdacOf, OpenAt, IsStart, EventUpTo;
    RunStep(log, n, source);
    Merging(log, n, source);
    OtherStep(log, n, source, Run(log, n, source));
    forall i: nat | i < n && IsStart(log, i) ensures !OpenAt(log, i, n) {
      NothingOpen(log, n, source, i);
    }
    ByLineFixed(log, n, n, source);
  }

  /** The events before the open one are settled; the open one absorbs the line. */
  lemma OpenAbsorbs(log: seq<Line>, i: nat, n: nat, source: string)
    requires i < n < |log| && IsStart(log, i) && OpenAt(log, i, n) && NoneOvertaken(log, n + 1)
    requires !IsStart(log, n)
    ensures RoleOf(log[n]) != EdacLine
    ensures ByLine(log, n, n, source) == ByLine(log, i, n, source) + [EventUpTo(log, i, n, source)]
    ensures ByLine(log, n + 1, n + 1, source)
         == ByLine(log, i, n, source) + [Absorb(EventUpTo(log, i, n, source), log[n])]
  {
    hide IsStart, OpenAt, Absorb, EventUpTo, RoleOf, EdacEvent;
    assert !Overtaken(log, i, n);
    assert NoneOvertaken(log, n);
    OpenEndsList(log, i, n, n, source);
    OpenEndsList(log, i, n, n + 1, source);
    EventStep(log, i, n, source);
    forall j: nat | j < i && IsStart(log, j) ensures !OpenAt(log, j, n) {
      LaterCloses(log, j, i, n);
    }
    ByLineFixed(log, i, n, source);
  }

  lemma LaterCloses(log: seq<Line>, j: nat, i: nat, n: nat)
    requires j < i < n <= |log| && IsStart(log, i)
    ensures !OpenAt(log, j, n)
  {
    hide SpuriousOpen;
  }

  lemma ListedAbsorb(log: seq<Line>, n: nat, source: string)
    requires n < |log| && !IsStart(log, n) && Run(log, n, source).pending.Some? && NoneOvertaken(log, n + 1)
    requires Listed(log, n, source, Run(log, n, source))
    ensures Listed(log, n + 1, source, Run(log, n + 1, source))
  {
    hide Run, Step, OpenAt, IsStart, EventUpTo, Absorb, ByLine, EndsTrace, NoneOvertaken;
    var p := Run(log, n, source);
    RunStep(log, n, source);
    Merging(log, n, source);
    OtherStep(log, n, source, p);
    var i := PendingIsOpen(log, n, source);
    OpenAbsorbs(log, i, n, source);
    var before, e := ByLine(log, i, n, source), EventUpTo(log, i, n, source);
    assert p.events + [p.pending.value] == before + [e];
    assert p.events == (p.events + [p.pending.value])[..|p.events|] == before;
  }

  lemma {:induction false} ListedRun(log: seq<Line>, n: nat, source: string)
    requires n <= |log| && NoneOvertaken(log, n)
    ensures Listed(log, n, source, Run(log, n, source))
  {
    hide Step, IsStart, Overtaken, ByLine, Listed;
    if n == 0 {
      ListedNothing(log, source);
    } else {
      ListedRun(log, n - 1, source);
      if IsStart(log, n - 1) {
        ListedStart(log, n - 1, source);
      } else if Run(log, n - 1, source).pending.None? {
        ListedIdle(log, n - 1, source);
      } else {
        ListedAbsorb(log, n - 1, source);
      }
    }
  }

  lemma ListedNothing(log: seq<Line>, source: string)
    ensures Listed(log, 0, source, Run(log, 0, source))
  {
  }

  /**
   * For every log: the events are listed in the order of the lines that start them or, for EDAC
   * and RAS lines, carry them, exactly when no such line arrives while an event is open.
   */
  lemma LineOrderIff(log: seq<Line>, source: string)
    ensures ParseResult(log, source) == ByLine(log, |log|, |log|, source) <==> NoneOvertaken(log, |log|)
  {
    hide Run, ByLine, Overtaken;
    if NoneOvertaken(log, |log|) {
      ListedRun(log, |log|, source);
    } else {
      var i: nat, n: nat :| n < |log| && Overtaken(log, i, n);
      OvertakenOutOfOrder(log, i, n, source);
    }
  }
}
