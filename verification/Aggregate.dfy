/** Aggregation of parsed events: counts per core, the busiest core, and the P1/P2 flags. */
module Aggregate {
  import opened LogParse
  import opened Options
  import RealArith

  datatype Summary = Summary(
    nAnomalies: nat, perCore: map<nat, nat>, topCore: Option<nat>, topCount: nat,
    concentration: real, concentrated: bool, multiApp: bool,
    perPc: map<string, nat>, esrHistogram: map<nat, nat>, nEdac: nat)

  function Present<T>(o: Option<T>): seq<T> {
    if o.Some? then [o.value] else []
  }

  function Cpus(events: seq<Event>): seq<nat> {
    if events == [] then [] else Cpus(events[..|events| - 1]) + Present(events[|events| - 1].cpu)
  }

  function Pcs(events: seq<Event>): seq<string> {
    if events == [] then [] else Pcs(events[..|events| - 1]) + Present(events[|events| - 1].pc)
  }

  function Esrs(events: seq<Event>): seq<nat> {
    if events == [] then [] else Esrs(events[..|events| - 1]) + Present(events[|events| - 1].esr)
  }

  function CommName(e: Event): string {
    if e.comm.Some? then e.comm.value else "?"
  }

  /** The process names seen on one core. */
  function CommsOn(events: seq<Event>, core: nat): set<string> {
    set e | e in events && e.cpu == Some(core) :: CommName(e)
  }

  /** Two anomalies on one core name different processes; one that names none counts as "?". */
  ghost predicate TwoApps(events: seq<Event>, core: nat) {
    exists i, j :: 0 <= i < |events| && 0 <= j < |events| && DifferentApps(events[i], events[j], core)
  }

  predicate DifferentApps(a: Event, b: Event, core: nat) {
    && a.cpu == b.cpu == Some(core)
    && (if a.comm.Some? then a.comm.value else "?") != if b.comm.Some? then b.comm.value else "?"
  }

  lemma TwoAppsIff(events: seq<Event>, core: nat)
    ensures |CommsOn(events, core)| >= 2 <==> TwoApps(events, core)
  {
    var names := CommsOn(events, core);
    if TwoApps(events, core) {
      var i, j :| 0 <= i < |events| && 0 <= j < |events| && DifferentApps(events[i], events[j], core);
      assert CommName(events[i]) in names && CommName(events[j]) in names;
      TwoMembers(names, CommName(events[i]), CommName(events[j]));
    }
    if |names| >= 2 {
      var x :| x in names;
      var rest := names - {x};
      assert |rest| >= 1;
      var y :| y in rest;
      var a :| a in events && a.cpu == Some(core) && CommName(a) == x;
      var b :| b in events && b.cpu == Some(core) && CommName(b) == y;
      var i :| 0 <= i < |events| && events[i] == a;
      var j :| 0 <= j < |events| && events[j] == b;
      assert DifferentApps(events[i], events[j], core);
    }
  }

  lemma TwoMembers(s: set<string>, x: string, y: string)
    requires x in s && y in s && x != y
    ensures |s| >= 2
  {
    assert s == (s - {x, y}) + {x, y};
    assert |s| == |s - {x, y}| + 2;
  }

  /** m counts the occurrences of every element of xs, and nothing else. */
  ghost predicate Tallies<T(!new)>(m: map<T, nat>, xs: seq<T>) {
    && (forall x :: x in m <==> x in xs)
    && (forall x :: x in m ==> m[x] == multiset(xs)[x])
  }

  function First<T(==)>(xs: seq<T>, x: T): (i: nat)
    requires x in xs
    ensures i < |xs| && xs[i] == x && forall j :: 0 <= j < i ==> xs[j] != x
  {
    if xs[0] == x then 0 else 1 + First(xs[1..], x)
  }

  /** The core with the most anomalies; among equals, the one seen first. */
  ghost predicate IsTop(xs: seq<nat>, top: Option<nat>, n: nat) {
    match top
    case None => xs == [] && n == 0
    case Some(c) =>
      && c in xs && n == multiset(xs)[c]
      && (forall d :: d in xs ==> multiset(xs)[d] <= n)
      && (forall d :: d in xs && d != c && multiset(xs)[d] == n ==> First(xs, c) < First(xs, d))
  }

  // ---- The counting loops ----------------------------------------------------------------

  function Bump<T(==)>(m: map<T, nat>, x: T): map<T, nat> {
    m[x := (if x in m then m[x] else 0) + 1]
  }

  lemma BumpTallies<T(!new)>(m: map<T, nat>, xs: seq<T>, x: T)
    requires Tallies(m, xs)
    ensures Tallies(Bump(m, x), xs + [x])
  {
    forall y ensures y in xs + [x] <==> y in xs || y == x {
    }
    assert multiset(xs + [x]) == multiset(xs) + multiset{x};
    if x !in xs {
      assert x !in multiset(xs);
    }
  }

  /** The dictionary's keys in insertion order are the cores in order of first sight. */
  ghost predicate InsertionOrder(order: seq<nat>, xs: seq<nat>) {
    && (forall x :: x in order <==> x in xs)
    && (forall a, b :: 0 <= a < b < |order| ==>
      order[a] in xs && order[b] in xs && First(xs, order[a]) < First(xs, order[b]))
  }

  lemma FirstKept(xs: seq<nat>, x: nat, y: nat)
    requires y in xs
    ensures y in xs + [x] && First(xs + [x], y) == First(xs, y)
  {
    assert forall k :: 0 <= k < |xs| ==> (xs + [x])[k] == xs[k];
  }

  lemma OrderAppend(order: seq<nat>, xs: seq<nat>, x: nat)
    requires InsertionOrder(order, xs)
    ensures InsertionOrder(if x in xs then order else order + [x], xs + [x])
  {
    var next := if x in xs then order else order + [x];
    forall y ensures y in next <==> y in xs + [x] {
    }
    forall a, b | 0 <= a < b < |next|
      ensures next[a] in xs + [x] && next[b] in xs + [x] && First(xs + [x], next[a]) < First(xs + [x], next[b])
    {
      assert next[a] == order[a] && order[a] in order;
      FirstKept(xs, x, next[a]);
      if b < |order| {
        assert order[b] in order;
        FirstKept(xs, x, next[b]);
      } else {
        assert forall k :: 0 <= k < |xs| ==> (xs + [x])[k] == xs[k] != x;
      }
    }
  }

  ghost predicate BestKey(order: seq<nat>, perCore: map<nat, nat>, i: nat, best: nat)
    requires i <= |order| && forall a :: 0 <= a < |order| ==> order[a] in perCore
  {
    && best < i
    && (forall a :: 0 <= a < i ==> perCore[order[a]] <= perCore[order[best]])
    && (forall a :: 0 <= a < best ==> perCore[order[a]] < perCore[order[best]])
  }

  lemma KeysListed(order: seq<nat>, perCore: map<nat, nat>, xs: seq<nat>)
    requires Tallies(perCore, xs) && InsertionOrder(order, xs)
    ensures forall a :: 0 <= a < |order| ==> order[a] in perCore
    ensures order == [] ==> xs == []
  {
    forall a | 0 <= a < |order| ensures order[a] in perCore {
      assert order[a] in order;
    }
    if xs != [] {
      assert xs[0] in xs;
      assert xs[0] in order;
    }
  }

  lemma BeatenKey(order: seq<nat>, perCore: map<nat, nat>, xs: seq<nat>, best: nat, d: nat)
    requires Tallies(perCore, xs) && InsertionOrder(order, xs) && d in xs
    requires forall a :: 0 <= a < |order| ==> order[a] in perCore
    requires BestKey(order, perCore, |order|, best)
    ensures order[best] in xs && multiset(xs)[d] <= perCore[order[best]] == multiset(xs)[order[best]]
    ensures d != order[best] && multiset(xs)[d] == perCore[order[best]] ==> First(xs, order[best]) < First(xs, d)
  {
    hide First;
    assert d in order && order[best] in perCore;
    var a :| 0 <= a < |order| && order[a] == d;
  }

  lemma BestIsTop(order: seq<nat>, perCore: map<nat, nat>, xs: seq<nat>, best: nat)
    requires Tallies(perCore, xs) && InsertionOrder(order, xs)
    requires forall a :: 0 <= a < |order| ==> order[a] in perCore
    requires BestKey(order, perCore, |order|, best)
    ensures IsTop(xs, Some(order[best]), perCore[order[best]])
  {
    hide First, Tallies, InsertionOrder;
    var c, n := order[best], perCore[order[best]];
    KeyCounted(order, perCore, xs, best);
    forall d | d in xs
      ensures multiset(xs)[d] <= n
      ensures d != c && multiset(xs)[d] == n ==> First(xs, c) < First(xs, d)
    {
      BeatenKey(order, perCore, xs, best, d);
    }
  }

  lemma KeyCounted(order: seq<nat>, perCore: map<nat, nat>, xs: seq<nat>, a: nat)
    requires Tallies(perCore, xs) && a < |order| && order[a] in perCore
    ensures order[a] in xs && perCore[order[a]] == multiset(xs)[order[a]]
  {
  }

  /** The first key with the largest count, as max over the dictionary finds it. */
  method TopOf(order: seq<nat>, perCore: map<nat, nat>, ghost xs: seq<nat>) returns (top: Option<nat>, n: nat)
    requires Tallies(perCore, xs) && InsertionOrder(order, xs)
    ensures IsTop(xs, top, n)
  {
    hide Tallies, InsertionOrder;
    KeysListed(order, perCore, xs);
    if order == [] {
      return None, 0;
    }
    var best := 0;
    for i := 1 to |order|
      invariant BestKey(order, perCore, i, best)
    {
      if perCore[order[i]] > perCore[order[best]] {
        best := i;
      }
    }
    BestIsTop(order, perCore, xs, best);
    top, n := Some(order[best]), perCore[order[best]];
  }

  lemma CpusAppend(events: seq<Event>, e: Event)
    ensures Cpus(events + [e]) == Cpus(events) + Present(e.cpu)
  {
    assert (events + [e])[..|events|] == events;
  }

  /** The events that count as anomalies, by a filtering loop. */
  method Filter(events: seq<Event>) returns (anomalies: seq<Event>, nEdac: nat)
    ensures anomalies == Anomalies(events) && nEdac == |EdacLines(events)|
  {
    anomalies, nEdac := [], 0;
    for i := 0 to |events|
      invariant anomalies == Anomalies(events[..i]) && nEdac == |EdacLines(events[..i])|
    {
      assert events[..i + 1] == events[..i] + [events[i]];
      AppendOne(events[..i], events[i]);
      if events[i].kind == EdacRas {
        nEdac := nEdac + 1;
      } else {
        anomalies := anomalies + [events[i]];
      }
    }
    assert events[..|events|] == events;
  }

  method Tally(anomalies: seq<Event>) returns (order: seq<nat>, perCore: map<nat, nat>)
    ensures Tallies(perCore, Cpus(anomalies)) && InsertionOrder(order, Cpus(anomalies))
  {
    hide Tallies, InsertionOrder, Bump, Cpus;
    Empty();
    order, perCore := [], map[];
    for i := 0 to |anomalies|
      invariant Tallies(perCore, Cpus(anomalies[..i])) && InsertionOrder(order, Cpus(anomalies[..i]))
    {
      ghost var xs := Cpus(anomalies[..i]);
      var e := anomalies[i];
      assert anomalies[..i + 1] == anomalies[..i] + [e];
      CpusAppend(anomalies[..i], e);
      if e.cpu.Some? {
        var c := e.cpu.value;
        BumpTallies(perCore, xs, c);
        OrderAppend(order, xs, c);
        KeysAre(perCore, xs, c);
        if c !in perCore {
          order := order + [c];
        }
        perCore := Bump(perCore, c);
      } else {
        assert xs + Present(e.cpu) == xs;
      }
    }
    assert anomalies[..|anomalies|] == anomalies;
  }

  /** Program-counter symbols and syndrome values, counted over the anomalies that have them. */
  method Histograms(anomalies: seq<Event>) returns (perPc: map<string, nat>, esrs: map<nat, nat>)
    ensures Tallies(perPc, Pcs(anomalies)) && Tallies(esrs, Esrs(anomalies))
  {
    hide Tallies, Bump, Pcs, Esrs;
    EmptyHistograms();
    perPc, esrs := map[], map[];
    for i := 0 to |anomalies|
      invariant Tallies(perPc, Pcs(anomalies[..i])) && Tallies(esrs, Esrs(anomalies[..i]))
    {
      var e := anomalies[i];
      assert anomalies[..i + 1] == anomalies[..i] + [e];
      HistogramsAppend(anomalies[..i], e);
      if e.pc.Some? {
        BumpTallies(perPc, Pcs(anomalies[..i]), e.pc.value);
        perPc := Bump(perPc, e.pc.value);
      } else {
        assert Pcs(anomalies[..i]) + Present(e.pc) == Pcs(anomalies[..i]);
      }
      if e.esr.Some? {
        BumpTallies(esrs, Esrs(anomalies[..i]), e.esr.value);
        esrs := Bump(esrs, e.esr.value);
      } else {
        assert Esrs(anomalies[..i]) + Present(e.esr) == Esrs(anomalies[..i]);
      }
    }
    assert anomalies[..|anomalies|] == anomalies;
  }

  lemma EmptyHistograms()
    ensures Pcs([]) == [] && Esrs([]) == [] && Tallies<string>(map[], []) && Tallies<nat>(map[], [])
  {
  }

  lemma HistogramsAppend(events: seq<Event>, e: Event)
    ensures Pcs(events + [e]) == Pcs(events) + Present(e.pc) && Esrs(events + [e]) == Esrs(events) + Present(e.esr)
  {
    assert (events + [e])[..|events|] == events;
  }

  lemma Empty()
    ensures Cpus([]) == [] && Tallies<nat>(map[], []) && InsertionOrder([], [])
  {
  }

  lemma KeysAre(m: map<nat, nat>, xs: seq<nat>, c: nat)
    requires Tallies(m, xs)
    ensures c in m <==> c in xs
  {
  }

  /** The concentration flag: more than 60% of all anomalies on one core. */
  predicate Concentrated(topCount: nat, total: nat) {
    5 * topCount > 3 * total
  }

  lemma SixtyPercent(n: nat, total: nat)
    requires total > 0
    ensures (n as real) / (total as real) > 0.60 <==> Concentrated(n, total)
  {
    var q, t := (n as real) / (total as real), total as real;
    assert q * t == n as real;
    assert t * (0.60 - q) == 0.60 * t - (n as real);
    RealArith.SignOfProduct(t, 0.60 - q);
  }

  lemma CpusBounded(events: seq<Event>)
    ensures |Cpus(events)| <= |events|
  {
  }

  method Summarize(events: seq<Event>) returns (s: Summary)
    ensures s.nAnomalies == |Anomalies(events)| && s.nEdac == |EdacLines(events)|
    ensures Tallies(s.perCore, Cpus(Anomalies(events)))
    ensures IsTop(Cpus(Anomalies(events)), s.topCore, s.topCount)
    ensures s.concentration * (s.nAnomalies as real) == s.topCount as real
    ensures s.topCore.None? ==> s.concentration == 0.0
    ensures s.concentrated <==> s.topCore.Some? && Concentrated(s.topCount, s.nAnomalies)
    ensures s.multiApp <==> s.topCore.Some? && TwoApps(Anomalies(events), s.topCore.value)
    ensures Tallies(s.perPc, Pcs(Anomalies(events))) && Tallies(s.esrHistogram, Esrs(Anomalies(events)))
  {
    hide Tallies, InsertionOrder, Anomalies, EdacLines, Cpus, CommsOn, TwoApps, Concentrated, Pcs, Esrs;
    var anomalies, nEdac := Filter(events);
    var order, perCore := Tally(anomalies);
    var top, n := TopOf(order, perCore, Cpus(anomalies));
    CpusBounded(anomalies);
    var perPc, esrs := Histograms(anomalies);
    var conc, concentrated, multi := 0.0, false, false;
    if top.Some? {
      SixtyPercent(n, |anomalies|);
      conc := (n as real) / (|anomalies| as real);
      concentrated := conc > 0.60;
      TwoAppsIff(anomalies, top.value);
      multi := |CommsOn(anomalies, top.value)| >= 2;
    }
    s := Summary(|anomalies|, perCore, top, n, conc, concentrated, multi, perPc, esrs, nEdac);
  }

  // ---- The tallies in terms of events -----------------------------------------------------------

  /** The values present in a column, in order. */
  function Somes<T>(xs: seq<Option<T>>): seq<T> {
    if xs == [] then [] else Somes(xs[..|xs| - 1]) + Present(xs[|xs| - 1])
  }

  /** The positions that hold x. */
  function Places<T(==)>(xs: seq<Option<T>>, x: T): set<nat> {
    set i: nat | i < |xs| && xs[i] == Some(x)
  }

  lemma PlacesStep<T>(xs: seq<Option<T>>, n: nat, x: T)
    requires |xs| == n + 1
    ensures |Places(xs, x)| == |Places(xs[..n], x)| + if xs[n] == Some(x) then 1 else 0
  {
    assert Places(xs, x) == Places(xs[..n], x) + if xs[n] == Some(x) then {n} else {};
  }

  lemma PresentCount<T>(s: seq<T>, o: Option<T>, x: T)
    ensures multiset(s + Present(o))[x] == multiset(s)[x] + if o == Some(x) then 1 else 0
  {
    assert multiset(s + Present(o)) == multiset(s) + multiset(Present(o));
  }

  lemma {:induction false} SomesCount<T>(xs: seq<Option<T>>, x: T)
    ensures multiset(Somes(xs))[x] == |Places(xs, x)|
  {
    hide Places, Present;
    if xs == [] {
      NoPlaces(xs, x);
    } else {
      var n := |xs| - 1;
      SomesCount(xs[..n], x);
      PlacesStep(xs, n, x);
      PresentCount(Somes(xs[..n]), xs[n], x);
    }
  }

  lemma NoPlaces<T>(xs: seq<Option<T>>, x: T)
    requires xs == []
    ensures |Places(xs, x)| == 0
  {
    assert Places(xs, x) == {};
  }

  function CpuColumn(events: seq<Event>): seq<Option<nat>> {
    seq(|events|, i requires 0 <= i < |events| => events[i].cpu)
  }

  function PcColumn(events: seq<Event>): seq<Option<string>> {
    seq(|events|, i requires 0 <= i < |events| => events[i].pc)
  }

  function EsrColumn(events: seq<Event>): seq<Option<nat>> {
    seq(|events|, i requires 0 <= i < |events| => events[i].esr)
  }

  lemma {:induction false} CpusAre(events: seq<Event>)
    ensures Cpus(events) == Somes(CpuColumn(events))
  {
    hide Present;
    if events != [] {
      var n := |events| - 1;
      CpusAre(events[..n]);
      assert CpuColumn(events)[..n] == CpuColumn(events[..n]);
    }
  }

  lemma {:induction false} PcsAre(events: seq<Event>)
    ensures Pcs(events) == Somes(PcColumn(events))
  {
    hide Present;
    if events != [] {
      var n := |events| - 1;
      PcsAre(events[..n]);
      assert PcColumn(events)[..n] == PcColumn(events[..n]);
    }
  }

  lemma {:induction false} EsrsAre(events: seq<Event>)
    ensures Esrs(events) == Somes(EsrColumn(events))
  {
    hide Present;
    if events != [] {
      var n := |events| - 1;
      EsrsAre(events[..n]);
      assert EsrColumn(events)[..n] == EsrColumn(events[..n]);
    }
  }

  /** Every tally counts events: those on the core, at the symbol, with the syndrome. */
  lemma TalliesAreEvents(events: seq<Event>, core: nat, pc: string, esr: nat)
    ensures multiset(Cpus(events))[core] == |Places(CpuColumn(events), core)|
    ensures multiset(Pcs(events))[pc] == |Places(PcColumn(events), pc)|
    ensures multiset(Esrs(events))[esr] == |Places(EsrColumn(events), esr)|
  {
    hide Cpus, Pcs, Esrs, Places, Somes, CpuColumn, PcColumn, EsrColumn;
    CpusAre(events);
    PcsAre(events);
    EsrsAre(events);
    SomesCount(CpuColumn(events), core);
    SomesCount(PcColumn(events), pc);
    SomesCount(EsrColumn(events), esr);
  }

  // ---- When the busiest core is a fact about the log and not about its order -----------------

  lemma {:induction false} TwoCounts(xs: seq<nat>, a: nat, b: nat)
    requires a != b
    ensures multiset(xs)[a] + multiset(xs)[b] <= |xs|
  {
    if xs != [] {
      var n := |xs| - 1;
      TwoCounts(xs[..n], a, b);
      assert xs == xs[..n] + [xs[n]];
      assert multiset(xs) == multiset(xs[..n]) + multiset{xs[n]};
    }
  }

  /** Under P1 every other core has strictly fewer anomalies: at most two thirds as many. */
  lemma ConcentratedIsUnique(xs: seq<nat>, total: nat, c: nat, n: nat, d: nat)
    requires IsTop(xs, Some(c), n) && |xs| <= total && Concentrated(n, total) && d != c
    ensures 3 * multiset(xs)[d] < 2 * n
  {
    TwoCounts(xs, c, d);
  }

  lemma {:induction false} CpusConcat(a: seq<Event>, b: seq<Event>)
    ensures Cpus(a + b) == Cpus(a) + Cpus(b)
  {
    hide Cpus, Present;
    if b == [] {
      Empty();
      assert a + b == a;
    } else {
      var n := |b| - 1;
      CpusConcat(a, b[..n]);
      CpusAppend(a + b[..n], b[n]);
      CpusAppend(b[..n], b[n]);
      assert b == b[..n] + [b[n]];
      assert a + b == (a + b[..n]) + [b[n]];
    }
  }

  lemma CpusWithout(b: seq<Event>, j: nat)
    requires j < |b|
    ensures multiset(Cpus(b)) == multiset(Cpus(b[..j] + b[j + 1..])) + multiset(Present(b[j].cpu))
  {
    hide Cpus, Present;
    assert b == (b[..j] + [b[j]]) + b[j + 1..];
    CpusConcat(b[..j] + [b[j]], b[j + 1..]);
    CpusAppend(b[..j], b[j]);
    CpusConcat(b[..j], b[j + 1..]);
  }

  lemma RemoveOne(a: seq<Event>, b: seq<Event>, n: nat, j: nat)
    requires multiset(a) == multiset(b) && |a| == n + 1 && j < |b| && b[j] == a[n]
    ensures multiset(a[..n]) == multiset(b[..j] + b[j + 1..])
  {
    assert a == a[..n] + [a[n]];
    assert b == b[..j] + [b[j]] + b[j + 1..];
    assert multiset(a) == multiset(a[..n]) + multiset{a[n]};
    assert multiset(b) == multiset(b[..j]) + multiset{b[j]} + multiset(b[j + 1..]);
    assert multiset(a[..n]) == multiset(a) - multiset{a[n]};
    assert multiset(b[..j] + b[j + 1..]) == multiset(b[..j]) + multiset(b[j + 1..]);
    assert multiset(b[..j]) + multiset(b[j + 1..]) == multiset(b) - multiset{b[j]};
  }

  /** Reordering the anomalies reorders their cores. */
  lemma {:induction false} CpusPermute(a: seq<Event>, b: seq<Event>)
    requires multiset(a) == multiset(b)
    ensures multiset(Cpus(a)) == multiset(Cpus(b))
    decreases |a|
  {
    hide Cpus, Present;
    if a == [] {
      assert |multiset(b)| == 0;
    } else {
      var n := |a| - 1;
      assert a == a[..n] + [a[n]];
      assert a[n] in multiset(b);
      var j :| 0 <= j < |b| && b[j] == a[n];
      var rest := b[..j] + b[j + 1..];
      RemoveOne(a, b, n, j);
      CpusPermute(a[..n], rest);
      CpusAppend(a[..n], a[n]);
      CpusWithout(b, j);
    }
  }

  /** If P1 holds, the busiest core does not depend on the order of the events. */
  lemma TopIndependentOfOrder(a: seq<Event>, b: seq<Event>, c: nat, n: nat, top: Option<nat>, m: nat)
    requires multiset(a) == multiset(b)
    requires IsTop(Cpus(a), Some(c), n) && Concentrated(n, |a|)
    requires IsTop(Cpus(b), top, m)
    ensures top == Some(c) && m == n && Concentrated(m, |b|)
  {
    hide Cpus;
    CpusPermute(a, b);
    assert |a| == |multiset(a)| == |b|;
    CpusBounded(a);
    CpusBounded(b);
    assert c in multiset(Cpus(b));
    if top.Some? && top.value != c {
      ConcentratedIsUnique(Cpus(a), |a|, c, n, top.value);
    }
  }

  /** Without P1 order can decide: any core with the largest count wins in some order. */
  lemma AnyMaximumCanWin(xs: seq<nat>, c: nat) returns (ys: seq<nat>)
    requires c in xs && forall d :: d in xs ==> multiset(xs)[d] <= multiset(xs)[c]
    ensures multiset(ys) == multiset(xs) && IsTop(ys, Some(c), multiset(xs)[c])
  {
    var j := First(xs, c);
    ys := [c] + xs[..j] + xs[j + 1..];
    assert xs == xs[..j] + [c] + xs[j + 1..];
    assert multiset(ys) == multiset{c} + multiset(xs[..j]) + multiset(xs[j + 1..]);
    assert multiset(ys) == multiset(xs);
    assert ys[0] == c;
    forall d | d in ys ensures multiset(ys)[d] <= multiset(ys)[c] && (d != c ==> First(ys, c) < First(ys, d)) {
      assert d in multiset(xs);
    }
  }
}
