/** The greedy selection loop, its quota behaviour and its approximation guarantee. */
module Greedy {
  import opened RealArith
  import opened Coverage
  import opened Selection
  import opened Exchange
  import opened IntArith

  /** One selected entry: pool position, unit that contributed most, reported gain. */
  datatype Pick = Pick(index: nat, unit: nat, gain: real)

  datatype Quotas = NoQuotas | PerUnit(limit: map<nat, int>)

  function Chosen(picks: seq<Pick>): (s: set<nat>)
    ensures forall n :: 0 <= n < |picks| ==> picks[n].index in s
  {
    if picks == [] then {} else Chosen(picks[..|picks| - 1]) + {picks[|picks| - 1].index}
  }

  function PicksOf(picks: seq<Pick>, u: nat): nat {
    if picks == [] then 0
    else PicksOf(picks[..|picks| - 1], u) + (if picks[|picks| - 1].unit == u then 1 else 0)
  }

  function Gains(picks: seq<Pick>): (g: seq<real>)
    ensures |g| == |picks|
  {
    seq(|picks|, n requires 0 <= n < |picks| => picks[n].gain)
  }

  /** First position of the maximum among the first n entries. */
  function ArgMax(g: seq<real>, n: nat): (m: nat)
    requires 0 < n <= |g|
    ensures m < n
    ensures forall v :: 0 <= v < n ==> g[v] <= g[m]
    ensures forall v :: 0 <= v < m ==> g[v] < g[m]
  {
    if n == 1 then 0
    else
      var m := ArgMax(g, n - 1);
      if g[n - 1] > g[m] then n - 1 else m
  }

  function TermsFor(pool: seq<Candidate>, w: seq<real>, picks: seq<Pick>, i: nat): (t: seq<real>)
    requires WellFormed(pool, w) && i < |pool|
    ensures |t| == |w|
  {
    GainTerms(w, LeftVector(pool, w, Chosen(picks)), pool[i].cover)
  }

  function TopUnit(pool: seq<Candidate>, w: seq<real>, picks: seq<Pick>, i: nat): (u: nat)
    requires WellFormed(pool, w) && i < |pool|
    ensures u < |w|
  {
    ArgMax(TermsFor(pool, w, picks, i), |w|)
  }

  predicate Capped(q: Quotas, picks: seq<Pick>, u: nat) {
    q.PerUnit? && u in q.limit && PicksOf(picks, u) >= q.limit[u]
  }

  /** The gain a candidate competes with: zero once its top unit has used its quota. */
  function Offer(pool: seq<Candidate>, w: seq<real>, q: Quotas, picks: seq<Pick>, i: nat): real
    requires WellFormed(pool, w) && i < |pool|
  {
    if Capped(q, picks, TopUnit(pool, w, picks, i)) then 0.0
    else Marginal(pool, w, Chosen(picks), i)
  }

  predicate GreedyStep(pool: seq<Candidate>, w: seq<real>, q: Quotas, picks: seq<Pick>, p: Pick)
    requires WellFormed(pool, w)
  {
    && p.index < |pool| && p.index !in Chosen(picks)
    && p.unit == TopUnit(pool, w, picks, p.index)
    && p.gain == Offer(pool, w, q, picks, p.index) > 0.0
    && (forall j {:trigger Offer(pool, w, q, picks, j)} ::
      0 <= j < |pool| && j !in Chosen(picks) ==> Offer(pool, w, q, picks, j) <= p.gain)
    && (forall j {:trigger Offer(pool, w, q, picks, j)} ::
      0 <= j < p.index && j !in Chosen(picks) ==> Offer(pool, w, q, picks, j) < p.gain)
  }

  predicate GreedyRun(pool: seq<Candidate>, w: seq<real>, q: Quotas, picks: seq<Pick>)
    requires WellFormed(pool, w)
  {
    picks == [] ||
    (GreedyRun(pool, w, q, Front(picks)) && GreedyStep(pool, w, q, Front(picks), Last(picks)))
  }

  function Front(picks: seq<Pick>): seq<Pick>
    requires picks != []
  {
    picks[..|picks| - 1]
  }

  function Last(picks: seq<Pick>): Pick
    requires picks != []
  {
    picks[|picks| - 1]
  }

  /** The loop ends on reaching k picks or when nothing left offers a positive gain. */
  predicate Stopped(pool: seq<Candidate>, w: seq<real>, q: Quotas, k: int, picks: seq<Pick>)
    requires WellFormed(pool, w)
  {
    || |picks| >= k
    || forall j {:trigger Offer(pool, w, q, picks, j)} ::
      0 <= j < |pool| && j !in Chosen(picks) ==> Offer(pool, w, q, picks, j) <= 0.0
  }

  // ---- What every run keeps ----------------------------------------------------

  /** What the last pick of a run contributed. */
  lemma LastPick(pool: seq<Candidate>, w: seq<real>, q: Quotas, picks: seq<Pick>)
    requires WellFormed(pool, w) && GreedyRun(pool, w, q, picks) && picks != []
    ensures GreedyRun(pool, w, q, Front(picks))
    ensures Last(picks).index < |pool| && Last(picks).index !in Chosen(Front(picks))
    ensures Chosen(picks) == Chosen(Front(picks)) + {Last(picks).index}
    ensures 0.0 < Last(picks).gain == Marginal(pool, w, Chosen(Front(picks)), Last(picks).index)
    ensures !Capped(q, Front(picks), Last(picks).unit)
  {
  }

  lemma LastPickObjective(pool: seq<Candidate>, w: seq<real>, q: Quotas, picks: seq<Pick>)
    requires WellFormed(pool, w) && GreedyRun(pool, w, q, picks) && picks != []
    ensures Objective(pool, w, Chosen(picks)) == Objective(pool, w, Chosen(Front(picks))) + Last(picks).gain
  {
    LastPick(pool, w, q, picks);
    MarginalIsDifference(pool, w, Chosen(Front(picks)), Last(picks).index);
  }

  lemma {:induction false} PicksAreDistinct(pool: seq<Candidate>, w: seq<real>, q: Quotas, picks: seq<Pick>)
    requires WellFormed(pool, w) && GreedyRun(pool, w, q, picks)
    ensures |Chosen(picks)| == |picks| && forall i :: i in Chosen(picks) ==> i < |pool|
  {
    if picks != [] {
      LastPick(pool, w, q, picks);
      PicksAreDistinct(pool, w, q, Front(picks));
    }
  }

  /** The reported gains add up exactly to the reported objective, with or without quotas. */
  lemma {:induction false} GainsAreObjective(pool: seq<Candidate>, w: seq<real>, q: Quotas, picks: seq<Pick>)
    requires WellFormed(pool, w) && GreedyRun(pool, w, q, picks)
    ensures Sum(Gains(picks)) == Objective(pool, w, Chosen(picks))
  {
    if picks == [] {
      ObjectiveEmpty(pool, w);
    } else {
      LastPick(pool, w, q, picks);
      LastPickObjective(pool, w, q, picks);
      GainsAreObjective(pool, w, q, Front(picks));
      assert Gains(picks) == Gains(Front(picks)) + [Last(picks).gain];
      SumAppend(Gains(Front(picks)), Last(picks).gain);
    }
  }

  /** A quota is a hard cap: no unit is the top unit of more picks than its quota allows. */
  lemma {:induction false} QuotaIsHard(pool: seq<Candidate>, w: seq<real>, q: Quotas, picks: seq<Pick>, u: nat)
    requires WellFormed(pool, w) && GreedyRun(pool, w, q, picks)
    requires q.PerUnit? && u in q.limit
    ensures PicksOf(picks, u) <= if q.limit[u] >= 0 then q.limit[u] else 0
  {
    if picks != [] {
      LastPick(pool, w, q, picks);
      QuotaIsHard(pool, w, q, Front(picks), u);
    }
  }

  lemma StepIsDetermined(pool: seq<Candidate>, w: seq<real>, q: Quotas, picks: seq<Pick>, a: Pick, b: Pick)
    requires WellFormed(pool, w) && GreedyStep(pool, w, q, picks, a) && GreedyStep(pool, w, q, picks, b)
    ensures a == b
  {
  }

  /** The choice rule leaves no freedom: two runs of equal length are the same run. */
  lemma {:induction false} RunIsDetermined(pool: seq<Candidate>, w: seq<real>, q: Quotas, a: seq<Pick>, b: seq<Pick>)
    requires WellFormed(pool, w) && GreedyRun(pool, w, q, a) && GreedyRun(pool, w, q, b)
    requires |a| == |b|
    ensures a == b
  {
    if a != [] {
      RunIsDetermined(pool, w, q, Front(a), Front(b));
      StepIsDetermined(pool, w, q, Front(a), Last(a), Last(b));
      assert a == Front(a) + [Last(a)] && b == Front(b) + [Last(b)];
    }
  }

  // ---- The approximation guarantee ---------------------------------------------

  lemma BelowAll(d: set<nat>, n: nat)
    ensures (forall i :: i in d ==> i < n) ==> Below(d, n) == d
  {
  }

  /** If nothing left gains more than g, any set of at most k candidates is within k * g. */
  lemma GapWithin(pool: seq<Candidate>, w: seq<real>, s: set<nat>, t: set<nat>, k: nat, g: real)
    requires WellFormed(pool, w) && Probabilities(pool, w) && 0.0 <= g
    requires |t| <= k && forall i :: i in t ==> i < |pool|
    requires forall j :: 0 <= j < |pool| && j !in s ==> Marginal(pool, w, s, j) <= g
    ensures Objective(pool, w, t) <= Objective(pool, w, s) + Times(k, g)
  {
    GapBound(pool, w, s, t);
    ChosenSumBound(Marginals(pool, w, s), t - s, g, |pool|);
    BelowAll(t - s, |pool|);
    SubsetSize(t - s, t);
    TimesGrows(|t - s|, k, g);
  }

  /** One greedy step closes at least a 1/k share of the gap. */
  lemma Recurrence(k: nat, gap: real, next: real, g: real, bound: real)
    requires k >= 1 && gap <= Times(k, g) && next == gap - g
    requires gap <= bound
    ensures next <= (1.0 - 1.0 / (k as real)) * bound
  {
    TimesIsProduct(k, g);
    var kr := k as real;
    var r := 1.0 / kr;
    assert r * kr == 1.0;
    assert 0.0 < r <= 1.0;
    assert gap * r <= g by {
      MulMonotone(r, r, 0.0, kr * g - gap);
      assert r * (kr * g - gap) == (r * kr) * g - gap * r;
    }
    assert (1.0 - r) * gap <= (1.0 - r) * bound by {
      MulMonotone(0.0, 1.0 - r, 0.0, bound - gap);
      assert (1.0 - r) * (bound - gap) == (1.0 - r) * bound - (1.0 - r) * gap;
    }
  }

  lemma StepGap(pool: seq<Candidate>, w: seq<real>, picks: seq<Pick>, k: nat, t: set<nat>)
    requires WellFormed(pool, w) && Probabilities(pool, w)
    requires GreedyRun(pool, w, NoQuotas, picks) && picks != []
    requires |t| <= k && forall i :: i in t ==> i < |pool|
    ensures Objective(pool, w, t) <= Objective(pool, w, Chosen(Front(picks))) + Times(k, Last(picks).gain)
  {
    forall j | 0 <= j < |pool| && j !in Chosen(Front(picks))
      ensures Marginal(pool, w, Chosen(Front(picks)), j) <= Last(picks).gain
    {
      assert Offer(pool, w, NoQuotas, Front(picks), j) <= Last(picks).gain;
    }
    GapWithin(pool, w, Chosen(Front(picks)), t, k, Last(picks).gain);
  }

  /** Before each step the gap to f is at most k times the gain of that step. */
  predicate Closes(f: real, k: nat, gains: seq<real>) {
    forall n :: 0 <= n < |gains| ==> f - SumTo(gains, n) <= Times(k, gains[n])
  }

  lemma {:induction false} RunCloses(pool: seq<Candidate>, w: seq<real>, picks: seq<Pick>, k: nat, t: set<nat>)
    requires WellFormed(pool, w) && Probabilities(pool, w)
    requires GreedyRun(pool, w, NoQuotas, picks)
    requires |t| <= k && forall i :: i in t ==> i < |pool|
    ensures Closes(Objective(pool, w, t), k, Gains(picks))
  {
    if picks != [] {
      LastPick(pool, w, NoQuotas, picks);
      RunCloses(pool, w, Front(picks), k, t);
      GainsAreObjective(pool, w, NoQuotas, Front(picks));
      StepGap(pool, w, picks, k, t);
      ClosesAppend(Objective(pool, w, t), k, Gains(Front(picks)), Last(picks).gain);
      assert Gains(picks) == Gains(Front(picks)) + [Last(picks).gain];
    }
  }

  lemma ClosesAppend(f: real, k: nat, gains: seq<real>, g: real)
    requires Closes(f, k, gains) && f <= Sum(gains) + Times(k, g)
    ensures Closes(f, k, gains + [g])
  {
    hide SumTo, Times;
    var all := gains + [g];
    forall n | 0 <= n < |all| ensures f - SumTo(all, n) <= Times(k, all[n]) {
      SumToPrefix(gains, all, n);
    }
  }

  /** x is the share of the gap that one of k picks leaves open. */
  predicate IsDecay(k: nat, x: real) {
    k >= 1 && x == 1.0 - 1.0 / (k as real)
  }

  function Decayed(f: real, x: real, n: nat): real {
    if n == 0 then f else x * Decayed(f, x, n - 1)
  }

  lemma {:induction false} DecayedIsPower(f: real, x: real, n: nat)
    ensures Decayed(f, x, n) == Pow(x, n) * f
  {
    if n > 0 {
      DecayedIsPower(f, x, n - 1);
      assert x * (Pow(x, n - 1) * f) == (x * Pow(x, n - 1)) * f;
    }
  }

  lemma {:induction false} GapDecays(f: real, k: nat, x: real, gains: seq<real>, n: nat)
    requires IsDecay(k, x) && Closes(f, k, gains) && n <= |gains|
    ensures f - SumTo(gains, n) <= Decayed(f, x, n)
  {
    hide Decayed, Times, IsDecay;
    if n == 0 {
      assert Decayed(f, x, 0) == f by {
        DecayStep(k, x, f, 0.0, 0.0, n);
      }
    } else {
      GapDecays(f, k, x, gains, n - 1);
      DecayStep(k, x, f, SumTo(gains, n - 1), gains[n - 1], n);
    }
  }

  lemma DecayStep(k: nat, x: real, f: real, before: real, g: real, n: nat)
    requires IsDecay(k, x)
    requires n > 0 ==> f - before <= Times(k, g) && f - before <= Decayed(f, x, n - 1)
    ensures n == 0 ==> Decayed(f, x, n) == f
    ensures n > 0 ==> f - (before + g) <= Decayed(f, x, n)
  {
    hide Times;
    if n > 0 {
      Recurrence(k, f - before, f - (before + g), g, Decayed(f, x, n - 1));
    }
  }

  /** Stopping early means nothing was left to gain: greedy is then at least as good as any set. */
  lemma EarlyStop(pool: seq<Candidate>, w: seq<real>, picks: seq<Pick>, k: nat, t: set<nat>)
    requires WellFormed(pool, w) && Probabilities(pool, w)
    requires Stopped(pool, w, NoQuotas, k, picks) && |picks| < k
    requires |t| <= k && forall i :: i in t ==> i < |pool|
    ensures Objective(pool, w, t) <= Objective(pool, w, Chosen(picks))
  {
    hide *;
    NothingLeft(pool, w, picks, k);
    GapWithin(pool, w, Chosen(picks), t, k, 0.0);
    TimesIsProduct(k, 0.0);
  }

  lemma NothingLeft(pool: seq<Candidate>, w: seq<real>, picks: seq<Pick>, k: nat)
    requires WellFormed(pool, w)
    requires Stopped(pool, w, NoQuotas, k, picks) && |picks| < k
    ensures forall j :: 0 <= j < |pool| && j !in Chosen(picks) ==> Marginal(pool, w, Chosen(picks), j) <= 0.0
  {
    forall j | 0 <= j < |pool| && j !in Chosen(picks) ensures Marginal(pool, w, Chosen(picks), j) <= 0.0 {
      assert Offer(pool, w, NoQuotas, picks, j) <= 0.0;
    }
  }

  /** What a finished run knows about any rival selection, in terms of its own gains. */
  lemma RunAgainst(pool: seq<Candidate>, w: seq<real>, picks: seq<Pick>, k: nat, t: set<nat>)
    requires WellFormed(pool, w) && Probabilities(pool, w)
    requires GreedyRun(pool, w, NoQuotas, picks) && Stopped(pool, w, NoQuotas, k, picks)
    requires |t| <= k && forall i :: i in t ==> i < |pool|
    ensures Closes(Objective(pool, w, t), k, Gains(picks))
    ensures Sum(Gains(picks)) == Objective(pool, w, Chosen(picks))
    ensures |picks| < k ==> Objective(pool, w, t) <= Sum(Gains(picks))
    ensures 0.0 <= Objective(pool, w, t)
  {
    RunCloses(pool, w, picks, k, t);
    GainsAreObjective(pool, w, NoQuotas, picks);
    if |picks| < k {
      EarlyStop(pool, w, picks, k, t);
    }
    Monotone(pool, w, {}, t);
    ObjectiveEmpty(pool, w);
  }

  lemma ClosingRatio(f: real, k: nat, gains: seq<real>)
    requires k >= 1 && |gains| <= k && 0.0 <= f
    requires Closes(f, k, gains) && (|gains| < k ==> f <= Sum(gains))
    ensures Sum(gains) >= (1.0 - Pow(1.0 - 1.0 / (k as real), k)) * f
  {
    hide SumTo, Pow, Times;
    hide Decayed;
    GapDecays(f, k, 1.0 - 1.0 / (k as real), gains, |gains|);
    DecayedIsPower(f, 1.0 - 1.0 / (k as real), |gains|);
    var p := Pow(1.0 - 1.0 / (k as real), k);
    assert (1.0 - p) * f == f - p * f;
    ReciprocalRange(k);
    PowRange(1.0 - 1.0 / (k as real), k);
    MulMonotone(0.0, p, 0.0, f);
  }

  /**
   * Without quotas, greedy reaches at least 1 - (1 - 1/k)^k of the objective of any
   * set of at most k candidates, also when it stops early.
   */
  lemma GreedyRatio(pool: seq<Candidate>, w: seq<real>, picks: seq<Pick>, k: nat, t: set<nat>)
    requires WellFormed(pool, w) && Probabilities(pool, w) && k >= 1
    requires GreedyRun(pool, w, NoQuotas, picks) && Stopped(pool, w, NoQuotas, k, picks) && |picks| <= k
    requires |t| <= k && forall i :: i in t ==> i < |pool|
    ensures Objective(pool, w, Chosen(picks))
         >= (1.0 - Pow(1.0 - 1.0 / (k as real), k)) * Objective(pool, w, t)
  {
    hide *;
    RunAgainst(pool, w, picks, k, t);
    ClosingRatio(Objective(pool, w, t), k, Gains(picks));
  }

  lemma MulStrict(f: real, d: real, b: real)
    requires f >= 1.0 && d > b
    ensures d * f > b * f
  {
    MulMonotone(0.0, f - 1.0, 0.0, d - b);
    assert (f - 1.0) * (d - b) == (d * f - b * f) - (d - b);
  }

  /** Division by a number of at least one keeps the order of its operands. */
  lemma DivideOrder(a: real, b: real, f: real)
    requires f >= 1.0 && a <= b * f
    ensures a / f <= b
  {
    var d := a / f;
    assert d * f == a;
    if d > b {
      MulStrict(f, d, b);
      assert false;
    }
  }

  lemma ReciprocalRange(k: nat)
    requires k >= 1
    ensures 0.0 < 1.0 / (k as real) <= 1.0
    ensures 0.0 <= 1.0 - 1.0 / (k as real) < 1.0
  {
    DivideOrder(1.0, 1.0, k as real);
  }

  // ---- The limit of the ratio: 1 - 1/e -------------------------------------------

  function Factorial(n: nat): (f: nat)
    ensures f >= 1
  {
    if n == 0 then 1 else n * Factorial(n - 1)
  }

  /** The n-th term of the exponential series at x. */
  function Term(x: real, n: nat): real {
    Pow(x, n) / (Factorial(n) as real)
  }

  /** The n-th partial sum of the exponential series at x. */
  function ExpSeries(x: real, n: nat): real {
    if n == 0 then 1.0 else ExpSeries(x, n - 1) + Term(x, n)
  }

  lemma SeriesUnfold(x: real, n: nat)
    ensures ExpSeries(x, 0) == 1.0
    ensures n > 0 ==> ExpSeries(x, n) == ExpSeries(x, n - 1) + Term(x, n)
  {
    hide Term;
  }

  lemma {:induction false} PowDifference(x: real, h: real, j: nat)
    requires 0.0 <= x && 0.0 <= h && j >= 1
    ensures Pow(x + h, j) - Pow(x, j) <= h * (j as real) * Pow(x + h, j - 1)
  {
    hide Pow;
    PowUnfold(x + h, j);
    PowUnfold(x, j);
    PowUnfold(x + h, j - 1);
    if j == 1 {
      TimesOne(x, Pow(x, 0));
      TimesOne(x + h, Pow(x + h, 0));
      TimesOne(h * 1.0, Pow(x + h, 0));
    } else {
      PowDifference(x, h, j - 1);
      PowMonotone(x, x + h, j - 1);
      PowMonotone(x, x + h, j - 2);
      DifferenceStep(x, h, Pow(x + h, j - 1), Pow(x, j - 1), Pow(x + h, j - 2), (j - 1) as real);
    }
  }

  lemma DifferenceStep(x: real, h: real, a: real, b: real, c: real, m: real)
    requires 0.0 <= x && 0.0 <= h && 0.0 <= m && 0.0 <= c && (x + h) * c == a
    requires a - b <= h * m * c && 0.0 <= b <= a
    ensures (x + h) * a - x * b <= h * (m + 1.0) * a
  {
    MulMonotone(0.0, x, 0.0, h * m * c - (a - b));
    assert x * (h * m * c - (a - b)) == h * m * (x * c) - x * a + x * b;
    assert x * c <= a by {
      MulMonotone(0.0, h, 0.0, c);
      assert (x + h) * c == x * c + h * c;
    }
    MulMonotone(0.0, h, 0.0, m);
    MulMonotone(h * m, h * m, 0.0, a - x * c);
    assert (h * m) * (a - x * c) == h * m * a - h * m * (x * c);
    assert (x + h) * a - x * b == h * a + (x * a - x * b);
    assert h * (m + 1.0) * a == h * m * a + h * a;
  }

  lemma Spread(h: real, e: real, d: real)
    ensures h * (e + d) == h * e + h * d
  {
  }

  lemma FactorialStep(n: nat)
    requires n >= 1
    ensures (Factorial(n) as real) == (n as real) * (Factorial(n - 1) as real)
  {
    IntProduct(n, Factorial(n - 1));
  }

  lemma {:induction false} IntProduct(a: nat, b: nat)
    ensures ((a * b) as real) == (a as real) * (b as real)
  {
    if a > 0 {
      IntProduct(a - 1, b);
      assert a * b == (a - 1) * b + b;
      var x, y := (a - 1) as real, b as real;
      assert (a as real) == x + 1.0;
      assert (x + 1.0) * y == x * y + y;
    }
  }

  lemma TermStep(x: real, h: real, n: nat)
    requires 0.0 <= x && 0.0 <= h && n >= 1
    ensures Term(x + h, n) - Term(x, n) <= h * Term(x + h, n - 1)
  {
    hide Pow, Factorial;
    PowDifference(x, h, n);
    FactorialStep(n);
    DivideStep(Pow(x + h, n), Pow(x, n), Pow(x + h, n - 1), h,
      n as real, Factorial(n) as real, Factorial(n - 1) as real);
  }

  lemma SeriesScalar(h: real, e: real, f: real, t: real, u: real, p: real, q: real)
    requires e - f <= h * p && t - u <= h * q
    ensures (e + t) - (f + u) <= h * (p + q)
  {
    Spread(h, p, q);
  }

  lemma NoGap(h: real)
    ensures 1.0 - 1.0 <= h * 0.0
  {
  }

  /** The partial sums grow no faster than themselves. */
  lemma {:induction false} SeriesDifference(x: real, h: real, n: nat)
    requires 0.0 <= x && 0.0 <= h && n >= 1
    ensures ExpSeries(x + h, n) - ExpSeries(x, n) <= h * ExpSeries(x + h, n - 1)
  {
    hide *;
    var y := x + h;
    TermStep(x, h, n);
    SeriesUnfold(y, n);
    SeriesUnfold(x, n);
    SeriesUnfold(y, n - 1);
    if n == 1 {
      TermZero(y);
      SeriesUnfold(x, 0);
      NoGap(h);
      SeriesScalar(h, 1.0, 1.0, Term(y, 1), Term(x, 1), 0.0, Term(y, 0));
    } else {
      SeriesDifference(x, h, n - 1);
      SeriesScalar(h, ExpSeries(y, n - 1), ExpSeries(x, n - 1), Term(y, n), Term(x, n),
        ExpSeries(y, n - 2), Term(y, n - 1));
    }
  }

  lemma TermZero(x: real)
    ensures Term(x, 0) == 1.0
  {
  }

  lemma DivideStep(a: real, b: real, c: real, h: real, n: real, f: real, g: real)
    requires n >= 1.0 && g >= 1.0 && f == n * g && f >= 1.0
    requires a - b <= h * n * c
    ensures a / f - b / f <= h * (c / g)
  {
    var q := c / g;
    assert q * g == c;
    assert h * n * (q * g) == (h * q) * (n * g);
    DivideOrder(a - b, h * q, f);
    assert (a - b) / f == a / f - b / f;
  }

  lemma TermNonNegative(x: real, n: nat)
    requires 0.0 <= x
    ensures 0.0 <= Term(x, n)
  {
    hide Pow, Factorial;
    PowMonotone(0.0, x, n);
    QuotientNonNegative(Pow(x, n), Factorial(n) as real);
  }

  lemma QuotientNonNegative(p: real, f: real)
    requires 0.0 <= p && f >= 1.0
    ensures 0.0 <= p / f
  {
    DivideOrder(0.0 - p, 0.0, f);
    assert (0.0 - p) / f == 0.0 - p / f;
  }

  lemma {:induction false} SeriesPositive(x: real, n: nat)
    requires 0.0 <= x
    ensures 1.0 <= ExpSeries(x, n)
    ensures n > 0 ==> ExpSeries(x, n - 1) <= ExpSeries(x, n)
  {
    hide Term;
    if n > 0 {
      SeriesPositive(x, n - 1);
      TermNonNegative(x, n);
    }
  }

  lemma StepScalar(h: real, e: real, d: real, e0: real)
    requires 0.0 <= h && 0.0 <= d <= e && e - e0 <= h * d
    ensures (1.0 - h) * e <= e0
  {
    MulMonotone(h, h, d, e);
    assert (1.0 - h) * e == e - h * e;
  }

  /** Stepping the series by h costs at most the factor 1 / (1 - h). */
  lemma SeriesStep(x: real, h: real, n: nat)
    requires 0.0 <= x && 0.0 <= h <= 1.0
    ensures (1.0 - h) * ExpSeries(x + h, n) <= ExpSeries(x, n)
  {
    hide *;
    SeriesUnfold(x + h, n);
    SeriesUnfold(x, n);
    if n == 0 {
      TimesOne(1.0 - h, ExpSeries(x + h, 0));
    } else {
      SeriesDifference(x, h, n);
      SeriesPositive(x + h, n);
      SeriesPositive(x + h, n - 1);
      StepScalar(h, ExpSeries(x + h, n), ExpSeries(x + h, n - 1), ExpSeries(x, n));
    }
  }

  lemma DecayScalar(h: real, p: real, q: real, a: real, b: real)
    requires 0.0 <= p && q == (1.0 - h) * p && (1.0 - h) * b <= a && p * a <= 1.0
    ensures q * b <= 1.0
  {
    MulMonotone(0.0, p, 0.0, a - (1.0 - h) * b);
    assert p * (a - (1.0 - h) * b) == p * a - ((1.0 - h) * p) * b;
  }

  lemma {:induction false} DecayBelowSeries(h: real, j: nat, n: nat)
    requires 0.0 <= h <= 1.0
    ensures Pow(1.0 - h, j) * ExpSeries(Times(j, h), n) <= 1.0
  {
    hide Pow, ExpSeries;
    PowUnfold(1.0 - h, j);
    if j == 0 {
      SeriesAtZero(n);
      TimesOne(Pow(1.0 - h, 0), ExpSeries(Times(0, h), n));
    } else {
      DecayBelowSeries(h, j - 1, n);
      TimesGrows(0, j - 1, h);
      SeriesStep(Times(j - 1, h), h, n);
      PowRange(1.0 - h, j - 1);
      DecayScalar(h, Pow(1.0 - h, j - 1), Pow(1.0 - h, j), ExpSeries(Times(j - 1, h), n), ExpSeries(Times(j, h), n));
    }
  }

  lemma {:induction false} SeriesAtZero(n: nat)
    ensures ExpSeries(0.0, n) == 1.0
  {
    if n > 0 {
      SeriesAtZero(n - 1);
      assert Term(0.0, n) == 0.0 by {
        assert Pow(0.0, n) == 0.0;
      }
    }
  }

  /**
   * The advertised constant: for every partial sum E of the series for e, greedy
   * reaches 1 - 1/E of any set of at most k candidates, whatever k is.
   */
  lemma GreedyReachesOneMinusOneOverE(pool: seq<Candidate>, w: seq<real>, picks: seq<Pick>, k: nat, t: set<nat>, n: nat)
    requires WellFormed(pool, w) && Probabilities(pool, w) && k >= 1
    requires GreedyRun(pool, w, NoQuotas, picks) && Stopped(pool, w, NoQuotas, k, picks) && |picks| <= k
    requires |t| <= k && forall i :: i in t ==> i < |pool|
    ensures ExpSeries(1.0, n) >= 1.0
    ensures Objective(pool, w, Chosen(picks)) >= (1.0 - 1.0 / ExpSeries(1.0, n)) * Objective(pool, w, t)
  {
    hide *;
    SeriesPositive(1.0, n);
    RunAgainst(pool, w, picks, k, t);
    ClosingLimit(Objective(pool, w, t), k, Gains(picks), n);
  }

  lemma ClosingLimit(f: real, k: nat, gains: seq<real>, n: nat)
    requires k >= 1 && |gains| <= k && 0.0 <= f
    requires Closes(f, k, gains) && (|gains| < k ==> f <= Sum(gains))
    ensures ExpSeries(1.0, n) >= 1.0
    ensures Sum(gains) >= (1.0 - 1.0 / ExpSeries(1.0, n)) * f
  {
    hide *;
    ClosingRatio(f, k, gains);
    SeriesPositive(1.0, n);
    DecayBelowE(k, n);
    RatioWeakens(Pow(1.0 - 1.0 / (k as real), k), ExpSeries(1.0, n), f);
  }

  lemma DecayBelowE(k: nat, n: nat)
    requires k >= 1
    ensures Pow(1.0 - 1.0 / (k as real), k) * ExpSeries(1.0, n) <= 1.0
  {
    hide *;
    ReciprocalRange(k);
    TimesIsProduct(k, 1.0 / (k as real));
    assert Times(k, 1.0 / (k as real)) == 1.0;
    DecayBelowSeries(1.0 / (k as real), k, n);
  }

  lemma RatioWeakens(p: real, e: real, f: real)
    requires e >= 1.0 && p * e <= 1.0 && 0.0 <= f
    ensures (1.0 - 1.0 / e) * f <= (1.0 - p) * f
  {
    var r := 1.0 / e;
    assert p <= r by {
      DivideOrder(0.0 - 1.0, 0.0 - p, e);
      assert (0.0 - 1.0) / e == 0.0 - r;
    }
    MulMonotone(0.0, r - p, 0.0, f);
    assert (r - p) * f == (1.0 - p) * f - (1.0 - r) * f;
  }
}
