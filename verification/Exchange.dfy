/** How far any selection can be above another: the exchange between units and candidates. */
module Exchange {
  import opened RealArith
  import opened Coverage
  import opened Selection

  function WeightedCover(pool: seq<Candidate>, w: seq<real>, left: seq<real>, d: set<nat>, n: nat): (t: seq<real>)
    requires WellFormed(pool, w) && |left| == |w| && n <= |pool|
    ensures |t| == |w|
    ensures forall u :: 0 <= u < |w| ==> t[u] == w[u] * left[u] * ChosenSum(Column(pool, w, u), d, n)
  {
    seq(|w|, u requires 0 <= u < |w| => w[u] * left[u] * ChosenSum(Column(pool, w, u), d, n))
  }

  lemma Distribute(w: real, x: real, p: real, q: real)
    ensures w * x * (p + q) == w * x * p + w * x * q
  {
  }

  lemma ExchangeStep(pool: seq<Candidate>, w: seq<real>, left: seq<real>, d: set<nat>, n: nat)
    requires WellFormed(pool, w) && |left| == |w| && 0 < n <= |pool|
    ensures Sum(WeightedCover(pool, w, left, d, n))
         == Sum(WeightedCover(pool, w, left, d, n - 1))
          + if n - 1 in d then Sum(GainTerms(w, left, pool[n - 1].cover)) else 0.0
  {
    hide SumTo, Column;
    var a, c := WeightedCover(pool, w, left, d, n - 1), WeightedCover(pool, w, left, d, n);
    if n - 1 in d {
      var b := GainTerms(w, left, pool[n - 1].cover);
      forall u | 0 <= u < |w| ensures c[u] == a[u] + b[u] {
        var v := Column(pool, w, u);
        assert ChosenSum(v, d, n) == ChosenSum(v, d, n - 1) + v[n - 1];
        Distribute(w[u], left[u], ChosenSum(v, d, n - 1), v[n - 1]);
      }
      SumToAdds(a, b, c, |w|);
    } else {
      SumToPrefix(a, c, |w|);
    }
  }

  /** Summing by unit or by candidate gives the same total. */
  lemma {:induction false} SumExchange(pool: seq<Candidate>, w: seq<real>, s: set<nat>, d: set<nat>, n: nat)
    requires WellFormed(pool, w) && n <= |pool|
    ensures Sum(WeightedCover(pool, w, LeftVector(pool, w, s), d, n)) == ChosenSum(Marginals(pool, w, s), d, n)
  {
    hide SumTo, Column, LeftVector, GainTerms;
    if n == 0 {
      SumToZero(WeightedCover(pool, w, LeftVector(pool, w, s), d, n), |w|);
    } else {
      SumExchange(pool, w, s, d, n - 1);
      ExchangeStep(pool, w, LeftVector(pool, w, s), d, n);
      assert Marginals(pool, w, s)[n - 1] == Marginal(pool, w, s, n - 1);
    }
  }

  lemma TermGap(w: real, x: real, y: real, k: real)
    requires 0.0 <= w && x - y <= x * k
    ensures w * (1.0 - y) <= w * (1.0 - x) + w * x * k
  {
    MulMonotone(0.0, w, 0.0, x * k - (x - y));
    assert w * (x * k - (x - y)) == w * x * k + w * (1.0 - x) - w * (1.0 - y);
  }

  lemma UnitGap(pool: seq<Candidate>, w: seq<real>, s: set<nat>, t: set<nat>, u: nat)
    requires WellFormed(pool, w) && Probabilities(pool, w) && u < |w|
    ensures CoveredTerms(w, LeftVector(pool, w, s + t))[u]
         <= CoveredTerms(w, LeftVector(pool, w, s))[u]
          + WeightedCover(pool, w, LeftVector(pool, w, s), t - s, |pool|)[u]
  {
    ColumnInterval(pool, w, u);
    var v := Column(pool, w, u);
    UnionBound(v, s, t, |pool|);
    TermGap(w[u], Left(v, s, |pool|), Left(v, s + t, |pool|), ChosenSum(v, t - s, |pool|));
  }

  /** No selection beats s by more than the gains, on top of s, of what it has and s has not. */
  lemma GapBound(pool: seq<Candidate>, w: seq<real>, s: set<nat>, t: set<nat>)
    requires WellFormed(pool, w) && Probabilities(pool, w)
    ensures Objective(pool, w, t) <= Objective(pool, w, s) + ChosenSum(Marginals(pool, w, s), t - s, |pool|)
  {
    hide SumTo, Left, Column;
    Monotone(pool, w, t, s + t);
    var x := LeftVector(pool, w, s);
    var a, b := CoveredTerms(w, x), WeightedCover(pool, w, x, t - s, |pool|);
    var c := seq(|w|, u requires 0 <= u < |w| => a[u] + b[u]);
    forall u | 0 <= u < |w| ensures CoveredTerms(w, LeftVector(pool, w, s + t))[u] <= c[u] {
      UnitGap(pool, w, s, t, u);
    }
    SumToMonotone(CoveredTerms(w, LeftVector(pool, w, s + t)), c, |w|);
    SumToAdds(a, b, c, |w|);
    SumExchange(pool, w, s, t - s, |pool|);
  }
}
