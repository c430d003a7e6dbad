/**
 * The submodular sequence-set selector.
 *
 * A candidate carries one coverage figure A_u per unit; a selection is a set of
 * positions in the pool, and leaves each unit u uncovered with the product of
 * (1 - A_u) over the selected candidates.  The objective is the weighted sum of
 * the covered parts.  All arithmetic is exact.
 */
module Selection {
  import opened RealArith
  import opened Coverage

  /** One pool entry: its dictionary key and its coverage vector, by unit. */
  datatype Candidate = Candidate(name: string, cover: seq<real>)

  predicate WellFormed(pool: seq<Candidate>, w: seq<real>) {
    && |w| > 0
    && forall i :: 0 <= i < |pool| ==> |pool[i].cover| == |w|
  }

  /** The range the selector is meant for: probabilities and non-negative weights. */
  predicate Probabilities(pool: seq<Candidate>, w: seq<real>)
    requires WellFormed(pool, w)
  {
    && (forall u :: 0 <= u < |w| ==> 0.0 <= w[u])
    && forall i :: 0 <= i < |pool| ==> UnitInterval(pool[i].cover)
  }

  /** The figures of all candidates for one unit. */
  function Column(pool: seq<Candidate>, w: seq<real>, u: nat): (v: seq<real>)
    requires WellFormed(pool, w) && u < |w|
    ensures |v| == |pool| && forall i :: 0 <= i < |pool| ==> v[i] == pool[i].cover[u]
  {
    seq(|pool|, i requires 0 <= i < |pool| => pool[i].cover[u])
  }

  /** Uncovered part of every unit under selection s. */
  function LeftVector(pool: seq<Candidate>, w: seq<real>, s: set<nat>): (v: seq<real>)
    requires WellFormed(pool, w)
    ensures |v| == |w|
    ensures forall u :: 0 <= u < |w| ==> v[u] == Left(Column(pool, w, u), s, |pool|)
  {
    seq(|w|, u requires 0 <= u < |w| => Left(Column(pool, w, u), s, |pool|))
  }

  function CoveredTerms(w: seq<real>, left: seq<real>): (t: seq<real>)
    requires |left| == |w|
    ensures |t| == |w| && forall u :: 0 <= u < |w| ==> t[u] == w[u] * (1.0 - left[u])
  {
    seq(|w|, u requires 0 <= u < |w| => w[u] * (1.0 - left[u]))
  }

  /** Weighted coverage of a selection, the figure the tool reports. */
  function Objective(pool: seq<Candidate>, w: seq<real>, s: set<nat>): real
    requires WellFormed(pool, w)
  {
    Sum(CoveredTerms(w, LeftVector(pool, w, s)))
  }

  /** The per-unit terms of the closed-form gain. */
  function GainTerms(w: seq<real>, left: seq<real>, cover: seq<real>): (t: seq<real>)
    requires |left| == |w| && |cover| == |w|
    ensures |t| == |w| && forall u :: 0 <= u < |w| ==> t[u] == w[u] * left[u] * cover[u]
  {
    seq(|w|, u requires 0 <= u < |w| => w[u] * left[u] * cover[u])
  }

  /** Closed-form marginal gain of candidate i on top of selection s. */
  function Marginal(pool: seq<Candidate>, w: seq<real>, s: set<nat>, i: nat): real
    requires WellFormed(pool, w) && i < |pool|
  {
    Sum(GainTerms(w, LeftVector(pool, w, s), pool[i].cover))
  }

  function Marginals(pool: seq<Candidate>, w: seq<real>, s: set<nat>): (v: seq<real>)
    requires WellFormed(pool, w)
    ensures |v| == |pool| && forall i :: 0 <= i < |pool| ==> v[i] == Marginal(pool, w, s, i)
  {
    seq(|pool|, i requires 0 <= i < |pool| => Marginal(pool, w, s, i))
  }

  // ---- The objective is monotone and submodular -------------------------------

  lemma ObjectiveEmpty(pool: seq<Candidate>, w: seq<real>)
    requires WellFormed(pool, w)
    ensures LeftVector(pool, w, {}) == seq(|w|, _ => 1.0)
    ensures Objective(pool, w, {}) == 0.0
  {
    forall u | 0 <= u < |w| ensures LeftVector(pool, w, {})[u] == 1.0 {
      LeftEmpty(Column(pool, w, u), |pool|);
    }
    SumToZero(CoveredTerms(w, LeftVector(pool, w, {})), |w|);
  }

  /** The closed-form gain is the true difference of objectives. */
  lemma MarginalIsDifference(pool: seq<Candidate>, w: seq<real>, s: set<nat>, i: nat)
    requires WellFormed(pool, w) && i < |pool| && i !in s
    ensures Objective(pool, w, s + {i}) == Objective(pool, w, s) + Marginal(pool, w, s, i)
  {
    hide SumTo, Left, Column;
    var before, after := LeftVector(pool, w, s), LeftVector(pool, w, s + {i});
    var a, b := CoveredTerms(w, before), GainTerms(w, before, pool[i].cover);
    var c := CoveredTerms(w, after);
    forall u | 0 <= u < |w| ensures c[u] == a[u] + b[u] {
      LeftInsert(Column(pool, w, u), s, i, |pool|);
      var x, y := before[u], pool[i].cover[u];
      assert w[u] * (1.0 - x * (1.0 - y)) == w[u] * (1.0 - x) + w[u] * x * y;
    }
    SumToAdds(a, b, c, |w|);
  }

  lemma ColumnInterval(pool: seq<Candidate>, w: seq<real>, u: nat)
    requires WellFormed(pool, w) && Probabilities(pool, w) && u < |w|
    ensures UnitInterval(Column(pool, w, u))
  {
    forall i | 0 <= i < |pool| ensures 0.0 <= Column(pool, w, u)[i] <= 1.0 {
      assert UnitInterval(pool[i].cover);
    }
  }

  lemma Monotone(pool: seq<Candidate>, w: seq<real>, s: set<nat>, t: set<nat>)
    requires WellFormed(pool, w) && Probabilities(pool, w) && s <= t
    ensures 0.0 <= Objective(pool, w, s) <= Objective(pool, w, t)
  {
    hide SumTo, Left, Column;
    var x, y := LeftVector(pool, w, s), LeftVector(pool, w, t);
    var a, b := CoveredTerms(w, x), CoveredTerms(w, y);
    forall u | 0 <= u < |w| ensures 0.0 <= a[u] <= b[u] {
      ColumnInterval(pool, w, u);
      LeftShrinks(Column(pool, w, u), s, t, |pool|);
      MulMonotone(w[u], w[u], 1.0 - x[u], 1.0 - y[u]);
    }
    SumToMonotone(a, b, |w|);
    SumToNonNegative(a, |w|);
  }

  /** The gain of a candidate never grows as the selection grows. */
  lemma DiminishingGain(pool: seq<Candidate>, w: seq<real>, s: set<nat>, t: set<nat>, i: nat)
    requires WellFormed(pool, w) && Probabilities(pool, w) && s <= t && i < |pool|
    ensures 0.0 <= Marginal(pool, w, t, i) <= Marginal(pool, w, s, i)
  {
    hide SumTo, Left, Column;
    var x, y := LeftVector(pool, w, t), LeftVector(pool, w, s);
    var a, b := GainTerms(w, x, pool[i].cover), GainTerms(w, y, pool[i].cover);
    forall u | 0 <= u < |w| ensures 0.0 <= a[u] <= b[u] {
      ColumnInterval(pool, w, u);
      LeftShrinks(Column(pool, w, u), s, t, |pool|);
      MulMonotone(w[u], w[u], x[u], y[u]);
      assert UnitInterval(pool[i].cover);
      MulMonotone(w[u] * x[u], w[u] * y[u], pool[i].cover[u], pool[i].cover[u]);
    }
    SumToMonotone(a, b, |w|);
    SumToNonNegative(a, |w|);
  }

  /** Submodularity, as a difference of objectives. */
  lemma Submodular(pool: seq<Candidate>, w: seq<real>, s: set<nat>, t: set<nat>, i: nat)
    requires WellFormed(pool, w) && Probabilities(pool, w) && s <= t && i < |pool| && i !in t
    ensures Objective(pool, w, t + {i}) - Objective(pool, w, t)
         <= Objective(pool, w, s + {i}) - Objective(pool, w, s)
  {
    MarginalIsDifference(pool, w, s, i);
    MarginalIsDifference(pool, w, t, i);
    DiminishingGain(pool, w, s, t, i);
  }
}
