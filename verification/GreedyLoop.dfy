/** The selector's loops, proved against the greedy run they implement. */
module GreedyLoop {
  import opened RealArith
  import opened Coverage
  import opened Selection
  import opened Greedy

  /** The closed-form gain by an accumulating loop; units missing from the table count as untouched. */
  method CoverageGain(covSelected: map<nat, real>, covCandidate: seq<real>, w: seq<real>) returns (gain: real)
    requires |covCandidate| == |w|
    ensures gain == Sum(GainTerms(w, Untouched(covSelected, |w|), covCandidate))
  {
    gain := 0.0;
    ghost var terms := GainTerms(w, Untouched(covSelected, |w|), covCandidate);
    for u := 0 to |w|
      invariant gain == SumTo(terms, u)
    {
      gain := gain + w[u] * (if u in covSelected then covSelected[u] else 1.0) * covCandidate[u];
    }
  }

  function Untouched(cov: map<nat, real>, n: nat): (v: seq<real>)
    ensures |v| == n && forall u :: 0 <= u < n ==> v[u] == if u in cov then cov[u] else 1.0
  {
    seq(n, u requires 0 <= u < n => if u in cov then cov[u] else 1.0)
  }

  /** The positions still in the pool, in pool order. */
  ghost predicate Remaining(pool: seq<Candidate>, picks: seq<Pick>, remaining: seq<nat>) {
    && (forall i: nat :: i in remaining <==> i < |pool| && i !in Chosen(picks))
    && (forall a :: 0 <= a < |remaining| ==> remaining[a] < |pool|)
    && (forall a, b :: 0 <= a < b < |remaining| ==> remaining[a] < remaining[b])
  }

  ghost predicate BestOf(pool: seq<Candidate>, w: seq<real>, q: Quotas, picks: seq<Pick>,
                         remaining: seq<nat>, n: nat, best: nat)
    requires WellFormed(pool, w) && n <= |remaining|
    requires forall a :: 0 <= a < |remaining| ==> remaining[a] < |pool|
  {
    && best < n
    && (forall a {:trigger remaining[a]} :: 0 <= a < n ==>
          Offer(pool, w, q, picks, remaining[a]) <= Offer(pool, w, q, picks, remaining[best]))
    && (forall a {:trigger remaining[a]} :: 0 <= a < best ==>
          Offer(pool, w, q, picks, remaining[a]) < Offer(pool, w, q, picks, remaining[best]))
  }

  /** One sweep over the remaining candidates; -1 when none beats the initial -1.0. */
  method Sweep(pool: seq<Candidate>, w: seq<real>, q: Quotas, ghost picks: seq<Pick>,
               cov: seq<real>, pickedPerUnit: seq<nat>, remaining: seq<nat>)
    returns (best: int, bestGain: real, bestUnit: nat)
    requires WellFormed(pool, w) && Remaining(pool, picks, remaining)
    requires cov == LeftVector(pool, w, Chosen(picks)) && |pickedPerUnit| == |w|
    requires forall u :: 0 <= u < |w| ==> pickedPerUnit[u] == PicksOf(picks, u)
    ensures best < |remaining|
    ensures best >= 0 ==> BestOf(pool, w, q, picks, remaining, |remaining|, best)
    ensures best >= 0 ==> bestGain == Offer(pool, w, q, picks, remaining[best])
    ensures best >= 0 ==> bestUnit == TopUnit(pool, w, picks, remaining[best])
    ensures best < 0 ==> forall a {:trigger remaining[a]} ::
      0 <= a < |remaining| ==> Offer(pool, w, q, picks, remaining[a]) <= -1.0
  {
    hide Offer, TopUnit, LeftVector, Chosen, PicksOf;
    best, bestGain, bestUnit := -1, -1.0, 0;
    for n := 0 to |remaining|
      invariant best < 0 ==> bestGain == -1.0
      invariant best < 0 ==> forall a {:trigger remaining[a]} ::
        0 <= a < n ==> Offer(pool, w, q, picks, remaining[a]) <= -1.0
      invariant best >= 0 ==> BestOf(pool, w, q, picks, remaining, n, best)
      invariant best >= 0 ==> bestGain == Offer(pool, w, q, picks, remaining[best]) > -1.0
      invariant best >= 0 ==> bestUnit == TopUnit(pool, w, picks, remaining[best])
    {
      var top, g := OfferOf(pool, w, q, picks, cov, pickedPerUnit, remaining[n]);
      if g > bestGain {
        best, bestGain, bestUnit := n, g, top;
      }
    }
  }

  method OfferOf(pool: seq<Candidate>, w: seq<real>, q: Quotas, ghost picks: seq<Pick>,
                 cov: seq<real>, pickedPerUnit: seq<nat>, i: nat)
    returns (top: nat, g: real)
    requires WellFormed(pool, w) && i < |pool|
    requires cov == LeftVector(pool, w, Chosen(picks)) && |pickedPerUnit| == |w|
    requires forall u :: 0 <= u < |w| ==> pickedPerUnit[u] == PicksOf(picks, u)
    ensures top == TopUnit(pool, w, picks, i)
    ensures g == Offer(pool, w, q, picks, i)
  {
    var gains := GainTerms(w, cov, pool[i].cover);
    top := ArgMax(gains, |w|);
    g := Sum(gains);
    if q.PerUnit? && top in q.limit {
      if pickedPerUnit[top] >= q.limit[top] {
        g := 0.0;
      }
    }
  }

  /** Multiply every unit's uncovered part by the new pick's factor. */
  method Absorb(pool: seq<Candidate>, w: seq<real>, ghost s: set<nat>, cov: seq<real>, i: nat) returns (next: seq<real>)
    requires WellFormed(pool, w) && i < |pool| && i !in s
    requires cov == LeftVector(pool, w, s)
    ensures next == LeftVector(pool, w, s + {i})
  {
    hide Left, Column;
    next := cov;
    for u := 0 to |w|
      invariant |next| == |w|
      invariant forall v :: 0 <= v < u ==> next[v] == LeftVector(pool, w, s + {i})[v]
      invariant forall v :: u <= v < |w| ==> next[v] == cov[v]
    {
      LeftInsert(Column(pool, w, u), s, i, |pool|);
      next := next[u := next[u] * (1.0 - pool[i].cover[u])];
    }
  }

  lemma Extend(pool: seq<Candidate>, w: seq<real>, q: Quotas, picks: seq<Pick>, p: Pick)
    requires WellFormed(pool, w) && GreedyRun(pool, w, q, picks) && GreedyStep(pool, w, q, picks, p)
    ensures GreedyRun(pool, w, q, picks + [p])
    ensures Chosen(picks + [p]) == Chosen(picks) + {p.index}
    ensures forall u :: PicksOf(picks + [p], u) == PicksOf(picks, u) + (if p.unit == u then 1 else 0)
  {
    assert Front(picks + [p]) == picks && Last(picks + [p]) == p;
  }

  /** The best remaining offer, if positive, is a greedy step. */
  lemma SweepIsStep(pool: seq<Candidate>, w: seq<real>, q: Quotas, picks: seq<Pick>,
                    remaining: seq<nat>, best: nat, p: Pick)
    requires WellFormed(pool, w) && Remaining(pool, picks, remaining)
    requires BestOf(pool, w, q, picks, remaining, |remaining|, best)
    requires p.index == remaining[best] && p.gain == Offer(pool, w, q, picks, p.index) > 0.0
    requires p.unit == TopUnit(pool, w, picks, p.index)
    ensures GreedyStep(pool, w, q, picks, p)
  {
    hide Offer, TopUnit;
    forall j | 0 <= j < |pool| && j !in Chosen(picks)
      ensures Offer(pool, w, q, picks, j) <= p.gain
      ensures j < p.index ==> Offer(pool, w, q, picks, j) < p.gain
    {
      assert j in remaining;
      var a :| 0 <= a < |remaining| && remaining[a] == j;
    }
  }

  lemma Drop(pool: seq<Candidate>, picks: seq<Pick>, remaining: seq<nat>, best: nat, p: Pick)
    requires Remaining(pool, picks, remaining) && best < |remaining| && p.index == remaining[best]
    requires Chosen(picks + [p]) == Chosen(picks) + {p.index}
    ensures Remaining(pool, picks + [p], remaining[..best] + remaining[best + 1..])
  {
    var next := remaining[..best] + remaining[best + 1..];
    forall i
      ensures i in next <==> i in remaining && i != p.index
    {
      if i in remaining && i != p.index {
        var a :| 0 <= a < |remaining| && remaining[a] == i;
        assert next[if a < best then a else a - 1] == i;
      }
    }
  }

  /**
   * The selection loop.  Its result is a greedy run of at most k picks that could not
   * be extended, the returned vector is the product of (1 - A_u) over the picks, and
   * the reported gains sum to the objective computed from that vector.
   */
  method GreedySelect(pool: seq<Candidate>, k: int, w: seq<real>, q: Quotas)
    returns (selected: seq<Pick>, covSelected: seq<real>)
    requires WellFormed(pool, w)
    ensures GreedyRun(pool, w, q, selected) && Stopped(pool, w, q, k, selected)
    ensures |selected| <= if k >= 0 then k else 0
    ensures covSelected == LeftVector(pool, w, Chosen(selected))
    ensures Sum(Gains(selected)) == Sum(CoveredTerms(w, covSelected))
  {
    hide Offer, TopUnit, GreedyRun, GreedyStep, LeftVector, Chosen, PicksOf, BestOf, Remaining, Left, Column;
    selected := [];
    covSelected := seq(|w|, _ => 1.0);
    var pickedPerUnit := seq(|w|, _ => 0);
    var remaining: seq<nat> := seq(|pool|, i => i);
    Start(pool, w, q, remaining);
    while |selected| < k && remaining != []
      invariant GreedyRun(pool, w, q, selected) && (|selected| == 0 || |selected| <= k)
      invariant covSelected == LeftVector(pool, w, Chosen(selected)) && |pickedPerUnit| == |w|
      invariant forall u :: 0 <= u < |w| ==> pickedPerUnit[u] == PicksOf(selected, u)
      invariant Remaining(pool, selected, remaining)
      decreases |remaining|
    {
      var best, bestGain, bestUnit := Sweep(pool, w, q, selected, covSelected, pickedPerUnit, remaining);
      if best < 0 || bestGain <= 0.0 {
        NoPositiveOffer(pool, w, q, selected, remaining, best);
        break;
      }
      InPool(pool, selected, remaining, best);
      var p := Pick(remaining[best], bestUnit, bestGain);
      SweepIsStep(pool, w, q, selected, remaining, best, p);
      Extend(pool, w, q, selected, p);
      covSelected := Absorb(pool, w, Chosen(selected), covSelected, p.index);
      pickedPerUnit := pickedPerUnit[bestUnit := pickedPerUnit[bestUnit] + 1];
      Drop(pool, selected, remaining, best, p);
      selected := selected + [p];
      remaining := remaining[..best] + remaining[best + 1..];
    }
    if remaining == [] {
      NoneLeft(pool, selected, remaining);
    }
    GainsAreObjective(pool, w, q, selected);
  }

  lemma InPool(pool: seq<Candidate>, picks: seq<Pick>, remaining: seq<nat>, best: nat)
    requires Remaining(pool, picks, remaining) && best < |remaining|
    ensures remaining[best] < |pool| && remaining[best] !in Chosen(picks)
  {
    assert remaining[best] in remaining;
  }

  lemma NoneLeft(pool: seq<Candidate>, picks: seq<Pick>, remaining: seq<nat>)
    requires Remaining(pool, picks, remaining) && remaining == []
    ensures forall j: nat :: j < |pool| ==> j in Chosen(picks)
  {
    forall j: nat | j < |pool| ensures j in Chosen(picks) {
      assert j !in remaining;
    }
  }

  lemma Start(pool: seq<Candidate>, w: seq<real>, q: Quotas, all: seq<nat>)
    requires WellFormed(pool, w)
    requires |all| == |pool| && forall i :: 0 <= i < |pool| ==> all[i] == i
    ensures GreedyRun(pool, w, q, []) && Remaining(pool, [], all)
    ensures LeftVector(pool, w, Chosen([])) == seq(|w|, _ => 1.0)
    ensures forall u :: PicksOf([], u) == 0
  {
    ObjectiveEmpty(pool, w);
    forall i: nat ensures i in all <==> i < |pool| {
      if i < |pool| {
        assert all[i] == i;
      }
    }
  }

  lemma NoPositiveOffer(pool: seq<Candidate>, w: seq<real>, q: Quotas, picks: seq<Pick>, remaining: seq<nat>, best: int)
    requires WellFormed(pool, w) && Remaining(pool, picks, remaining)
    requires best >= 0 ==>
      BestOf(pool, w, q, picks, remaining, |remaining|, best) && Offer(pool, w, q, picks, remaining[best]) <= 0.0
    requires best < 0 ==> forall a {:trigger remaining[a]} ::
      0 <= a < |remaining| ==> Offer(pool, w, q, picks, remaining[a]) <= -1.0
    ensures forall j {:trigger Offer(pool, w, q, picks, j)} ::
      0 <= j < |pool| && j !in Chosen(picks) ==> Offer(pool, w, q, picks, j) <= 0.0
  {
    hide Offer;
    forall j | 0 <= j < |pool| && j !in Chosen(picks) ensures Offer(pool, w, q, picks, j) <= 0.0 {
      assert j in remaining;
      var a :| 0 <= a < |remaining| && remaining[a] == j;
    }
  }
}
