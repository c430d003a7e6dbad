/**
 * A greedy run read off its picks alone: the unit each pick is booked under, which
 * candidates a quota holds back, and the run as a chain of such choices.
 */
module GreedyUnits {
  import opened RealArith
  import opened Coverage
  import opened Selection
  import opened Greedy

  predicate InPool(pool: seq<Candidate>, picks: seq<Pick>) {
    forall n :: 0 <= n < |picks| ==> picks[n].index < |pool|
  }

  /** What the picks, in their order, leave uncovered of unit v. */
  function LeftBy(pool: seq<Candidate>, w: seq<real>, picks: seq<Pick>, v: nat): real
    requires WellFormed(pool, w) && InPool(pool, picks) && v < |w|
  {
    if picks == [] then 1.0
    else LeftBy(pool, w, Front(picks), v) * (1.0 - pool[Last(picks).index].cover[v])
  }

  /** Unit v's part of the gain of candidate i after the picks. */
  function Share(pool: seq<Candidate>, w: seq<real>, picks: seq<Pick>, i: nat, v: nat): real
    requires WellFormed(pool, w) && InPool(pool, picks) && i < |pool| && v < |w|
  {
    w[v] * LeftBy(pool, w, picks, v) * pool[i].cover[v]
  }

  function Shares(pool: seq<Candidate>, w: seq<real>, picks: seq<Pick>, i: nat): (t: seq<real>)
    requires WellFormed(pool, w) && InPool(pool, picks) && i < |pool|
    ensures |t| == |w| && forall v :: 0 <= v < |w| ==> t[v] == Share(pool, w, picks, i, v)
  {
    seq(|w|, v requires 0 <= v < |w| => Share(pool, w, picks, i, v))
  }

  /** Unit t has the largest share, and no earlier unit has one as large. */
  predicate Strongest(pool: seq<Candidate>, w: seq<real>, picks: seq<Pick>, i: nat, t: nat)
    requires WellFormed(pool, w) && InPool(pool, picks) && i < |pool|
  {
    && t < |w|
    && (forall v :: 0 <= v < |w| ==> Share(pool, w, picks, i, v) <= Share(pool, w, picks, i, t))
    && (forall v :: 0 <= v < t ==> Share(pool, w, picks, i, v) < Share(pool, w, picks, i, t))
  }

  /** The positions of the picks booked under unit u. */
  function Booked(picks: seq<Pick>, u: nat): set<nat> {
    set n: nat | n < |picks| && picks[n].unit == u
  }

  predicate Full(q: Quotas, picks: seq<Pick>, u: nat) {
    q.PerUnit? && u in q.limit && q.limit[u] <= |Booked(picks, u)|
  }

  /** Some unit is both the strongest of candidate i and at its quota. */
  predicate HeldBack(pool: seq<Candidate>, w: seq<real>, q: Quotas, picks: seq<Pick>, i: nat)
    requires WellFormed(pool, w) && InPool(pool, picks) && i < |pool|
  {
    exists t :: 0 <= t < |w| && Strongest(pool, w, picks, i, t) && Full(q, picks, t)
  }

  predicate Unpicked(pool: seq<Candidate>, picks: seq<Pick>, i: nat) {
    i < |pool| && forall n :: 0 <= n < |picks| ==> picks[n].index != i
  }

  /** p is the first largest gain among the candidates not held back. */
  ghost predicate PickedNext(pool: seq<Candidate>, w: seq<real>, q: Quotas, picks: seq<Pick>, p: Pick)
    requires WellFormed(pool, w) && InPool(pool, picks)
  {
    && Unpicked(pool, picks, p.index)
    && Strongest(pool, w, picks, p.index, p.unit) && !Full(q, picks, p.unit)
    && p.gain == Sum(Shares(pool, w, picks, p.index)) > 0.0
    && forall j: nat | Unpicked(pool, picks, j) ::
        || Sum(Shares(pool, w, picks, j)) < p.gain
        || (Sum(Shares(pool, w, picks, j)) == p.gain && p.index <= j)
        || HeldBack(pool, w, q, picks, j)
  }

  // ---- Agreement with the selector's own terms -----------------------------------

  lemma {:induction false} ChosenInPool(pool: seq<Candidate>, w: seq<real>, q: Quotas, picks: seq<Pick>)
    requires WellFormed(pool, w) && GreedyRun(pool, w, q, picks)
    ensures InPool(pool, picks) && Distinct(picks)
  {
    if picks != [] {
      LastPick(pool, w, q, picks);
      ChosenInPool(pool, w, q, Front(picks));
      forall n | 0 <= n < |picks| ensures picks[n].index < |pool| {
        assert n < |picks| - 1 ==> Front(picks)[n] == picks[n];
      }
      forall a, b | 0 <= a < b < |picks| ensures picks[a].index != picks[b].index {
        assert Front(picks)[a] == picks[a] && (b < |picks| - 1 ==> Front(picks)[b] == picks[b]);
      }
    }
  }

  predicate Distinct(picks: seq<Pick>) {
    forall a, b :: 0 <= a < b < |picks| ==> picks[a].index != picks[b].index
  }

  lemma {:induction false} ChosenIff(picks: seq<Pick>, i: nat)
    ensures i in Chosen(picks) <==> exists n :: 0 <= n < |picks| && picks[n].index == i
  {
    if picks != [] {
      ChosenIff(Front(picks), i);
      assert forall n :: 0 <= n < |picks| - 1 ==> Front(picks)[n] == picks[n];
    }
  }

  lemma {:induction false} BookedCount(picks: seq<Pick>, u: nat)
    ensures |Booked(picks, u)| == PicksOf(picks, u)
  {
    if picks != [] {
      BookedCount(Front(picks), u);
      var last := |picks| - 1;
      assert Booked(picks, u) == Booked(Front(picks), u) + if picks[last].unit == u then {last} else {};
    }
  }

  lemma {:induction false} LeftIsProduct(pool: seq<Candidate>, w: seq<real>, picks: seq<Pick>, v: nat)
    requires WellFormed(pool, w) && InPool(pool, picks) && Distinct(picks) && v < |w|
    ensures Left(Column(pool, w, v), Chosen(picks), |pool|) == LeftBy(pool, w, picks, v)
  {
    if picks == [] {
      LeftEmpty(Column(pool, w, v), |pool|);
    } else {
      LeftIsProduct(pool, w, Front(picks), v);
      ChosenIff(Front(picks), Last(picks).index);
      LeftInsert(Column(pool, w, v), Chosen(Front(picks)), Last(picks).index, |pool|);
    }
  }

  lemma TermsAreShares(pool: seq<Candidate>, w: seq<real>, picks: seq<Pick>, i: nat)
    requires WellFormed(pool, w) && InPool(pool, picks) && Distinct(picks) && i < |pool|
    ensures TermsFor(pool, w, picks, i) == Shares(pool, w, picks, i)
    ensures Marginal(pool, w, Chosen(picks), i) == Sum(Shares(pool, w, picks, i))
  {
    forall v | 0 <= v < |w| ensures TermsFor(pool, w, picks, i)[v] == Shares(pool, w, picks, i)[v] {
      LeftIsProduct(pool, w, picks, v);
    }
  }

  lemma StrongestIff(pool: seq<Candidate>, w: seq<real>, picks: seq<Pick>, i: nat, t: nat)
    requires WellFormed(pool, w) && InPool(pool, picks) && Distinct(picks) && i < |pool|
    ensures Strongest(pool, w, picks, i, t) <==> t == TopUnit(pool, w, picks, i)
  {
    hide Share, TermsFor;
    TermsAreShares(pool, w, picks, i);
    var top := TopUnit(pool, w, picks, i);
    assert Strongest(pool, w, picks, i, top);
  }

  /**
   * A quota takes a candidate out of the running exactly when the candidate's strongest
   * unit already holds its quota of picks; otherwise it offers the sum of its shares.
   */
  lemma OfferIff(pool: seq<Candidate>, w: seq<real>, q: Quotas, picks: seq<Pick>, i: nat)
    requires WellFormed(pool, w) && InPool(pool, picks) && Distinct(picks) && i < |pool|
    ensures Offer(pool, w, q, picks, i)
         == if HeldBack(pool, w, q, picks, i) then 0.0 else Sum(Shares(pool, w, picks, i))
  {
    hide Share, Shares, TermsFor, Strongest, TopUnit, Marginal;
    var top := TopUnit(pool, w, picks, i);
    TermsAreShares(pool, w, picks, i);
    StrongestIff(pool, w, picks, i, top);
    BookedCount(picks, top);
    forall t | Strongest(pool, w, picks, i, t) ensures t == top {
      StrongestIff(pool, w, picks, i, t);
    }
  }

  lemma StepIff(pool: seq<Candidate>, w: seq<real>, q: Quotas, picks: seq<Pick>, p: Pick)
    requires WellFormed(pool, w) && InPool(pool, picks) && Distinct(picks)
    ensures GreedyStep(pool, w, q, picks, p) <==> PickedNext(pool, w, q, picks, p)
  {
    hide Share, Shares, TermsFor, Strongest, TopUnit, Marginal, Offer, HeldBack, SumTo, Chosen;
    forall j: nat ensures Unpicked(pool, picks, j) <==> j < |pool| && j !in Chosen(picks) {
      ChosenIff(picks, j);
    }
    forall j: nat | j < |pool|
      ensures Offer(pool, w, q, picks, j)
           == if HeldBack(pool, w, q, picks, j) then 0.0 else Sum(Shares(pool, w, picks, j))
    {
      OfferIff(pool, w, q, picks, j);
    }
    if p.index < |pool| {
      StrongestIff(pool, w, picks, p.index, p.unit);
      HeldBackIff(pool, w, q, picks, p.index, p.unit);
    }
  }

  lemma HeldBackIff(pool: seq<Candidate>, w: seq<real>, q: Quotas, picks: seq<Pick>, i: nat, t: nat)
    requires WellFormed(pool, w) && InPool(pool, picks) && Distinct(picks) && i < |pool|
    ensures Strongest(pool, w, picks, i, t) ==> (HeldBack(pool, w, q, picks, i) <==> Full(q, picks, t))
  {
    hide Strongest, TopUnit, Full;
    forall u | Strongest(pool, w, picks, i, u) ensures u == TopUnit(pool, w, picks, i) {
      StrongestIff(pool, w, picks, i, u);
    }
    if Strongest(pool, w, picks, i, t) {
      StrongestRange(pool, w, picks, i, t);
    }
  }

  lemma StrongestRange(pool: seq<Candidate>, w: seq<real>, picks: seq<Pick>, i: nat, t: nat)
    requires WellFormed(pool, w) && InPool(pool, picks) && i < |pool| && Strongest(pool, w, picks, i, t)
    ensures t < |w|
  {
  }

  /** Every pick is the next choice after the picks before it. */
  ghost predicate Chain(pool: seq<Candidate>, w: seq<real>, q: Quotas, picks: seq<Pick>)
    requires WellFormed(pool, w)
  {
    && InPool(pool, picks)
    && forall n {:trigger picks[n]} :: 0 <= n < |picks| ==> PickedNext(pool, w, q, picks[..n], picks[n])
  }

  lemma ChainFront(pool: seq<Candidate>, w: seq<real>, q: Quotas, picks: seq<Pick>)
    requires WellFormed(pool, w) && picks != []
    ensures Chain(pool, w, q, picks)
       <==> && Chain(pool, w, q, Front(picks)) && Last(picks).index < |pool|
            && PickedNext(pool, w, q, Front(picks), Last(picks))
  {
    hide PickedNext;
    forall n | 0 <= n < |picks| - 1 ensures Front(picks)[n] == picks[n] && Front(picks)[..n] == picks[..n] {
    }
  }

  /**
   * The runs of the selector are exactly the sequences in which every pick is booked
   * under the first unit of largest share, that unit has room, and every candidate
   * passed over gains less, gains the same further down the pool, or is held back.
   */
  lemma {:induction false} RunIff(pool: seq<Candidate>, w: seq<real>, q: Quotas, picks: seq<Pick>)
    requires WellFormed(pool, w)
    ensures GreedyRun(pool, w, q, picks) <==> Chain(pool, w, q, picks)
  {
    if picks != [] {
      RunIff(pool, w, q, Front(picks));
      ChainFront(pool, w, q, picks);
      RunFront(pool, w, q, picks);
      if GreedyRun(pool, w, q, Front(picks)) {
        ChosenInPool(pool, w, q, Front(picks));
        StepIff(pool, w, q, Front(picks), Last(picks));
      }
    }
  }

  lemma RunFront(pool: seq<Candidate>, w: seq<real>, q: Quotas, picks: seq<Pick>)
    requires WellFormed(pool, w) && picks != []
    ensures GreedyRun(pool, w, q, picks)
       <==> GreedyRun(pool, w, q, Front(picks)) && GreedyStep(pool, w, q, Front(picks), Last(picks))
  {
  }

  /** A run ended early leaves only candidates without gain and candidates held back by a quota. */
  lemma StoppedIff(pool: seq<Candidate>, w: seq<real>, q: Quotas, k: int, picks: seq<Pick>)
    requires WellFormed(pool, w) && GreedyRun(pool, w, q, picks)
    ensures InPool(pool, picks)
    ensures Stopped(pool, w, q, k, picks)
       <==> || |picks| >= k
            || forall j: nat | Unpicked(pool, picks, j) ::
                HeldBack(pool, w, q, picks, j) || Sum(Shares(pool, w, picks, j)) <= 0.0
  {
    hide Shares, Offer, HeldBack, SumTo, Chosen, GreedyRun;
    ChosenInPool(pool, w, q, picks);
    forall j: nat ensures Unpicked(pool, picks, j) <==> j < |pool| && j !in Chosen(picks) {
      ChosenIff(picks, j);
    }
    forall j: nat | j < |pool|
      ensures Offer(pool, w, q, picks, j)
           == if HeldBack(pool, w, q, picks, j) then 0.0 else Sum(Shares(pool, w, picks, j))
    {
      OfferIff(pool, w, q, picks, j);
    }
  }
}
