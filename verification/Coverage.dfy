/**
 * Products and sums over a chosen set of positions of a vector: the arithmetic
 * behind the coverage objective, one unit at a time.
 */
module Coverage {
  import opened RealArith

  predicate UnitInterval(v: seq<real>) {
    forall i :: 0 <= i < |v| ==> 0.0 <= v[i] <= 1.0
  }

  /** Product of 1 - v[i] over the positions of s below n. */
  function Left(v: seq<real>, s: set<nat>, n: nat): real
    requires n <= |v|
  {
    if n == 0 then 1.0
    else if n - 1 in s then Left(v, s, n - 1) * (1.0 - v[n - 1])
    else Left(v, s, n - 1)
  }

  /** Sum of v[i] over the positions of s below n. */
  function ChosenSum(v: seq<real>, s: set<nat>, n: nat): real
    requires n <= |v|
  {
    if n == 0 then 0.0
    else if n - 1 in s then ChosenSum(v, s, n - 1) + v[n - 1]
    else ChosenSum(v, s, n - 1)
  }

  lemma {:induction false} LeftRange(v: seq<real>, s: set<nat>, n: nat)
    requires n <= |v| && UnitInterval(v)
    ensures 0.0 <= Left(v, s, n) <= 1.0
  {
    if n > 0 {
      LeftRange(v, s, n - 1);
      MulMonotone(Left(v, s, n - 1), 1.0, 1.0 - v[n - 1], 1.0);
    }
  }

  lemma Shrink(y: real, a: real)
    requires 0.0 <= y && 0.0 <= a
    ensures y * (1.0 - a) <= y
  {
    MulMonotone(0.0, y, 0.0, a);
    assert y * (1.0 - a) == y - y * a;
  }

  /** A larger selection leaves less uncovered. */
  lemma {:induction false} LeftShrinks(v: seq<real>, s: set<nat>, t: set<nat>, n: nat)
    requires n <= |v| && UnitInterval(v) && s <= t
    ensures 0.0 <= Left(v, t, n) <= Left(v, s, n) <= 1.0
  {
    LeftRange(v, s, n);
    LeftRange(v, t, n);
    if n > 0 {
      LeftShrinks(v, s, t, n - 1);
      var x, y := Left(v, s, n - 1), Left(v, t, n - 1);
      if n - 1 in s {
        MulMonotone(y, x, 1.0 - v[n - 1], 1.0 - v[n - 1]);
      } else if n - 1 in t {
        Shrink(y, v[n - 1]);
        assert Left(v, t, n) == y * (1.0 - v[n - 1]);
        assert Left(v, s, n) == x;
      }
    }
  }

  /** Adding one position multiplies the uncovered part by that position's own factor. */
  lemma {:induction false} LeftInsert(v: seq<real>, s: set<nat>, i: nat, n: nat)
    requires i < |v| && n <= |v| && i !in s
    ensures Left(v, s + {i}, n) == if i < n then Left(v, s, n) * (1.0 - v[i]) else Left(v, s, n)
  {
    if n > 0 {
      LeftInsert(v, s, i, n - 1);
      if n - 1 in s && i < n - 1 {
        var x, a, b := Left(v, s, n - 1), 1.0 - v[i], 1.0 - v[n - 1];
        assert (x * a) * b == (x * b) * a;
      }
    }
  }

  lemma {:induction false} LeftEmpty(v: seq<real>, n: nat)
    requires n <= |v|
    ensures Left(v, {}, n) == 1.0
  {
    if n > 0 {
      LeftEmpty(v, n - 1);
    }
  }

  lemma SharedFactor(x: real, y: real, c: real, a: real)
    requires 0.0 <= a <= 1.0 && x - y <= x * c
    ensures x * (1.0 - a) - y * (1.0 - a) <= x * (1.0 - a) * c
  {
    MulMonotone(0.0, 1.0 - a, 0.0, x * c - (x - y));
    assert (1.0 - a) * (x * c - (x - y)) == x * (1.0 - a) * c - (x * (1.0 - a) - y * (1.0 - a));
  }

  lemma NewFactor(x: real, y: real, c: real, a: real)
    requires 0.0 <= a && 0.0 <= y <= x && x - y <= x * c
    ensures x - y * (1.0 - a) <= x * (c + a)
  {
    MulMonotone(a, a, y, x);
    assert x - y * (1.0 - a) == (x - y) + a * y;
    assert x * (c + a) == x * c + a * x;
  }

  lemma LeftUnfold(v: seq<real>, s: set<nat>, n: nat)
    requires n <= |v|
    ensures Left(v, s, n) == if n == 0 then 1.0
      else if n - 1 in s then Left(v, s, n - 1) * (1.0 - v[n - 1]) else Left(v, s, n - 1)
  {
  }

  lemma ChosenUnfold(v: seq<real>, s: set<nat>, n: nat)
    requires n <= |v|
    ensures ChosenSum(v, s, n) == if n == 0 then 0.0
      else if n - 1 in s then ChosenSum(v, s, n - 1) + v[n - 1] else ChosenSum(v, s, n - 1)
  {
  }

  lemma NothingChosen(x: real)
    ensures x - x <= x * 0.0
  {
  }

  lemma EntryRange(v: seq<real>, i: nat)
    requires i < |v| && UnitInterval(v)
    ensures 0.0 <= v[i] <= 1.0
  {
  }

  /** What t adds to s is at most what its new positions add one by one. */
  lemma {:induction false} UnionBound(v: seq<real>, s: set<nat>, t: set<nat>, n: nat)
    requires n <= |v| && UnitInterval(v)
    ensures Left(v, s, n) - Left(v, s + t, n) <= Left(v, s, n) * ChosenSum(v, t - s, n)
  {
    hide *;
    LeftUnfold(v, s, n);
    LeftUnfold(v, s + t, n);
    ChosenUnfold(v, t - s, n);
    if n == 0 {
      NothingChosen(1.0);
    } else {
      UnionBound(v, s, t, n - 1);
      LeftShrinks(v, s, s + t, n - 1);
      EntryRange(v, n - 1);
      if n - 1 in s {
        SharedFactor(Left(v, s, n - 1), Left(v, s + t, n - 1), ChosenSum(v, t - s, n - 1), v[n - 1]);
      } else if n - 1 in t {
        NewFactor(Left(v, s, n - 1), Left(v, s + t, n - 1), ChosenSum(v, t - s, n - 1), v[n - 1]);
      }
    }
  }

  /** k * g, by repeated addition. */
  function Times(k: nat, g: real): real {
    if k == 0 then 0.0 else Times(k - 1, g) + g
  }

  lemma {:induction false} TimesIsProduct(k: nat, g: real)
    ensures Times(k, g) == (k as real) * g
  {
    if k > 0 {
      TimesIsProduct(k - 1, g);
      var j := (k - 1) as real;
      assert (k as real) * g == (j + 1.0) * g == j * g + g;
    }
  }

  lemma {:induction false} TimesGrows(j: nat, k: nat, g: real)
    requires j <= k && 0.0 <= g
    ensures Times(j, g) <= Times(k, g)
  {
    if j < k {
      TimesGrows(j, k - 1, g);
    }
  }

  function Below(d: set<nat>, n: nat): set<nat> {
    set i | i in d && i < n
  }

  lemma BelowNext(d: set<nat>, n: nat)
    requires n > 0
    ensures |Below(d, n)| == |Below(d, n - 1)| + if n - 1 in d then 1 else 0
  {
    if n - 1 in d {
      assert Below(d, n) == Below(d, n - 1) + {n - 1};
    } else {
      assert Below(d, n) == Below(d, n - 1);
    }
  }

  lemma TimesNext(k: nat, g: real)
    ensures Times(k + 1, g) == Times(k, g) + g && Times(0, g) == 0.0
  {
  }

  lemma BelowNothing(d: set<nat>)
    ensures Below(d, 0) == {}
  {
  }

  /** If no chosen entry exceeds g, their sum is at most g times their number. */
  lemma {:induction false} ChosenSumBound(v: seq<real>, d: set<nat>, g: real, n: nat)
    requires n <= |v|
    requires forall i :: i in d && i < n ==> v[i] <= g
    ensures ChosenSum(v, d, n) <= Times(|Below(d, n)|, g)
  {
    hide *;
    ChosenUnfold(v, d, n);
    if n == 0 {
      BelowNothing(d);
      TimesNext(0, g);
    } else {
      ChosenSumBound(v, d, g, n - 1);
      BelowNext(d, n);
      TimesNext(|Below(d, n - 1)|, g);
    }
  }
}
