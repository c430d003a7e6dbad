/** Finite sums and powers over the reals, shared by the selection and interval proofs. */
module RealArith {

  function Pow(x: real, n: nat): real {
    if n == 0 then 1.0 else x * Pow(x, n - 1)
  }

  /** Sum of the first n entries of a vector. */
  function SumTo(s: seq<real>, n: nat): real
    requires n <= |s|
  {
    if n == 0 then 0.0 else SumTo(s, n - 1) + s[n - 1]
  }

  function Sum(s: seq<real>): real {
    SumTo(s, |s|)
  }

  lemma {:induction false} SumToMonotone(a: seq<real>, b: seq<real>, n: nat)
    requires n <= |a| && n <= |b|
    requires forall u :: 0 <= u < n ==> a[u] <= b[u]
    ensures SumTo(a, n) <= SumTo(b, n)
  {
    if n > 0 {
      SumToMonotone(a, b, n - 1);
    }
  }

  lemma {:induction false} SumToAdds(a: seq<real>, b: seq<real>, c: seq<real>, n: nat)
    requires n <= |a| && n <= |b| && n <= |c|
    requires forall u :: 0 <= u < n ==> c[u] == a[u] + b[u]
    ensures SumTo(c, n) == SumTo(a, n) + SumTo(b, n)
  {
    if n > 0 {
      SumToAdds(a, b, c, n - 1);
    }
  }

  lemma {:induction false} SumToZero(a: seq<real>, n: nat)
    requires n <= |a|
    requires forall u :: 0 <= u < n ==> a[u] == 0.0
    ensures SumTo(a, n) == 0.0
  {
    if n > 0 {
      SumToZero(a, n - 1);
    }
  }

  lemma {:induction false} SumToNonNegative(a: seq<real>, n: nat)
    requires n <= |a|
    requires forall u :: 0 <= u < n ==> 0.0 <= a[u]
    ensures 0.0 <= SumTo(a, n)
  {
    if n > 0 {
      SumToNonNegative(a, n - 1);
    }
  }

  lemma {:induction false} SumToPrefix(a: seq<real>, b: seq<real>, n: nat)
    requires n <= |a| && n <= |b|
    requires forall u :: 0 <= u < n ==> a[u] == b[u]
    ensures SumTo(a, n) == SumTo(b, n)
  {
    if n > 0 {
      SumToPrefix(a, b, n - 1);
    }
  }

  lemma SumAppend(s: seq<real>, x: real)
    ensures Sum(s + [x]) == Sum(s) + x
  {
    SumToPrefix(s, s + [x], |s|);
  }

  lemma PowUnfold(x: real, n: nat)
    ensures Pow(x, 0) == 1.0
    ensures n > 0 ==> Pow(x, n) == x * Pow(x, n - 1)
  {
  }

  lemma {:induction false} PowRange(x: real, n: nat)
    requires 0.0 <= x <= 1.0
    ensures 0.0 <= Pow(x, n) <= 1.0
  {
    if n > 0 {
      PowRange(x, n - 1);
      MulMonotone(x, 1.0, Pow(x, n - 1), 1.0);
    }
  }

  lemma {:induction false} PowMonotone(x: real, y: real, n: nat)
    requires 0.0 <= x <= y
    ensures 0.0 <= Pow(x, n) <= Pow(y, n)
  {
    if n > 0 {
      PowMonotone(x, y, n - 1);
      MulMonotone(x, y, Pow(x, n - 1), Pow(y, n - 1));
    }
  }

  lemma MulMonotone(a: real, b: real, c: real, d: real)
    requires 0.0 <= a <= b && 0.0 <= c <= d
    ensures 0.0 <= a * c <= b * d
  {
    assert a * c <= b * c <= b * d;
  }

  lemma TimesOne(x: real, e: real)
    ensures e == 1.0 ==> x * e == x && e * x == x
  {
  }

  lemma StrictProduct(a: real, b: real)
    ensures 0.0 < a && 0.0 < b ==> 0.0 < a * b
  {
  }

  lemma SignOfProduct(d: real, x: real)
    requires d > 0.0
    ensures d * x <= 0.0 <==> x <= 0.0
    ensures d * x < 0.0 <==> x < 0.0
  {
    if x > 0.0 {
      StrictProduct(d, x);
    } else if x < 0.0 {
      StrictProduct(d, -x);
      assert d * (-x) == -(d * x);
    }
  }
}
