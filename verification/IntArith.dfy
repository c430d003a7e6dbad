/** Integer products, quotients, wrapped indices and set sizes. */
module IntArith {
  lemma MulOrder(a: nat, b: nat, c: nat)
    requires a <= b
    ensures a * c <= b * c
  {
    assert b * c == a * c + (b - a) * c;
  }

  lemma NextMultiple(e: nat, c: nat)
    ensures (e + 1) * c == e * c + c
  {
  }

  lemma DivideBound(i: nat, m: nat, last: nat)
    requires last > 0 && i < m * last
    ensures i / last < m && i == (i / last) * last + i % last && i % last < last
  {
    var q := i / last;
    assert i == q * last + i % last;
    if q >= m {
      MulOrder(m, q, last);
      assert false;
    }
  }

  lemma DivideBack(e: nat, last: nat, x: nat)
    requires x < last
    ensures (e * last + x) / last == e && (e * last + x) % last == x
  {
    var t := e * last + x;
    var q, r := t / last, t % last;
    assert t == q * last + r;
    NextMultiple(q, last);
    NextMultiple(e, last);
    if q < e {
      MulOrder(q + 1, e, last);
      assert false;
    } else if q > e {
      MulOrder(e + 1, q, last);
      assert false;
    }
  }

  /** A wrapped index less than one turn ahead. */
  lemma WrapIndex(n: nat, k: nat, size: nat)
    requires n < size && k < size
    ensures (n + k) % size == if n + k < size then n + k else n + k - size
  {
    if n + k < size {
      DivideBack(0, size, n + k);
    } else {
      DivideBack(1, size, n + k - size);
    }
  }

  lemma SubsetSize<T>(a: set<T>, b: set<T>)
    requires a <= b
    ensures |a| <= |b|
  {
    assert b == a + (b - a);
  }

  /** A set that has at most one element more than another. */
  lemma OneMore(s: set<nat>, t: set<nat>, n: nat, more: bool)
    requires n !in t && forall k: nat :: k in s <==> k in t || (more && k == n)
    ensures |s| == |t| + if more then 1 else 0
  {
    assert s == t + if more then {n} else {};
  }
}
