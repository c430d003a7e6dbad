/**
 * The Wilson score interval of the campaign driver and of the evaluation tool.
 * A square root is a witness: a non-negative number with the right square.
 */
module Wilson {
  import opened RealArith

  datatype Interval = Interval(lo: real, point: real, hi: real)

  function Max(a: real, b: real): real { if a >= b then a else b }

  function Min(a: real, b: real): real { if a <= b then a else b }

  function Prod(a: real, b: real): real { a * b }

  function Square(x: real): real { Prod(x, x) }

  function Proportion(k: nat, n: nat): real
    requires n > 0
  {
    (k as real) / (n as real)
  }

  function Radicand(p: real, n: real, z: real): real
    requires n > 0.0
  {
    p * (1.0 - p) / n + Square(z) / (4.0 * n * n)
  }

  /** r is the square root the code takes for k successes in n trials. */
  predicate IsRoot(r: real, k: nat, n: nat, z: real)
    requires n > 0
  {
    0.0 <= r && Square(r) == Radicand(Proportion(k, n), n as real, z)
  }

  function Denom(n: real, z: real): real
    requires n > 0.0
  {
    1.0 + Square(z) / n
  }

  /** z*z/n, the scale of the whole computation. */
  function Scale(n: real, z: real): real
    requires n > 0.0
  {
    Square(z) / n
  }

  function Center(p: real, n: real, z: real): real
    requires n > 0.0 && Denom(n, z) != 0.0
  {
    (p + Square(z) / (2.0 * n)) / Denom(n, z)
  }

  function Half(r: real, n: real, z: real): real
    requires n > 0.0 && Denom(n, z) != 0.0
  {
    z * r / Denom(n, z)
  }

  function Low(k: nat, n: nat, z: real, r: real): real
    requires n > 0 && Denom(n as real, z) != 0.0
  {
    Center(Proportion(k, n), n as real, z) - Half(r, n as real, z)
  }

  function High(k: nat, n: nat, z: real, r: real): real
    requires n > 0 && Denom(n as real, z) != 0.0
  {
    Center(Proportion(k, n), n as real, z) + Half(r, n as real, z)
  }

  /** The evaluation tool's interval. */
  function Evaluated(k: nat, n: nat, z: real, r: real): Interval
    requires n > 0 ==> Denom(n as real, z) != 0.0
  {
    if n == 0 then Interval(0.0, 0.0, 0.0)
    else Interval(Max(0.0, Low(k, n, z, r)), Proportion(k, n), Min(1.0, High(k, n, z, r)))
  }

  /** The campaign driver's interval, with its rule-of-three branch for zero successes. */
  function Campaign(k: nat, n: nat, z: real, r: real): Interval
    requires n > 0 ==> Denom(n as real, z) != 0.0
  {
    if n == 0 then Interval(0.0, 0.0, 0.0)
    else if k == 0 then Interval(0.0, 0.0, Min(1.0, 3.0 / (n as real)))
    else Evaluated(k, n, z, r)
  }

  /** The score test: would k successes in n be within z standard errors if the true rate were q? */
  predicate ScoreTest(k: nat, n: nat, z: real, q: real)
    requires n > 0
  {
    Prod(n as real, Square(Proportion(k, n) - q)) <= Prod(Square(z), Prod(q, 1.0 - q))
  }

  // ---- Scalar algebra ----------------------------------------------------------------

  lemma SquareNegated(x: real)
    ensures Square(-x) == Square(x)
  {
  }

  lemma SquareSign(x: real)
    ensures 0.0 <= Square(x) && (x != 0.0 ==> 0.0 < Square(x))
  {
    if x < 0.0 {
      SquareNegated(x);
      SquarePositive(-x);
    } else if x > 0.0 {
      SquarePositive(x);
    }
  }

  lemma ProdSign(a: real, b: real)
    ensures 0.0 < a && 0.0 < b ==> 0.0 < Prod(a, b)
    ensures 0.0 <= a && 0.0 <= b ==> 0.0 <= Prod(a, b)
  {
    if 0.0 < a && 0.0 < b {
      StrictProduct(a, b);
    }
  }

  lemma SquarePositive(x: real)
    requires x > 0.0
    ensures Square(x) > 0.0
  {
    hide Prod;
    ProdSign(x, x);
  }

  lemma Cancel(d: real, x: real, y: real)
    requires d > 0.0 && d * x == d * y
    ensures x == y
  {
    assert d * (x - y) == 0.0;
    SignOfProduct(d, x - y);
    SignOfProduct(d, y - x);
    assert d * (y - x) == 0.0;
  }

  /** What a product with a positive factor says about the other factor. */
  lemma FactorRange(q: real, d: real, x: real)
    requires d > 0.0 && q * d == x
    ensures (0.0 < x ==> 0.0 < q) && (0.0 <= x ==> 0.0 <= q)
    ensures (x < d ==> q < 1.0) && (x <= d ==> q <= 1.0)
  {
    SignOfProduct(d, -q);
    SignOfProduct(d, q - 1.0);
    assert d * (-q) == -x && d * (q - 1.0) == x - d;
  }

  lemma DifferenceOfSquares(a: real, b: real)
    ensures Prod(a - b, a + b) == Square(a) - Square(b)
  {
  }

  lemma SquareBeyond(x: real, h: real)
    requires 0.0 <= h < x
    ensures Square(x) > Square(h)
  {
    hide Prod, Square;
    ProdSign(x - h, x + h);
    DifferenceOfSquares(x, h);
  }

  lemma SquareWithin(x: real, h: real)
    requires -h <= x <= h
    ensures Square(x) <= Square(h)
  {
    hide Prod, Square;
    ProdSign(h - x, h + x);
    DifferenceOfSquares(h, x);
  }

  lemma SquareOrder(x: real, h: real)
    requires 0.0 <= h
    ensures Square(x) <= Square(h) <==> -h <= x <= h
  {
    hide Square;
    if -h <= x <= h {
      SquareWithin(x, h);
    } else if x > h {
      SquareBeyond(x, h);
    } else {
      SquareBeyond(-x, h);
      SquareNegated(x);
    }
  }

  lemma SquareExpand(a: real, b: real)
    ensures Square(a + b) == Square(a) + 2.0 * (a * b) + Square(b)
    ensures Square(a * b) == Square(a) * Square(b)
    ensures Square(a) == a * a
  {
  }

  /** With s = z*z/n: the constant term of the quadratic d*(q-c)^2 - d*h^2 is p^2. */
  lemma ConstantTerm(p: real, s: real, d: real, c: real, h: real)
    requires s > 0.0 && d == 1.0 + s && d * c == p + s / 2.0
    requires Square(d * h) == s * (p * (1.0 - p)) + Square(s) / 4.0
    ensures d * (Square(c) - Square(h)) == Square(p)
  {
    hide Square;
    ScaleSquares(d, c, h);
    SquareSum(p, s);
    ConstantArithmetic(p, s, d, d * (Square(c) - Square(h)));
  }

  lemma ScaleSquares(d: real, c: real, h: real)
    ensures d * (d * (Square(c) - Square(h))) == Square(d * c) - Square(d * h)
  {
  }

  lemma SquareSum(p: real, s: real)
    ensures Square(p + s / 2.0) == Square(p) + s * p + Square(s) / 4.0
  {
  }

  lemma ConstantArithmetic(p: real, s: real, d: real, x: real)
    requires d == 1.0 + s && s > 0.0
    requires d * x == Square(p) + s * p + Square(s) / 4.0 - (s * (p * (1.0 - p)) + Square(s) / 4.0)
    ensures x == Square(p)
  {
    assert s * (p * (1.0 - p)) == s * p - s * Square(p);
    assert d * Square(p) == Square(p) + s * Square(p);
    Cancel(d, x, Square(p));
  }

  lemma Quadratic(p: real, s: real, d: real, c: real, h: real, q: real)
    requires s > 0.0 && d == 1.0 + s && d * c == p + s / 2.0
    requires Square(d * h) == s * (p * (1.0 - p)) + Square(s) / 4.0
    ensures Square(p - q) - s * (q * (1.0 - q)) == d * (Square(q - c) - Square(h))
  {
    ConstantTerm(p, s, d, c, h);
    QuadraticExpand(p, s, d, c, q, Square(h));
  }

  lemma QuadraticExpand(p: real, s: real, d: real, c: real, q: real, hh: real)
    requires d == 1.0 + s && d * c == p + s / 2.0
    requires d * (Square(c) - hh) == Square(p)
    ensures Square(p - q) - s * (q * (1.0 - q)) == d * (Square(q - c) - hh)
  {
    hide Square;
    ExpandLeft(p, s, q);
    ExpandRight(d, c, q, hh);
    ExpandMiddle(p, s, q, d * c);
    assert d * Square(q) == Square(q) + s * Square(q);
  }

  lemma ExpandLeft(p: real, s: real, q: real)
    ensures Square(p - q) - s * (q * (1.0 - q)) == Square(p) - 2.0 * (p * q) + Square(q) - s * q + s * Square(q)
  {
  }

  lemma ExpandRight(d: real, c: real, q: real, hh: real)
    ensures d * (Square(q - c) - hh) == d * Square(q) - 2.0 * ((d * c) * q) + d * (Square(c) - hh)
  {
  }

  lemma ExpandMiddle(p: real, s: real, q: real, x: real)
    ensures x == p + s / 2.0 ==> 2.0 * (x * q) == 2.0 * (p * q) + s * q
  {
  }

  /** The scaled interval c -+ h holds exactly the q that pass the scaled score test. */
  lemma ScaledInversion(p: real, s: real, d: real, c: real, h: real, q: real)
    requires s > 0.0 && d == 1.0 + s && 0.0 <= h && Prod(d, c) == p + s / 2.0
    requires Square(Prod(d, h)) == Prod(s, Prod(p, 1.0 - p)) + Square(s) / 4.0
    ensures c - h <= q <= c + h <==> Square(p - q) <= Prod(s, Prod(q, 1.0 - q))
  {
    hide Square;
    Quadratic(p, s, d, c, h, q);
    SignOfProduct(d, Square(q - c) - Square(h));
    SquareOrder(q - c, h);
  }

  // ---- From the code's expressions to the scaled form ------------------------------------

  lemma ScaleFacts(n: real, z: real)
    requires n > 0.0 && z > 0.0
    ensures Scale(n, z) > 0.0 && Denom(n, z) == 1.0 + Scale(n, z)
    ensures n * Scale(n, z) == Square(z)
  {
    hide Square;
    SquareSign(z);
    FactorRange(Scale(n, z), n, Square(z));
  }

  lemma HalfScale(y: real, n: real)
    requires n > 0.0
    ensures y / (2.0 * n) == y / n / 2.0
  {
    var u, t := y / n, y / (2.0 * n);
    assert u * n == y && t * (2.0 * n) == y;
    assert n * (2.0 * t) == n * u;
    Cancel(n, 2.0 * t, u);
  }

  lemma CenterScaled(p: real, n: real, z: real)
    requires n > 0.0 && z > 0.0
    ensures Denom(n, z) > 1.0
    ensures Prod(Denom(n, z), Center(p, n, z)) == p + Scale(n, z) / 2.0
  {
    hide Denom, Square;
    ScaleFacts(n, z);
    HalfScale(Square(z), n);
  }

  /** y*(w+t) for w = v/n and t = y/(4 n n), in terms of u = y/n. */
  lemma RadicandScalar(y: real, v: real, n: real, u: real, w: real, t: real)
    requires n > 0.0 && u * n == y && w * n == v && t * (4.0 * n * n) == y
    ensures y * (w + t) == u * v + Square(u) / 4.0
  {
    assert y * w == u * v by {
      assert (u * n) * w == u * (w * n);
    }
    assert n * (n * Square(u)) == n * (n * (4.0 * (y * t))) by {
      assert (u * n) * (u * n) == n * (n * Square(u));
      assert y * (t * (4.0 * n * n)) == n * (n * (4.0 * (y * t)));
    }
    Cancel(n, n * Square(u), n * (4.0 * (y * t)));
    Cancel(n, Square(u), 4.0 * (y * t));
  }

  lemma RadicandScaled(p: real, n: real, z: real)
    requires n > 0.0
    ensures Square(z) * Radicand(p, n, z) == Scale(n, z) * (p * (1.0 - p)) + Square(Scale(n, z)) / 4.0
  {
    hide Square;
    var y, v := Square(z), p * (1.0 - p);
    Divisions(y, v, n);
    RadicandScalar(y, v, n, y / n, v / n, y / (4.0 * n * n));
  }

  lemma Divisions(y: real, v: real, n: real)
    requires n > 0.0
    ensures n * n > 0.0
    ensures y / n * n == y && v / n * n == v && y / (4.0 * n * n) * (4.0 * n * n) == y
  {
    StrictProduct(n, n);
    assert 4.0 * n * n > 0.0;
  }

  lemma HalfScaled(p: real, r: real, n: real, z: real)
    requires n > 0.0 && z > 0.0 && 0.0 <= r && Square(r) == Radicand(p, n, z)
    ensures Denom(n, z) > 1.0 && 0.0 <= Half(r, n, z)
    ensures Square(Prod(Denom(n, z), Half(r, n, z)))
         == Prod(Scale(n, z), Prod(p, 1.0 - p)) + Square(Scale(n, z)) / 4.0
  {
    hide Square, Radicand, Denom, Scale;
    ScaleFacts(n, z);
    RadicandScaled(p, n, z);
    MulMonotone(0.0, z, 0.0, r);
    assert Half(r, n, z) * Denom(n, z) == z * r;
    FactorRange(Half(r, n, z), Denom(n, z), z * r);
    SquareExpand(z, r);
    assert Prod(Denom(n, z), Half(r, n, z)) == z * r;
  }

  lemma TestScaled(n: real, s: real, y: real, a: real, b: real)
    requires n > 0.0 && n * s == y
    ensures Prod(n, a) <= Prod(y, b) <==> a <= Prod(s, b)
  {
    assert n * (a - s * b) == n * a - y * b by {
      assert n * (s * b) == (n * s) * b;
    }
    SignOfProduct(n, a - s * b);
  }

  /** The unclamped interval inverts the score test exactly. */
  lemma ScoreInversion(k: nat, n: nat, z: real, r: real, q: real)
    requires n > 0 && z > 0.0 && IsRoot(r, k, n, z)
    ensures Denom(n as real, z) > 1.0
    ensures Low(k, n, z, r) <= q <= High(k, n, z, r) <==> ScoreTest(k, n, z, q)
  {
    hide Center, Half, Radicand, Denom, Proportion, Square, Scale, Prod;
    ScaleFacts(n as real, z);
    CenterScaled(Proportion(k, n), n as real, z);
    HalfScaled(Proportion(k, n), r, n as real, z);
    ScaledInversion(Proportion(k, n), Scale(n as real, z), Denom(n as real, z),
                    Center(Proportion(k, n), n as real, z), Half(r, n as real, z), q);
    TestScaled(n as real, Scale(n as real, z), Square(z), Square(Proportion(k, n) - q), Prod(q, 1.0 - q));
  }

  // ---- Range, clamps ------------------------------------------------------------------------

  lemma ProportionRange(k: nat, n: nat)
    requires n > 0 && k <= n
    ensures 0.0 <= Proportion(k, n) <= 1.0
    ensures k < n ==> Proportion(k, n) < 1.0
    ensures Proportion(k, n) * (n as real) == k as real
  {
    FactorRange(Proportion(k, n), n as real, k as real);
  }

  lemma ProdFactor(d: real, x: real)
    requires d > 0.0
    ensures Prod(d, x) >= 0.0 ==> x >= 0.0
  {
    SignOfProduct(d, x);
  }

  lemma Outside(q: real)
    ensures Prod(q, 1.0 - q) >= 0.0 ==> 0.0 <= q <= 1.0
  {
    if q < 0.0 {
      StrictProduct(-q, 1.0 - q);
      assert (-q) * (1.0 - q) == -(q * (1.0 - q));
    } else if q > 1.0 {
      StrictProduct(q, q - 1.0);
      assert q * (q - 1.0) == -(q * (1.0 - q));
    }
  }

  /** Only probabilities can pass the score test. */
  lemma PassingRange(k: nat, n: nat, z: real, q: real)
    requires n > 0 && z > 0.0 && ScoreTest(k, n, z, q)
    ensures 0.0 <= q <= 1.0
  {
    hide Proportion, Square, Prod;
    SquareSign(z);
    SquareSign(Proportion(k, n) - q);
    ProdSign(n as real, Square(Proportion(k, n) - q));
    ProdFactor(Square(z), Prod(q, 1.0 - q));
    Outside(q);
  }

  /** The observed proportion always passes. */
  lemma ProportionPasses(k: nat, n: nat, z: real)
    requires n > 0 && k <= n && z > 0.0
    ensures ScoreTest(k, n, z, Proportion(k, n))
  {
    hide Proportion, Square, Prod;
    ProportionRange(k, n);
    SquareSign(z);
    ProdSign(Proportion(k, n), 1.0 - Proportion(k, n));
    ProdSign(Square(z), Prod(Proportion(k, n), 1.0 - Proportion(k, n)));
    NoDistance(n as real, Proportion(k, n));
  }

  lemma NoDistance(n: real, p: real)
    ensures Prod(n, Square(p - p)) == 0.0
  {
  }

  /** In exact arithmetic the clamps never change a value. */
  lemma ClampsNeverBind(k: nat, n: nat, z: real, r: real)
    requires n > 0 && k <= n && z > 0.0 && IsRoot(r, k, n, z)
    ensures Denom(n as real, z) > 1.0
    ensures 0.0 <= Low(k, n, z, r) <= Proportion(k, n) <= High(k, n, z, r) <= 1.0
    ensures Evaluated(k, n, z, r) == Interval(Low(k, n, z, r), Proportion(k, n), High(k, n, z, r))
  {
    hide Low, High, Denom, Proportion, ScoreTest, IsRoot;
    var p := Proportion(k, n);
    ProportionPasses(k, n, z);
    ScoreInversion(k, n, z, r, p);
    ScoreInversion(k, n, z, r, Low(k, n, z, r));
    PassingRange(k, n, z, Low(k, n, z, r));
    ScoreInversion(k, n, z, r, High(k, n, z, r));
    PassingRange(k, n, z, High(k, n, z, r));
  }

  // ---- Symmetry and monotonicity ---------------------------------------------------------

  lemma ProportionComplement(k: nat, n: nat)
    requires n > 0 && k <= n
    ensures Proportion(n - k, n) == 1.0 - Proportion(k, n)
  {
    Reflect(Proportion(k, n), Proportion(n - k, n), n as real, k as real);
  }

  lemma Reflect(a: real, b: real, m: real, k: real)
    requires m > 0.0 && a * m == k && b * m == m - k
    ensures b == 1.0 - a
  {
    assert m * (b - (1.0 - a)) == 0.0;
    SignOfProduct(m, b - (1.0 - a));
    SignOfProduct(m, (1.0 - a) - b);
    assert m * ((1.0 - a) - b) == 0.0;
  }

  lemma RadicandComplement(p: real, n: real, z: real)
    requires n > 0.0
    ensures Radicand(1.0 - p, n, z) == Radicand(p, n, z)
  {
    hide Square;
    assert (1.0 - p) * (1.0 - (1.0 - p)) == p * (1.0 - p);
  }

  lemma CenterComplement(p: real, n: real, z: real)
    requires n > 0.0 && z > 0.0
    ensures Denom(n, z) > 1.0
    ensures Center(1.0 - p, n, z) == 1.0 - Center(p, n, z)
  {
    hide Center, Denom, Scale, Square;
    ScaleFacts(n, z);
    CenterScaled(p, n, z);
    CenterScaled(1.0 - p, n, z);
    CenterReflects(Denom(n, z), Center(p, n, z), Center(1.0 - p, n, z), p, Scale(n, z));
  }

  lemma CenterReflects(d: real, a: real, b: real, p: real, s: real)
    requires d > 0.0 && d == 1.0 + s && Prod(d, a) == p + s / 2.0 && Prod(d, b) == 1.0 - p + s / 2.0
    ensures b == 1.0 - a
  {
    assert d * (1.0 - a) == d - d * a;
    Cancel(d, b, 1.0 - a);
  }

  /** The interval for n - k successes is the mirror image of the interval for k. */
  lemma Complement(k: nat, n: nat, z: real, r: real)
    requires n > 0 && k <= n && z > 0.0 && IsRoot(r, k, n, z)
    ensures Denom(n as real, z) > 1.0 && IsRoot(r, n - k, n, z)
    ensures Low(n - k, n, z, r) == 1.0 - High(k, n, z, r)
    ensures High(n - k, n, z, r) == 1.0 - Low(k, n, z, r)
  {
    hide Center, Half, Radicand, Denom, Proportion, Square;
    ProportionComplement(k, n);
    RadicandComplement(Proportion(k, n), n as real, z);
    CenterComplement(Proportion(k, n), n as real, z);
  }

  /** A closer proportion passes every test at q that a farther one on the same side passes. */
  lemma CloserPasses(j: nat, k: nat, n: nat, z: real, q: real)
    requires n > 0 && j <= k
    ensures ScoreTest(k, n, z, q) && q <= Proportion(j, n) ==> ScoreTest(j, n, z, q)
  {
    hide Proportion, Square, Prod;
    ProportionMonotone(j, k, n);
    if q <= Proportion(j, n) {
      SquareWithin(Proportion(j, n) - q, Proportion(k, n) - q);
      ProdMonotone(n as real, Square(Proportion(j, n) - q), Square(Proportion(k, n) - q));
    }
  }

  lemma ProdMonotone(n: real, a: real, b: real)
    requires 0.0 <= n && a <= b
    ensures Prod(n, a) <= Prod(n, b)
  {
    MulMonotone(0.0, n, 0.0, b - a);
    assert n * (b - a) == n * b - n * a;
  }

  lemma ProportionMonotone(j: nat, k: nat, n: nat)
    requires n > 0 && j <= k
    ensures Proportion(j, n) <= Proportion(k, n)
  {
    var a, b, m := Proportion(j, n), Proportion(k, n), n as real;
    assert a * m == j as real && b * m == k as real;
    SignOfProduct(m, a - b);
    assert m * (a - b) == (j as real) - (k as real);
  }

  lemma LowMonotone(j: nat, k: nat, n: nat, z: real, rj: real, rk: real)
    requires n > 0 && j <= k <= n && z > 0.0 && IsRoot(rj, j, n, z) && IsRoot(rk, k, n, z)
    ensures Denom(n as real, z) > 1.0
    ensures Low(j, n, z, rj) <= Low(k, n, z, rk)
  {
    hide Low, High, Denom, Proportion, ScoreTest, IsRoot;
    ClampsNeverBind(j, n, z, rj);
    ClampsNeverBind(k, n, z, rk);
    var q := Low(k, n, z, rk);
    if q < Proportion(j, n) {
      ScoreInversion(k, n, z, rk, q);
      CloserPasses(j, k, n, z, q);
      ScoreInversion(j, n, z, rj, q);
    }
  }

  /** Both reported endpoints are nondecreasing in the number of successes. */
  lemma EndpointsMonotone(j: nat, k: nat, n: nat, z: real, rj: real, rk: real)
    requires n > 0 && j <= k <= n && z > 0.0 && IsRoot(rj, j, n, z) && IsRoot(rk, k, n, z)
    ensures Denom(n as real, z) > 1.0
    ensures Evaluated(j, n, z, rj).lo <= Evaluated(k, n, z, rk).lo
    ensures Evaluated(j, n, z, rj).hi <= Evaluated(k, n, z, rk).hi
  {
    hide Low, High, Denom, Proportion, IsRoot;
    ClampsNeverBind(j, n, z, rj);
    ClampsNeverBind(k, n, z, rk);
    LowMonotone(j, k, n, z, rj, rk);
    Complement(j, n, z, rj);
    Complement(k, n, z, rk);
    LowMonotone(n - k, n - j, n, z, rk, rj);
  }

  // ---- Zero successes: where the two tools part ---------------------------------------------

  const Z95: real := 1.96

  lemma ZeroTest(n: nat, z: real, q: real)
    requires n > 0
    ensures ScoreTest(0, n, z, q) <==> Prod(q, ((n as real) + Square(z)) * q - Square(z)) <= 0.0
  {
    hide Square;
    assert Proportion(0, n) == 0.0;
    SquareNegated(q);
    ZeroArithmetic(n as real, Square(z), q);
  }

  lemma ZeroArithmetic(n: real, y: real, q: real)
    ensures Prod(n, Square(q)) - Prod(y, Prod(q, 1.0 - q)) == Prod(q, (n + y) * q - y)
  {
  }

  lemma ZeroRootPasses(n: nat, z: real) returns (q: real)
    requires n > 0 && z > 0.0
    ensures q > 0.0 && ((n as real) + Square(z)) * q == Square(z) && ScoreTest(0, n, z, q)
  {
    hide Square, Prod, ScoreTest;
    SquareSign(z);
    q := Square(z) / ((n as real) + Square(z));
    FactorRange(q, (n as real) + Square(z), Square(z));
    ZeroTest(n, z, q);
    VanishingFactor(q);
  }

  lemma ZeroPassBound(n: nat, z: real, h: real, q: real)
    requires n > 0 && z > 0.0 && h > 0.0 && ScoreTest(0, n, z, h)
    requires ((n as real) + Square(z)) * q == Square(z)
    ensures h <= q
  {
    hide Square, Prod, ScoreTest;
    SquareSign(z);
    ZeroTest(n, z, h);
    PositiveFactor(h, ((n as real) + Square(z)) * h - Square(z));
    FactorOrder((n as real) + Square(z), h, q, Square(z));
  }

  lemma FactorOrder(t: real, h: real, q: real, y: real)
    requires t > 0.0 && t * h - y <= 0.0 && t * q == y
    ensures h <= q
  {
    SignOfProduct(t, h - q);
    assert t * (h - q) == t * h - t * q;
  }

  /** With no successes the upper endpoint is z*z / (n + z*z). */
  lemma ZeroSuccesses(n: nat, z: real, r: real)
    requires n > 0 && z > 0.0 && IsRoot(r, 0, n, z)
    ensures Denom(n as real, z) > 1.0
    ensures ((n as real) + Square(z)) * Evaluated(0, n, z, r).hi == Square(z)
    ensures Evaluated(0, n, z, r).lo == 0.0
  {
    hide Low, High, Denom, IsRoot, ScoreTest, Square, Proportion;
    NoProportion(n);
    ClampsNeverBind(0, n, z, r);
    var q := ZeroRootPasses(n, z);
    ScoreInversion(0, n, z, r, q);
    ScoreInversion(0, n, z, r, High(0, n, z, r));
    ZeroPassBound(n, z, High(0, n, z, r), q);
    assert Evaluated(0, n, z, r).hi == q;
  }

  lemma NoProportion(n: nat)
    ensures n > 0 ==> Proportion(0, n) == 0.0
  {
  }

  lemma VanishingFactor(q: real)
    ensures Prod(q, 0.0) == 0.0
  {
  }

  lemma PositiveFactor(h: real, x: real)
    ensures h > 0.0 && Prod(h, x) <= 0.0 ==> x <= 0.0
  {
    if h > 0.0 {
      SignOfProduct(h, x);
    }
  }

  lemma ThreeOver(n: nat)
    requires n > 0
    ensures 3.0 / (n as real) * (n as real) == 3.0
    ensures n <= 3 ==> 3.0 / (n as real) >= 1.0
    ensures n > 3 ==> 0.0 < 3.0 / (n as real) < 1.0
  {
    var q, m := 3.0 / (n as real), n as real;
    assert q * m == 3.0;
    FactorRange(q, m, 3.0);
    SignOfProduct(m, 1.0 - q);
    assert m * (1.0 - q) == m - 3.0;
  }

  /**
   * The rule of three against the interval it replaces, at the tools' z of 1.96: the
   * campaign driver's bound is the lower one exactly from 14 trials on, never equal.
   */
  lemma RuleOfThreeOrder(n: nat, r: real)
    requires n > 0 && IsRoot(r, 0, n, Z95)
    ensures Denom(n as real, Z95) > 1.0
    ensures Campaign(0, n, Z95, r).hi != Evaluated(0, n, Z95, r).hi
    ensures Campaign(0, n, Z95, r).hi < Evaluated(0, n, Z95, r).hi <==> n >= 14
  {
    assert Square(Z95) == 3.8416;
    hide Denom, IsRoot, Square, Evaluated;
    ZeroSuccesses(n, Z95, r);
    ThreeOver(n);
    var h, q, m := Evaluated(0, n, Z95, r).hi, 3.0 / (n as real), n as real;
    assert (m + 3.8416) * h == 3.8416;
    if n <= 3 {
      SignOfProduct(m + 3.8416, h - 1.0);
      assert (m + 3.8416) * (h - 1.0) == -m;
    } else {
      ThreeAgainst(m, m + 3.8416, h, q);
      assert (m * 0.8416 - 11.5248 == 0.0) ==> 8416 * n == 115248;
    }
  }

  lemma ThreeAgainst(m: real, t: real, h: real, q: real)
    requires m > 0.0 && t == m + 3.8416 && t * h == 3.8416 && q * m == 3.0
    ensures q < h <==> m * 0.8416 - 11.5248 > 0.0
    ensures q == h <==> m * 0.8416 - 11.5248 == 0.0
  {
    assert t * (h - q) == 3.8416 - t * q;
    assert m * (t * q) == 3.0 * t by {
      assert m * (t * q) == t * (q * m);
    }
    var x := 3.8416 - t * q;
    assert m * x == m * 0.8416 - 11.5248 by {
      assert m * (3.8416 - t * q) == 3.8416 * m - m * (t * q);
    }
    SignOfProduct(m, x);
    SignOfProduct(m, -x);
    assert m * (-x) == -(m * x);
    SignOfProduct(t, h - q);
    SignOfProduct(t, q - h);
    assert t * (q - h) == -x;
  }

  /** The evaluation tool's claim to be the campaign driver's formula holds unless nothing was observed. */
  lemma SameImplementation(k: nat, n: nat, r: real)
    requires n > 0 ==> IsRoot(r, k, n, Z95)
    ensures n > 0 ==> Denom(n as real, Z95) > 1.0
    ensures Campaign(k, n, Z95, r) == Evaluated(k, n, Z95, r) <==> (k > 0 || n == 0)
  {
    hide Denom, IsRoot, Low, High, Square, Proportion;
    if n > 0 {
      ScaleFacts(n as real, Z95);
      if k == 0 {
        RuleOfThreeOrder(n, r);
      }
    }
  }

  lemma OneTest(n: nat, q: real)
    requires n > 0 && q * (n as real) == 3.0
    ensures ScoreTest(1, n, Z95, q) <==> 4.0 * (n as real) <= 11.5248 * ((n as real) - 3.0)
  {
    assert Square(Z95) == 3.8416;
    hide Square, Prod;
    assert Proportion(1, n) * (n as real) == 1.0;
    hide Proportion;
    OneArithmetic(n as real, Proportion(1, n), q);
  }

  lemma OneArithmetic(m: real, p: real, q: real)
    requires m > 0.0 && p * m == 1.0 && q * m == 3.0
    ensures Prod(m, Square(p - q)) <= Prod(3.8416, Prod(q, 1.0 - q)) <==> 4.0 * m <= 11.5248 * (m - 3.0)
  {
    Cancel(m, q, 3.0 * p);
    FactorRange(p, m, 1.0);
    assert Prod(m, Square(p - q)) == 4.0 * p by {
      assert Square(p - q) == 4.0 * (p * p);
      assert m * (4.0 * (p * p)) == 4.0 * ((p * m) * p);
    }
    var x := 4.0 - 11.5248 * (1.0 - 3.0 * p);
    assert 4.0 * p - Prod(3.8416, Prod(q, 1.0 - q)) == p * x by {
      assert Prod(q, 1.0 - q) == 3.0 * (p * (1.0 - 3.0 * p));
    }
    SignOfProduct(p, x);
    SignOfProduct(m, x);
    assert m * x == 4.0 * m - 11.5248 * (m - 3.0) by {
      assert m * (1.0 - 3.0 * p) == m - 3.0 * (p * m);
    }
  }

  lemma CertainTest(n: nat)
    requires n > 0
    ensures ScoreTest(1, n, Z95, 1.0) <==> n == 1
  {
    hide Square, Prod, Proportion;
    CertainRight(Square(Z95));
    ProportionRange(1, n);
    SquareSign(Proportion(1, n) - 1.0);
    ProdSign(n as real, Square(Proportion(1, n) - 1.0));
    if n == 1 {
      CertainLeft(Proportion(1, 1));
    }
  }

  lemma CertainRight(y: real)
    ensures Prod(y, Prod(1.0, 1.0 - 1.0)) == 0.0
  {
  }

  lemma CertainLeft(p: real)
    ensures p * (1 as real) == 1 as real ==> Prod(1 as real, Square(p - 1.0)) == 0.0
  {
  }

  /**
   * The campaign driver's upper endpoint is not monotone: one success reports a lower
   * bound than none exactly for two, three or four trials.
   */
  lemma CampaignUpperOrder(n: nat, r: real)
    requires n > 0 && IsRoot(r, 1, n, Z95)
    ensures Denom(n as real, Z95) > 1.0
    ensures Campaign(0, n, Z95, r).hi <= Campaign(1, n, Z95, r).hi <==> (n == 1 || n >= 5)
  {
    hide Low, High, Denom, IsRoot, ScoreTest, Square;
    ClampsNeverBind(1, n, Z95, r);
    ThreeOver(n);
    var q, m := 3.0 / (n as real), n as real;
    assert Proportion(1, n) * m == 1.0;
    if n <= 3 {
      ScoreInversion(1, n, Z95, r, 1.0);
      CertainTest(n);
    } else {
      ScoreInversion(1, n, Z95, r, q);
      OneTest(n, q);
      Cancel(m, q, 3.0 * Proportion(1, n));
      ProportionRange(1, n);
    }
  }
}
