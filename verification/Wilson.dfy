/** The Wilson score interval on a percentile's rank, over exact reals. The square root is any
    non-negative number with the right square. */
module Wilson {
  import opened Reals

  // ----- the quadratic behind the interval -----

  /** The interval's bounds are the roots of this; a stands for z^2/n. */
  function Quadratic(a: real, p: real, x: real): real {
    (1.0 + a) * (x * x) - (2.0 * p + a) * x + p * p
  }

  /** l and r are the two roots, given by their sum and product. */
  predicate Roots(a: real, p: real, l: real, r: real) {
    && a > 0.0 && 0.0 < p < 1.0 && l <= r
    && Times(1.0 + a, l + r) == 2.0 * p + a && Times(1.0 + a, Times(l, r)) == Times(p, p)
  }

  lemma AsDistance(a: real, p: real, x: real)
    ensures Quadratic(a, p, x) == Times(x - p, x - p) - Times(a, Times(x, 1.0 - x))
  {
  }

  lemma Factors(a: real, p: real, l: real, r: real, x: real)
    requires Roots(a, p, l, r)
    ensures Quadratic(a, p, x) == Times(1.0 + a, Times(x - l, x - r))
  {
    var d := 1.0 + a;
    assert (x - l) * (x - r) == x * x - (l + r) * x + l * r;
    Spread(d, x * x, (l + r) * x, l * r);
    assert d * ((l + r) * x) == (d * (l + r)) * x;
  }

  lemma Spread(d: real, x: real, y: real, w: real)
    ensures d * (x - y + w) == d * x - d * y + d * w
  {
  }

  /** The quadratic is at most zero exactly between the bounds. */
  lemma NonPositiveIffBetween(a: real, p: real, l: real, r: real, x: real)
    requires Roots(a, p, l, r)
    ensures Quadratic(a, p, x) <= 0.0 <==> l <= x <= r
    ensures Quadratic(a, p, x) < 0.0 <==> l < x < r
  {
    Factors(a, p, l, r, x);
    SignOfThree(1.0 + a, x - l, x - r);
  }

  lemma BoundsOrder(a: real, p: real, l: real, r: real)
    requires Roots(a, p, l, r)
    ensures 0.0 < l < p < r < 1.0
  {
    NegativeAt(a, p);
    PositiveAtEnds(a, p);
    NonPositiveIffBetween(a, p, l, r, p);
    NonPositiveIffBetween(a, p, l, r, 0.0);
    NonPositiveIffBetween(a, p, l, r, 1.0);
  }

  lemma NegativeAt(a: real, p: real)
    requires a > 0.0 && 0.0 < p < 1.0
    ensures Quadratic(a, p, p) < 0.0
  {
    AsDistance(a, p, p);
    Sign(p - p, p - p);
    Sign(p, 1.0 - p);
    Sign(a, Times(p, 1.0 - p));
  }

  lemma PositiveAtEnds(a: real, p: real)
    requires 0.0 < p < 1.0
    ensures Quadratic(a, p, 0.0) > 0.0 && Quadratic(a, p, 1.0) > 0.0
  {
    AsDistance(a, p, 0.0);
    AsDistance(a, p, 1.0);
    Sign(0.0 - p, 0.0 - p);
    Sign(1.0 - p, 1.0 - p);
    Sign(0.0, 1.0 - 0.0);
    Sign(1.0, 1.0 - 1.0);
    Sign(a, Times(0.0, 1.0 - 0.0));
    Sign(a, Times(1.0, 1.0 - 1.0));
  }

  lemma LargerRatioIsWider(a: real, l: real, r: real, b: real, l': real, r': real, p: real)
    requires Roots(a, p, l, r) && Roots(b, p, l', r') && a > b
    ensures l < l' && r' < r
  {
    BoundsOrder(a, p, l, r);
    BoundsOrder(b, p, l', r');
    OutsideNarrower(a, l, r, b, p, l);
    OutsideNarrower(a, l, r, b, p, r);
    NonPositiveIffBetween(b, p, l', r', l);
    NonPositiveIffBetween(b, p, l', r', r);
  }

  lemma OutsideNarrower(a: real, l: real, r: real, b: real, p: real, x: real)
    requires Roots(a, p, l, r) && a > b && 0.0 < x < 1.0 && (x == l || x == r)
    ensures Quadratic(b, p, x) > 0.0
  {
    NonPositiveIffBetween(a, p, l, r, x);
    AsDistance(a, p, x);
    AsDistance(b, p, x);
    Sign(x, 1.0 - x);
    Monotone(b, a, Times(x, 1.0 - x));
  }

  lemma RootsAreUnique(a: real, p: real, l: real, r: real, l': real, r': real)
    requires Roots(a, p, l, r) && Roots(a, p, l', r')
    ensures l == l' && r == r'
  {
    NonPositiveIffBetween(a, p, l, r, l);
    NonPositiveIffBetween(a, p, l, r, r);
    NonPositiveIffBetween(a, p, l, r, l');
    NonPositiveIffBetween(a, p, l, r, r');
    NonPositiveIffBetween(a, p, l', r', l);
    NonPositiveIffBetween(a, p, l', r', r);
    NonPositiveIffBetween(a, p, l', r', l');
    NonPositiveIffBetween(a, p, l', r', r');
  }

  lemma RootsMirror(a: real, p: real, l: real, r: real)
    requires Roots(a, p, l, r)
    ensures Roots(a, 1.0 - p, 1.0 - r, 1.0 - l)
  {
    var d := 1.0 + a;
    assert d * ((1.0 - r) + (1.0 - l)) == d * 2.0 - d * (l + r);
    assert (1.0 - r) * (1.0 - l) == 1.0 - (l + r) + l * r;
    Spread(d, 1.0, l + r, l * r);
    assert (1.0 - p) * (1.0 - p) == 1.0 - 2.0 * p + p * p;
  }

  /** Half of sum and difference: c - h and c + h are the roots when these equations hold. */
  lemma RootsFromHalfWidth(a: real, p: real, v: real, c: real, h: real)
    requires a > 0.0 && 0.0 < p < 1.0 && v >= 0.0
    requires Times(v, v) == Times(a, Times(p, 1.0 - p)) + Times(a, a) / 4.0
    requires Times(1.0 + a, c) == p + a / 2.0 && Times(1.0 + a, h) == v
    ensures Roots(a, p, c - h, c + h)
  {
    var d, u := 1.0 + a, p + a / 2.0;
    Sign(d, h);
    SquaresDiffer(d, c, h, u, v);
    assert u * u - v * v == d * (p * p) by {
      assert u * u == p * p + a * p + a * a / 4.0;
      assert a * (p * (1.0 - p)) == a * p - a * (p * p);
      assert d * (p * p) == p * p + a * (p * p);
    }
    Cancel(d, Times(d, Times(c - h, c + h)), Times(p, p));
    assert (c - h) + (c + h) == 2.0 * c;
    assert Times(d, (c - h) + (c + h)) == 2.0 * Times(d, c);
  }

  lemma SquaresDiffer(d: real, c: real, h: real, u: real, v: real)
    requires Times(d, c) == u && Times(d, h) == v
    ensures Times(d, Times(d, Times(c - h, c + h))) == u * u - v * v
  {
    assert (c - h) * (c + h) == c * c - h * h;
    assert d * (d * (c * c - h * h)) == (d * c) * (d * c) - (d * h) * (d * h);
  }

  // ----- the function itself -----

  /** Sample size, proportion, normal quantile, and the root of p(1-p)/n + z^2/(4n^2). */
  datatype Input = Input(n: int, p: real, z: real, root: real)

  ghost predicate Valid(q: Input) {
    && q.n > 0 && 0.0 < q.p < 1.0 && q.z > 0.0 && q.root >= 0.0
    && q.root * q.root == q.p * (1.0 - q.p) / q.n as real + q.z * q.z / (4.0 * q.n as real * q.n as real)
  }

  /** `wilson_rank_ci` before the clips, on a real sample size. */
  function ScoreBounds(n: real, p: real, z: real, root: real): (real, real)
    requires n > 0.0 && 1.0 + z * z / n > 0.0
  {
    var denom := 1.0 + z * z / n;
    var centre := (p + z * z / (2.0 * n)) / denom;
    var halfWidth := (z * root) / denom;
    (centre - halfWidth, centre + halfWidth)
  }

  function Bounds(q: Input): (real, real)
    requires q.n > 0
  {
    assert q.z * q.z / q.n as real >= 0.0;
    ScoreBounds(q.n as real, q.p, q.z, q.root)
  }

  /** The pair `wilson_rank_ci` returns. */
  function RankCi(q: Input): (real, real)
    requires q.n > 0
  {
    (Max(0.0, Bounds(q).0), Min(1.0, Bounds(q).1))
  }

  function PerSample(z: real, n: real): real
    requires n > 0.0
  {
    z * z / n
  }

  function Ratio(q: Input): real
    requires q.n > 0
  {
    PerSample(q.z, q.n as real)
  }

  lemma ScoreBoundsAreRoots(n: real, p: real, z: real, root: real)
    requires n > 0.0 && 0.0 < p < 1.0 && z > 0.0 && root >= 0.0
    requires root * root == p * (1.0 - p) / n + z * z / (4.0 * n * n)
    ensures 1.0 + z * z / n > 0.0
    ensures Roots(z * z / n, p, ScoreBounds(n, p, z, root).0, ScoreBounds(n, p, z, root).1)
  {
    var a, v := z * z / n, z * root;
    Sign(z, z);
    Quotient(z * z, n);
    Sign(z, root);
    HalfWidthSquared(n, p, z, root);
    HalfRatio(z * z, n);
    Quotient(p + a / 2.0, 1.0 + a);
    Quotient(v, 1.0 + a);
    RootsFromHalfWidth(a, p, v, (p + a / 2.0) / (1.0 + a), v / (1.0 + a));
  }

  lemma HalfRatio(x: real, n: real)
    requires n > 0.0
    ensures x / (2.0 * n) == x / n / 2.0
  {
    Quotient(x, n);
    Quotient(x, 2.0 * n);
    assert Times(2.0 * n, x / n / 2.0) == Times(n, x / n);
    Cancel(2.0 * n, x / (2.0 * n), x / n / 2.0);
  }

  lemma HalfWidthSquared(n: real, p: real, z: real, root: real)
    requires n > 0.0 && root * root == p * (1.0 - p) / n + z * z / (4.0 * n * n)
    ensures var a, v := z * z / n, z * root;
            Times(v, v) == Times(a, Times(p, 1.0 - p)) + Times(a, a) / 4.0
  {
    var z2, w, e := z * z, p * (1.0 - p), 1.0 / n;
    Quotient(1.0, n);
    ByReciprocal(z2, n);
    ByReciprocal(w, n);
    Quarter(z2, n);
    assert (z * root) * (z * root) == z2 * (root * root);
    assert z2 * (w * e + z2 * e * e / 4.0) == (z2 * e) * w + (z2 * e) * (z2 * e) / 4.0;
  }

  lemma ByReciprocal(x: real, n: real)
    requires n > 0.0
    ensures x / n == x * (1.0 / n)
  {
  }

  lemma Quarter(x: real, n: real)
    requires n > 0.0
    ensures 4.0 * n * n > 0.0 && x / (4.0 * n * n) == x * (1.0 / n) * (1.0 / n) / 4.0
  {
    var e := 1.0 / n;
    Quotient(1.0, n);
    Sign(n, n);
    Quotient(x, 4.0 * n * n);
    assert (4.0 * n * n) * (x * e * e / 4.0) == x * (n * e) * (n * e);
    Cancel(4.0 * n * n, x / (4.0 * n * n), x * e * e / 4.0);
  }

  /** The computed bounds are the two roots of the quadratic with a = z^2/n. */
  lemma BoundsAreRoots(q: Input)
    requires Valid(q)
    ensures Roots(Ratio(q), q.p, Bounds(q).0, Bounds(q).1)
    ensures Quadratic(Ratio(q), q.p, Bounds(q).0) == 0.0 == Quadratic(Ratio(q), q.p, Bounds(q).1)
  {
    ScoreBoundsAreRoots(q.n as real, q.p, q.z, q.root);
    NonPositiveIffBetween(Ratio(q), q.p, Bounds(q).0, Bounds(q).1, Bounds(q).0);
    NonPositiveIffBetween(Ratio(q), q.p, Bounds(q).0, Bounds(q).1, Bounds(q).1);
  }

  /** 0 < low < p < high < 1, so the clips never bind. */
  lemma ClipsNeverBind(q: Input)
    requires Valid(q)
    ensures 0.0 < Bounds(q).0 < q.p < Bounds(q).1 < 1.0
    ensures RankCi(q) == Bounds(q)
  {
    BoundsAreRoots(q);
    BoundsOrder(Ratio(q), q.p, Bounds(q).0, Bounds(q).1);
  }

  /** The lower bound at p mirrors the upper bound at 1 - p. */
  lemma Mirror(q: Input, m: Input)
    requires Valid(q) && Valid(m) && m.n == q.n && m.z == q.z && m.p == 1.0 - q.p
    ensures RankCi(q).0 == 1.0 - RankCi(m).1 && RankCi(q).1 == 1.0 - RankCi(m).0
  {
    ClipsNeverBind(q);
    ClipsNeverBind(m);
    BoundsAreRoots(q);
    BoundsAreRoots(m);
    MirrorRoots(Ratio(q), q.p, Bounds(q).0, Bounds(q).1, m.p, Bounds(m).0, Bounds(m).1);
  }

  lemma MirrorRoots(a: real, p: real, l: real, r: real, p': real, l': real, r': real)
    requires Roots(a, p, l, r) && Roots(a, p', l', r') && p' == 1.0 - p
    ensures l == 1.0 - r' && r == 1.0 - l'
  {
    RootsMirror(a, p, l, r);
    RootsAreUnique(a, p', l', r', 1.0 - r, 1.0 - l);
  }

  /** More samples give a strictly narrower interval on both sides. */
  lemma NestsInward(q: Input, m: Input)
    requires Valid(q) && Valid(m) && m.p == q.p && m.z == q.z && m.n > q.n
    ensures RankCi(q).0 < RankCi(m).0 < q.p < RankCi(m).1 < RankCi(q).1
  {
    ClipsNeverBind(q);
    ClipsNeverBind(m);
    BoundsAreRoots(q);
    BoundsAreRoots(m);
    PerSampleShrinks(q.z, q.n as real, m.n as real);
    LargerRatioIsWider(Ratio(q), Bounds(q).0, Bounds(q).1, Ratio(m), Bounds(m).0, Bounds(m).1, q.p);
  }

  lemma PerSampleShrinks(z: real, n: real, m: real)
    requires z > 0.0 && 0.0 < n < m
    ensures PerSample(z, n) > PerSample(z, m)
  {
    var x := z * z;
    Sign(z, z);
    Quotient(x, n);
    Quotient(x, m);
    Monotone(n, m, x / m);
    LessByFactor(n, x / m, x / n);
  }

  lemma LessByFactor(n: real, x: real, y: real)
    requires n > 0.0 && Times(n, x) < Times(n, y)
    ensures x < y
  {
    Sign(n, y - x);
    assert Times(n, y - x) == Times(n, y) - Times(n, x);
  }

  // ----- the trimming in percentile_with_ci -----

  function LowEff(q: Input): real
    requires q.n > 0
  {
    Max(RankCi(q).0, 1.0 / q.n as real)
  }

  function HighEff(q: Input): real
    requires q.n > 0
  {
    Min(RankCi(q).1, 1.0 - 1.0 / q.n as real)
  }

  /** With a single sample the trimmed bounds are always inverted. */
  lemma OneSampleInverts(q: Input)
    requires Valid(q) && q.n == 1
    ensures LowEff(q) == 1.0 && HighEff(q) == 0.0
  {
    ClipsNeverBind(q);
  }

  /** The point estimate's rank survives the trimming exactly when it is at least one sample away
      from both ends. */
  lemma PointStaysInsideIff(q: Input)
    requires Valid(q)
    ensures LowEff(q) <= q.p <= HighEff(q) <==> 1.0 / q.n as real <= q.p <= 1.0 - 1.0 / q.n as real
  {
    ClipsNeverBind(q);
  }

  /** Whether the trimmed bounds keep their order, decided without the square root: each end of the
      trimmed range lies on p's far side or inside the interval. */
  predicate TrimKeepsOrder(e: real, a: real, p: real) {
    && (p <= 1.0 - e || Quadratic(a, p, 1.0 - e) <= 0.0)
    && (e <= p || Quadratic(a, p, e) <= 0.0)
  }

  ghost predicate KeptEverywhere(e: real, a: real) {
    forall p :: 0.0 < p < 1.0 ==> TrimKeepsOrder(e, a, p)
  }

  lemma TrimmedOrderIff(q: Input)
    requires Valid(q) && q.n >= 2
    ensures LowEff(q) <= HighEff(q) <==> TrimKeepsOrder(1.0 / q.n as real, Ratio(q), q.p)
  {
    ClipsNeverBind(q);
    BoundsAreRoots(q);
    Order(1.0 / q.n as real, Ratio(q), q.p, Bounds(q).0, Bounds(q).1);
  }

  lemma Order(e: real, a: real, p: real, l: real, r: real)
    requires Roots(a, p, l, r) && l < p < r && e <= 1.0 - e
    ensures Max(l, e) <= Min(r, 1.0 - e) <==> TrimKeepsOrder(e, a, p)
  {
    NonPositiveIffBetween(a, p, l, r, 1.0 - e);
    NonPositiveIffBetween(a, p, l, r, e);
  }

  /** For n >= 2 the order is kept at every percentile exactly when z^2 (n - 1) >= n. */
  lemma TrimmedOrderForAllPercentilesIff(n: int, z: real)
    requires n >= 2 && z > 0.0
    ensures KeptEverywhere(1.0 / n as real, PerSample(z, n as real)) <==> z * z * (n - 1) as real >= n as real
  {
    var m, e, a := n as real, 1.0 / n as real, z * z / n as real;
    var k := z * z * (m - 1.0);
    var c := k / m;
    EdgeFactor(z * z, m);
    Quotient(1.0, m);
    Sign(z, z);
    Sign(z * z, m - 1.0);
    Quotient(k, m);
    KeptEverywhereIff(e, a, c);
  }

  lemma KeptEverywhereIff(e: real, a: real, c: real)
    requires 0.0 < e <= 1.0 - e && a > 0.0 && c >= 0.0 && Times(a, Times(e, 1.0 - e)) == Times(c, Times(e, e))
    ensures KeptEverywhere(e, a) <==> c >= 1.0
  {
    if c >= 1.0 {
      forall p | 0.0 < p < 1.0 ensures TrimKeepsOrder(e, a, p) {
        KeptAt(e, a, c, p);
      }
    } else {
      var p := LostAt(e, a, c);
      assert !TrimKeepsOrder(e, a, p);
    }
  }

  /** At distance e from an end, a x (1 - x) is c e^2. */
  lemma EdgeFactor(z2: real, m: real)
    requires m > 0.0
    ensures var e := 1.0 / m; Times(z2 / m, Times(e, 1.0 - e)) == Times(z2 * (m - 1.0) / m, Times(e, e))
  {
    var e := 1.0 / m;
    Quotient(1.0, m);
    ByReciprocal(z2, m);
    ByReciprocal(z2 * (m - 1.0), m);
    assert Times(m, e) == 1.0;
    assert (m - 1.0) * e == Times(m, e) - e;
    assert (z2 * e) * (e * (1.0 - e)) == ((z2 * (1.0 - e)) * e) * e;
    assert z2 * (m - 1.0) * e == z2 * (1.0 - e);
  }

  lemma KeptAt(e: real, a: real, c: real, p: real)
    requires 0.0 < p < 1.0 && 0.0 < e <= 0.5 && c >= 1.0
    requires Times(a, Times(e, 1.0 - e)) == Times(c, Times(e, e))
    ensures TrimKeepsOrder(e, a, p)
  {
    AsDistance(a, p, 1.0 - e);
    AsDistance(a, p, e);
    assert Times(1.0 - e, 1.0 - (1.0 - e)) == Times(e, 1.0 - e);
    if p > 1.0 - e {
      SquareBelow(1.0 - e - p, e, c);
    }
    if p < e {
      SquareBelow(e - p, e, c);
    }
  }

  lemma SquareBelow(d: real, e: real, c: real)
    requires -e < d < e && c >= 1.0
    ensures Times(d, d) <= Times(c, Times(e, e))
  {
    Sign(e - d, e + d);
    assert Times(e - d, e + d) == Times(e, e) - Times(d, d);
    Sign(e, e);
    Sign(c - 1.0, Times(e, e));
    assert Times(c - 1.0, Times(e, e)) == Times(c, Times(e, e)) - Times(e, e);
  }

  /** A percentile close to one at which the bounds cross. */
  lemma LostAt(e: real, a: real, c: real) returns (p: real)
    requires 0.0 < e <= 0.5 && 0.0 <= c < 1.0
    requires Times(a, Times(e, 1.0 - e)) == Times(c, Times(e, e))
    ensures 0.0 < p < 1.0 && !TrimKeepsOrder(e, a, p)
  {
    var t := (1.0 + c) / 2.0;
    p := 1.0 - e + Times(t, e);
    Sign(t, e);
    Monotone(t, 1.0, e);
    AsDistance(a, p, 1.0 - e);
    assert Times(1.0 - e, 1.0 - (1.0 - e)) == Times(e, 1.0 - e);
    assert Times(1.0 - e - p, 1.0 - e - p) == Times(Times(t, t), Times(e, e));
    Sign(1.0 - c, 1.0 - c);
    assert Times(t, t) - c == Times(1.0 - c, 1.0 - c) / 4.0;
    Sign(e, e);
    Monotone(c, Times(t, t), Times(e, e));
  }

  /** In particular for every n >= 2 once z^2 >= 2, as at the 95% quantile. */
  lemma TrimmedOrderAtUsualQuantiles(q: Input)
    requires Valid(q) && q.n >= 2 && q.z * q.z >= 2.0
    ensures LowEff(q) <= HighEff(q)
  {
    AtLeastTwo(q.z * q.z, (q.n - 1) as real, q.n as real);
    TrimmedOrderForAllPercentilesIff(q.n, q.z);
    TrimmedOrderIff(q);
  }

  lemma AtLeastTwo(z2: real, k: real, n: real)
    requires z2 >= 2.0 && k >= 1.0 && n == k + 1.0
    ensures z2 * k >= n
  {
    Sign(z2 - 2.0, k);
    assert Times(z2 - 2.0, k) == z2 * k - 2.0 * k;
  }
}
