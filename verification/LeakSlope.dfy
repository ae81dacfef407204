/** The memory-leak proxy: least squares of the end-of-window memory of the loaded arm against its
    ordinal position, over exact reals. */
module LeakSlope {
  import opened Reals

  type Column = seq<real>

  datatype Fit = Fit(slope: real, intercept: real)

  /** k, k + 1, ... : n numbers. */
  function Ramp(k: nat, n: nat): (u: Column)
    ensures |u| == n && forall i :: 0 <= i < n ==> u[i] == (k + i) as real
    decreases n
  {
    if n == 0 then [] else [k as real] + Ramp(k + 1, n - 1)
  }

  function AsReals(ys: seq<nat>): (u: Column)
    ensures |u| == |ys| && forall i :: 0 <= i < |ys| ==> u[i] == ys[i] as real
  {
    if ys == [] then [] else [ys[0] as real] + AsReals(ys[1..])
  }

  function Total(u: Column): real {
    if u == [] then 0.0 else u[0] + Total(u[1..])
  }

  /** The sum of the products of corresponding entries. */
  function Dot(u: Column, v: Column): real
    requires |u| == |v|
  {
    if u == [] then 0.0 else Times(u[0], v[0]) + Dot(u[1..], v[1..])
  }

  /** Every entry less c. */
  function Less(u: Column, c: real): (w: Column)
    ensures |w| == |u| && forall i :: 0 <= i < |u| ==> w[i] == u[i] - c
  {
    if u == [] then [] else [u[0] - c] + Less(u[1..], c)
  }

  /** u less s times v. */
  function Minus(u: Column, s: real, v: Column): (w: Column)
    requires |u| == |v|
    ensures |w| == |u| && forall i :: 0 <= i < |u| ==> w[i] == u[i] - Times(s, v[i])
  {
    if u == [] then [] else [u[0] - Times(s, v[0])] + Minus(u[1..], s, v[1..])
  }

  function Mean(u: Column): real
    requires u != []
  {
    Total(u) / |u| as real
  }

  /** Every entry less the mean. */
  function Deviations(u: Column): Column
    requires u != []
  {
    Less(u, Mean(u))
  }

  /** The slope and intercept of `_compute_vmrss`. */
  function LeakFit(ys: seq<nat>): Fit {
    if |ys| >= 2 && (exists i :: 0 <= i < |ys| && ys[i] != 0) then
      var x, y := Ramp(0, |ys|), AsReals(ys);
      var denom := Dot(Deviations(x), Deviations(x));
      if denom > 0.0 then
        var slope := Dot(Deviations(x), Deviations(y)) / denom;
        Fit(slope, Mean(y) - Times(slope, Mean(x)))
      else Fit(0.0, Mean(y))
    else Fit(0.0, if ys == [] then 0.0 else ys[0] as real)
  }

  /** What the line leaves unexplained of y at the abscissae x. */
  function Residuals(y: Column, x: Column, f: Fit): Column
    requires |x| == |y|
  {
    Less(Minus(y, f.slope, x), f.intercept)
  }

  function SquaredError(y: Column, f: Fit): real {
    var e := Residuals(y, Ramp(0, |y|), f);
    Dot(e, e)
  }

  // ----- inner products -----

  lemma Commute(x: real, y: real)
    ensures Times(x, y) == Times(y, x)
  {
  }

  lemma {:induction false} DotCommutes(u: Column, v: Column)
    requires |u| == |v|
    ensures Dot(u, v) == Dot(v, u)
  {
    if u != [] {
      DotCommutes(u[1..], v[1..]);
      Commute(u[0], v[0]);
    }
  }

  lemma {:induction false} DotMinus(u: Column, s: real, v: Column, w: Column)
    requires |u| == |v| == |w|
    ensures Dot(Minus(u, s, v), w) == Dot(u, w) - Times(s, Dot(v, w))
  {
    if u == [] {
      Sign(s, 0.0);
    } else {
      assert Minus(u, s, v)[1..] == Minus(u[1..], s, v[1..]);
      DotMinus(u[1..], s, v[1..], w[1..]);
      Distribute(u[0], s, v[0], w[0], Dot(v[1..], w[1..]));
    }
  }

  lemma Distribute(x: real, s: real, y: real, w: real, rest: real)
    ensures Times(x - Times(s, y), w) == Times(x, w) - Times(s, Times(y, w))
    ensures Times(s, Times(y, w) + rest) == Times(s, Times(y, w)) + Times(s, rest)
  {
    assert (x - s * y) * w == x * w - s * (y * w);
  }

  lemma {:induction false} DotLess(u: Column, c: real, w: Column)
    requires |u| == |w|
    ensures Dot(Less(u, c), w) == Dot(u, w) - Times(c, Total(w))
  {
    if u == [] {
      Sign(c, 0.0);
    } else {
      assert Less(u, c)[1..] == Less(u[1..], c);
      DotLess(u[1..], c, w[1..]);
      Expand(u[0], c, w[0], Total(w[1..]));
    }
  }

  lemma Expand(x: real, c: real, w: real, rest: real)
    ensures Times(x - c, w) == Times(x, w) - Times(c, w)
    ensures Times(c, w + rest) == Times(c, w) + Times(c, rest)
  {
  }

  lemma {:induction false} TotalMinus(u: Column, s: real, v: Column)
    requires |u| == |v|
    ensures Total(Minus(u, s, v)) == Total(u) - Times(s, Total(v))
  {
    if u == [] {
      Sign(s, 0.0);
    } else {
      assert Minus(u, s, v)[1..] == Minus(u[1..], s, v[1..]);
      TotalMinus(u[1..], s, v[1..]);
      Expand(0.0, s, v[0], Total(v[1..]));
    }
  }

  lemma {:induction false} TotalLess(u: Column, c: real)
    ensures Total(Less(u, c)) == Total(u) - Times(c, |u| as real)
  {
    if u == [] {
      Sign(c, 0.0);
    } else {
      assert Less(u, c)[1..] == Less(u[1..], c);
      TotalLess(u[1..], c);
      assert |u| as real == 1.0 + |u[1..]| as real;
      Expand(0.0, c, 1.0, |u[1..]| as real);
      assert Times(c, 1.0) == c;
    }
  }

  lemma {:induction false} DotNotNegative(u: Column)
    ensures Dot(u, u) >= 0.0
  {
    if u != [] {
      DotNotNegative(u[1..]);
      Sign(u[0], u[0]);
    }
  }

  lemma MeanTimesCount(u: Column)
    requires u != []
    ensures Times(Mean(u), |u| as real) == Total(u)
  {
    Quotient(Total(u), |u| as real);
    Commute(Mean(u), |u| as real);
  }

  lemma DeviationsSumToZero(u: Column)
    requires u != []
    ensures Total(Deviations(u)) == 0.0
  {
    TotalLess(u, Mean(u));
    MeanTimesCount(u);
  }

  // ----- the abscissa -----

  /** Twice the sum of k, ..., k + m - 1. */
  function TwiceSum(k: real, m: real): real { 2.0 * (m * k) + m * (m - 1.0) }

  /** Six times the sum of their squares. */
  function SixSquares(k: real, m: real): real {
    6.0 * (m * (k * k)) + 6.0 * (k * (m * (m - 1.0))) + m * (m - 1.0) * (2.0 * m - 1.0)
  }

  lemma StepSums(k: real, m: real)
    ensures TwiceSum(k, m) == 2.0 * k + TwiceSum(k + 1.0, m - 1.0)
    ensures SixSquares(k, m) == 6.0 * Times(k, k) + SixSquares(k + 1.0, m - 1.0)
  {
  }

  lemma {:induction false} RampSums(k: nat, n: nat)
    ensures 2.0 * Total(Ramp(k, n)) == TwiceSum(k as real, n as real)
    ensures 6.0 * Dot(Ramp(k, n), Ramp(k, n)) == SixSquares(k as real, n as real)
    decreases n
  {
    if n > 0 {
      RampSums(k + 1, n - 1);
      assert Ramp(k, n)[1..] == Ramp(k + 1, n - 1);
      assert (n - 1) as real == n as real - 1.0 && (k + 1) as real == k as real + 1.0;
      StepSums(k as real, n as real);
    }
  }

  /** The denominator is n(n^2 - 1)/12, so it is positive exactly from two samples on. */
  lemma DenominatorClosedForm(n: nat)
    requires n > 0
    ensures var d, m := Deviations(Ramp(0, n)), n as real;
            12.0 * Dot(d, d) == m * (m * m - 1.0) && (Dot(d, d) > 0.0 <==> n >= 2)
  {
    var x := Ramp(0, n);
    DeviationSquares(x);
    MeanTimesCount(x);
    RampSums(0, n);
    Twelve(n as real, Mean(x), Total(x), Dot(x, x), Dot(Deviations(x), Deviations(x)));
    CubeIsPositive(n);
  }

  lemma DeviationSquares(u: Column)
    requires u != []
    ensures Dot(Deviations(u), Deviations(u)) == Dot(u, u) - Times(Mean(u), Total(u))
  {
    var d := Deviations(u);
    DotLess(u, Mean(u), d);
    DeviationsSumToZero(u);
    Sign(Mean(u), 0.0);
    DotCommutes(u, d);
    DotLess(u, Mean(u), u);
  }

  lemma Twelve(m: real, mx: real, total: real, squares: real, dd: real)
    requires m > 0.0 && Times(mx, m) == total && 2.0 * total == TwiceSum(0.0, m) && 6.0 * squares == SixSquares(0.0, m)
    requires dd == squares - Times(mx, total)
    ensures 12.0 * dd == m * (m * m - 1.0)
  {
    assert 2.0 * mx == m - 1.0 by {
      assert Times(m, 2.0 * mx) == 2.0 * Times(mx, m);
      assert 2.0 * Times(mx, m) == Times(m, m - 1.0);
      Cancel(m, 2.0 * mx, m - 1.0);
    }
    assert 4.0 * (mx * total) == (2.0 * mx) * (2.0 * total);
    assert (m - 1.0) * (m * (m - 1.0)) == m * m * m - 2.0 * (m * m) + m;
    assert m * (m - 1.0) * (2.0 * m - 1.0) == 2.0 * (m * m * m) - 3.0 * (m * m) + m;
  }

  lemma CubeIsPositive(n: nat)
    requires n > 0
    ensures n as real * (n as real * n as real - 1.0) > 0.0 <==> n >= 2
  {
    var m := n as real;
    if n >= 2 {
      assert m * m >= 2.0 * m;
      Sign(m, m * m - 1.0);
    } else {
      assert m == 1.0;
    }
  }

  // ----- least squares -----

  predicate ThroughPoint(f: Fit, x: real, y: real) { f.intercept == y - Times(f.slope, x) }

  predicate SolvesNormalEquation(slope: real, xx: real, yx: real) { Times(slope, xx) == yx }

  /** A line through the means whose slope solves the normal equation. */
  predicate Normal(y: Column, x: Column, f: Fit)
    requires |x| == |y| && y != []
  {
    var dx, dy := Deviations(x), Deviations(y);
    ThroughPoint(f, Mean(x), Mean(y)) && SolvesNormalEquation(f.slope, Dot(dx, dx), Dot(dy, dx))
  }

  lemma ResidualsFromDeviations(y: Column, x: Column, f: Fit)
    requires |x| == |y| && y != [] && ThroughPoint(f, Mean(x), Mean(y))
    ensures Residuals(y, x, f) == Minus(Deviations(y), f.slope, Deviations(x))
  {
    var e, g := Residuals(y, x, f), Minus(Deviations(y), f.slope, Deviations(x));
    forall i | 0 <= i < |y| ensures e[i] == g[i] {
      Expand(x[i], Mean(x), f.slope, 0.0);
      Commute(x[i] - Mean(x), f.slope);
      Commute(x[i], f.slope);
      Commute(Mean(x), f.slope);
    }
  }

  /** The residuals of such a line are orthogonal to constants and to the abscissa. */
  lemma NormalEquations(y: Column, x: Column, f: Fit)
    requires |x| == |y| && y != [] && Normal(y, x, f)
    ensures Total(Residuals(y, x, f)) == 0.0
    ensures Dot(Residuals(y, x, f), Deviations(x)) == 0.0
  {
    ResidualsFromDeviations(y, x, f);
    TotalMinus(Deviations(y), f.slope, Deviations(x));
    DeviationsSumToZero(x);
    DeviationsSumToZero(y);
    Sign(f.slope, 0.0);
    DotMinus(Deviations(y), f.slope, Deviations(x), Deviations(x));
  }

  /** Adding a constant to a column that sums to zero, or a multiple of an orthogonal column, never
      shortens it. */
  lemma ConstantNeverHelps(e: Column, c: real)
    requires Total(e) == 0.0
    ensures Dot(e, e) <= Dot(Less(e, c), Less(e, c))
  {
    var g := Less(e, c);
    DotLess(e, c, g);
    DotCommutes(e, g);
    DotLess(e, c, e);
    TotalLess(e, c);
    SquareTimes(c, |e| as real);
  }

  lemma OrthogonalNeverHelps(e: Column, s: real, v: Column)
    requires |e| == |v| && Dot(e, v) == 0.0
    ensures Dot(e, e) <= Dot(Minus(e, s, v), Minus(e, s, v))
  {
    var g := Minus(e, s, v);
    DotMinus(e, s, v, g);
    DotCommutes(e, g);
    DotCommutes(v, g);
    DotMinus(e, s, v, e);
    DotMinus(e, s, v, v);
    DotCommutes(v, e);
    DotNotNegative(v);
    SquareTimes(s, Dot(v, v));
  }

  lemma SquareTimes(c: real, s: real)
    requires s >= 0.0
    ensures Times(c, 0.0) == 0.0 && Times(c, 0.0 - Times(c, s)) <= 0.0
  {
    Sign(c, c);
    Sign(Times(c, c), s);
    assert Times(c, 0.0 - Times(c, s)) == -Times(Times(c, c), s);
  }

  /** How far another line is tilted about the mean abscissa, and then moved. */
  function Tilted(f: Fit, other: Fit): real { other.slope - f.slope }

  function Raised(f: Fit, other: Fit, mx: real): real {
    other.intercept - f.intercept + Times(Tilted(f, other), mx)
  }

  function TiltedColumn(e: Column, x: Column, mx: real, q: real, p: real): Column
    requires |x| == |e|
  {
    Less(Minus(e, q, Less(x, mx)), p)
  }

  /** Another line's residuals: tilt about the mean abscissa, then move the level. */
  lemma TiltThenMove(y: Column, x: Column, f: Fit, other: Fit, mx: real)
    requires |x| == |y|
    ensures Residuals(y, x, other) == TiltedColumn(Residuals(y, x, f), x, mx, Tilted(f, other), Raised(f, other, mx))
  {
    var g := Residuals(y, x, other);
    var h := TiltedColumn(Residuals(y, x, f), x, mx, Tilted(f, other), Raised(f, other, mx));
    forall i | 0 <= i < |y| ensures Entry(g, i) == Entry(h, i) {
      SameEntry(y, x, f, other, mx, i);
    }
    SameColumn(g, h);
  }

  function Entry(u: Column, i: int): real
    requires 0 <= i < |u|
  {
    u[i]
  }

  lemma SameColumn(g: Column, h: Column)
    requires |g| == |h| && forall i :: 0 <= i < |g| ==> Entry(g, i) == Entry(h, i)
    ensures g == h
  {
    forall i | 0 <= i < |g| ensures g[i] == h[i] {
      assert Entry(g, i) == Entry(h, i);
    }
  }

  lemma SameEntry(y: Column, x: Column, f: Fit, other: Fit, mx: real, i: nat)
    requires |x| == |y| && i < |y|
    ensures Entry(Residuals(y, x, other), i)
         == Entry(TiltedColumn(Residuals(y, x, f), x, mx, Tilted(f, other), Raised(f, other, mx)), i)
  {
    EntryOf(y, x, f, i);
    EntryOf(y, x, other, i);
    EntryMoved(Residuals(y, x, f), x, Tilted(f, other), Raised(f, other, mx), mx, i);
    Tilt(y[i], x[i], f, other, mx);
  }

  /** One residual, and the tilted and moved one. */
  function Residual(v: real, x: real, f: Fit): real { v - Times(f.slope, x) - f.intercept }

  function Moved(v: real, x: real, f: Fit, q: real, p: real, mx: real): real { Residual(v, x, f) - Times(q, x - mx) - p }

  lemma EntryOf(y: Column, x: Column, f: Fit, i: nat)
    requires |x| == |y| && i < |y|
    ensures Residuals(y, x, f)[i] == Residual(y[i], x[i], f)
  {
  }

  lemma EntryMoved(e: Column, x: Column, q: real, p: real, mx: real, i: nat)
    requires |x| == |e| && i < |e|
    ensures TiltedColumn(e, x, mx, q, p)[i] == e[i] - Times(q, x[i] - mx) - p
  {
  }

  lemma Tilt(v: real, x: real, f: Fit, other: Fit, mx: real)
    ensures Residual(v, x, other) == Moved(v, x, f, Tilted(f, other), Raised(f, other, mx), mx)
  {
    TiltProducts(other.slope, f.slope, x, mx);
  }

  lemma TiltProducts(a: real, b: real, x: real, mx: real)
    ensures Times(a, x) == Times(b, x) + Times(a - b, x - mx) + Times(a - b, mx)
  {
  }

  /** No line has a smaller squared error. */
  lemma NormalIsBest(y: Column, f: Fit, other: Fit)
    requires y != [] && Normal(y, Ramp(0, |y|), f)
    ensures SquaredError(y, f) <= SquaredError(y, other)
  {
    var x := Ramp(0, |y|);
    NormalEquations(y, x, f);
    OrthogonalIsBest(y, x, f, other);
  }

  lemma OrthogonalIsBest(y: Column, x: Column, f: Fit, other: Fit)
    requires |x| == |y| && y != []
    requires Total(Residuals(y, x, f)) == 0.0 && Dot(Residuals(y, x, f), Deviations(x)) == 0.0
    ensures var e, g := Residuals(y, x, f), Residuals(y, x, other);
            Dot(e, e) <= Dot(g, g)
  {
    DeviationsSumToZero(x);
    TwoShifts(Residuals(y, x, f), Tilted(f, other), Deviations(x), Raised(f, other, Mean(x)));
    TiltThenMove(y, x, f, other, Mean(x));
  }

  lemma TwoShifts(e: Column, q: real, v: Column, p: real)
    requires |e| == |v| && Total(e) == 0.0 && Dot(e, v) == 0.0 && Total(v) == 0.0
    ensures Dot(e, e) <= Dot(Less(Minus(e, q, v), p), Less(Minus(e, q, v), p))
  {
    OrthogonalNeverHelps(e, q, v);
    TotalMinus(e, q, v);
    Sign(q, 0.0);
    ConstantNeverHelps(Minus(e, q, v), p);
  }

  predicate Regular(ys: seq<nat>) { |ys| >= 2 && exists i :: 0 <= i < |ys| && ys[i] != 0 }

  lemma FitIsNormal(ys: seq<nat>)
    requires ys != []
    ensures Normal(AsReals(ys), Ramp(0, |ys|), LeakFit(ys))
  {
    if Regular(ys) {
      DenominatorClosedForm(|ys|);
      LeakFitIsFitted(ys);
      FittedIsNormal(AsReals(ys), Ramp(0, |ys|), LeakFit(ys));
    } else {
      LeakFitIsFlat(ys);
      FlatIsNormal(AsReals(ys), Ramp(0, |ys|), ys[0] as real);
    }
  }

  lemma LeakFitIsFitted(ys: seq<nat>)
    requires Regular(ys) && Dot(Deviations(Ramp(0, |ys|)), Deviations(Ramp(0, |ys|))) > 0.0
    ensures Fitted(AsReals(ys), Ramp(0, |ys|), LeakFit(ys))
  {
  }

  lemma LeakFitIsFlat(ys: seq<nat>)
    requires ys != [] && !Regular(ys)
    ensures LeakFit(ys) == Fit(0.0, ys[0] as real)
    ensures forall i :: 0 <= i < |ys| ==> AsReals(ys)[i] == ys[0] as real
  {
  }

  /** A slope that is the quotient of the two sums, with the level through the means. */
  predicate Fitted(y: Column, x: Column, f: Fit)
    requires |x| == |y| && y != [] && Dot(Deviations(x), Deviations(x)) > 0.0
  {
    && f.slope == Dot(Deviations(x), Deviations(y)) / Dot(Deviations(x), Deviations(x))
    && ThroughPoint(f, Mean(x), Mean(y))
  }

  lemma FittedIsNormal(y: Column, x: Column, f: Fit)
    requires |x| == |y| && y != [] && Dot(Deviations(x), Deviations(x)) > 0.0 && Fitted(y, x, f)
    ensures Normal(y, x, f)
  {
    var dx, dy := Deviations(x), Deviations(y);
    DotCommutes(dx, dy);
    QuotientSolves(f.slope, Dot(dx, dx), Dot(dx, dy));
  }

  lemma QuotientSolves(slope: real, xx: real, xy: real)
    requires xx > 0.0 && slope == xy / xx
    ensures SolvesNormalEquation(slope, xx, xy)
  {
    Quotient(xy, xx);
    Commute(slope, xx);
  }

  lemma FlatIsNormal(y: Column, x: Column, c: real)
    requires |x| == |y| && y != [] && forall i :: 0 <= i < |y| ==> y[i] == c
    ensures Normal(y, x, Fit(0.0, c))
  {
    ConstantColumn(y, c);
    ZeroDot(Deviations(y), Deviations(x));
    Sign(0.0, Mean(x));
    Sign(0.0, Dot(Deviations(x), Deviations(x)));
  }

  lemma {:induction false} ZeroDot(u: Column, v: Column)
    requires |u| == |v| && forall i :: 0 <= i < |u| ==> u[i] == 0.0
    ensures Dot(u, v) == 0.0 && Total(u) == 0.0
  {
    if u != [] {
      ZeroDot(u[1..], v[1..]);
      Sign(u[0], v[0]);
    }
  }

  lemma ConstantColumn(y: Column, c: real)
    requires y != [] && forall i :: 0 <= i < |y| ==> y[i] == c
    ensures Mean(y) == c && forall i :: 0 <= i < |y| ==> Deviations(y)[i] == 0.0
  {
    TotalLess(y, c);
    ZeroDot(Less(y, c), y);
    MeanTimesCount(y);
    Commute(Mean(y), |y| as real);
    Commute(c, |y| as real);
    Cancel(|y| as real, Mean(y), c);
  }

  /** For every non-empty list of samples, all zero or not, the reported line has the least squared
      error of all lines. */
  lemma LeakFitIsLeastSquares(ys: seq<nat>, other: Fit)
    requires ys != []
    ensures SquaredError(AsReals(ys), LeakFit(ys)) <= SquaredError(AsReals(ys), other)
  {
    FitIsNormal(ys);
    NormalIsBest(AsReals(ys), LeakFit(ys), other);
  }

  // ----- exact recovery -----

  /** From two samples on, samples on a line give back that line; so constant samples give slope 0. */
  lemma AffineIsRecovered(ys: seq<nat>, line: Fit)
    requires |ys| >= 2
    requires forall i :: 0 <= i < |ys| ==> ys[i] as real == line.intercept + Times(line.slope, i as real)
    ensures LeakFit(ys) == line
  {
    var f, x := LeakFit(ys), Ramp(0, |ys|);
    FitIsNormal(ys);
    DenominatorClosedForm(|ys|);
    LineIsNormal(AsReals(ys), x, line);
    OneNormalLine(AsReals(ys), x, f, line);
  }

  lemma OneNormalLine(y: Column, x: Column, f: Fit, g: Fit)
    requires |x| == |y| && y != [] && Normal(y, x, f) && Normal(y, x, g)
    requires Dot(Deviations(x), Deviations(x)) > 0.0
    ensures f == g
  {
    var dx := Deviations(x);
    Commute(f.slope, Dot(dx, dx));
    Commute(g.slope, Dot(dx, dx));
    Cancel(Dot(dx, dx), f.slope, g.slope);
  }

  /** Samples on a line make that line normal. */
  lemma LineIsNormal(y: Column, x: Column, line: Fit)
    requires |x| == |y| && y != [] && forall i :: 0 <= i < |y| ==> y[i] == line.intercept + Times(line.slope, x[i])
    ensures Normal(y, x, line)
  {
    var e := Residuals(y, x, line);
    assert forall i :: 0 <= i < |y| ==> e[i] == 0.0;
    ZeroDot(e, Deviations(x));
    LineThroughMeans(y, x, line);
    ResidualsFromDeviations(y, x, line);
    DotMinus(Deviations(y), line.slope, Deviations(x), Deviations(x));
  }

  /** Residuals that sum to zero put the line through the means. */
  lemma LineThroughMeans(y: Column, x: Column, line: Fit)
    requires |x| == |y| && y != [] && Total(Residuals(y, x, line)) == 0.0
    ensures ThroughPoint(line, Mean(x), Mean(y))
  {
    TotalLess(Minus(y, line.slope, x), line.intercept);
    TotalMinus(y, line.slope, x);
    MeanTimesCount(y);
    MeanTimesCount(x);
    DivideOut(line, Mean(y), Mean(x), |y| as real, Total(y), Total(x));
  }

  lemma DivideOut(f: Fit, my: real, mx: real, m: real, ty: real, tx: real)
    requires m > 0.0 && Times(my, m) == ty && Times(mx, m) == tx
    requires ty - Times(f.slope, tx) - Times(f.intercept, m) == 0.0
    ensures ThroughPoint(f, mx, my)
  {
    Commute(m, f.intercept);
    assert Times(m, my - Times(f.slope, mx)) == ty - Times(f.slope, tx);
    Cancel(m, f.intercept, my - Times(f.slope, mx));
  }
}
