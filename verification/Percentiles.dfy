/** Latency percentiles: the clamping recorder, the interpolated percentile and the bootstrap interval
    of the median. The histogram keeps every recorded value exactly. */
module Percentiles {
  import opened Numbers
  import Reals
  import opened Sorting

  const HDR_MIN_NS := 1
  const HDR_MAX_NS := 60_000_000_000

  // ----- the recorder -----

  function Clamp(min: int, max: int, x: int): int {
    if x < min then min else if x > max then max else x
  }

  function Clamper(min: int, max: int): int -> int { x => Clamp(min, max, x) }

  function Clamped(min: int, max: int, s: seq<int>): seq<int> { Map(Clamper(min, max), s) }

  predicate Within(s: seq<int>, low: int, high: int) { forall i :: 0 <= i < |s| ==> low <= s[i] <= high }

  function Under(min: int): int -> bool { x => x < min }

  function Over(max: int): int -> bool { x => x > max }

  /** `recorded` is the clamp of every observation, all of them in range, and the counters count each
      side's clamps. */
  ghost predicate Records(min: int, max: int, observed: seq<int>, recorded: seq<int>, low: nat, high: nat) {
    && recorded == Clamped(min, max, observed) && Within(recorded, min, max)
    && low == Count(observed, Under(min)) && high == Count(observed, Over(max))
  }

  lemma RecordsOneMore(min: int, max: int, observed: seq<int>, recorded: seq<int>, low: nat, high: nat, x: int)
    requires min <= max && Records(min, max, observed, recorded, low, high)
    ensures Records(min, max, observed + [x], recorded + [Clamp(min, max, x)],
                    low + (if x < min then 1 else 0), high + (if x > max then 1 else 0))
  {
    CountOneMore(observed, x, Under(min));
    CountOneMore(observed, x, Over(max));
    ClampedOneMore(min, max, observed, x);
  }

  class HdrRecorder {
    const min: int
    const max: int
    var recorded: seq<int>
    var clampLow: nat
    var clampHigh: nat
    ghost var observed: seq<int>

    ghost predicate Valid()
      reads this
    {
      min <= max && Records(min, max, observed, recorded, clampLow, clampHigh)
    }

    constructor (min: int, max: int)
      requires min <= max
      ensures Valid() && observed == [] && this.min == min && this.max == max
    {
      this.min, this.max := min, max;
      recorded, clampLow, clampHigh, observed := [], 0, 0, [];
    }

    /** The range the benches use. */
    constructor Standard()
      ensures Valid() && observed == [] && min == 1 && max == 60_000_000_000
    {
      this.min, this.max := HDR_MIN_NS, HDR_MAX_NS;
      recorded, clampLow, clampHigh, observed := [], 0, 0, [];
    }

    method Record(latencyNs: int)
      requires Valid()
      modifies this
      ensures Valid() && observed == old(observed) + [latencyNs]
      ensures |recorded| == |old(recorded)| + 1 && recorded[..|old(recorded)|] == old(recorded)
      ensures var v := recorded[|recorded| - 1];
              min <= v <= max && (v == latencyNs || (v == max < latencyNs) || (v == min > latencyNs))
    {
      RecordsOneMore(min, max, observed, recorded, clampLow, clampHigh, latencyNs);
      if latencyNs < min {
        clampLow := clampLow + 1;
        recorded := recorded + [min];
      } else if latencyNs > max {
        clampHigh := clampHigh + 1;
        recorded := recorded + [max];
      } else {
        recorded := recorded + [latencyNs];
      }
      observed := observed + [latencyNs];
    }

    /** The value at a rank is in range, at the ceiling or the floor exactly when the true order statistic
        is there or beyond, and it is the true one exactly when the two clamp counters leave that rank
        alone. */
    method ValueAtRank(k: nat) returns (v: int)
      requires Valid() && k < |recorded|
      ensures |observed| == |recorded|
      ensures min <= v <= max
      ensures min < max ==> (v == max <==> Sorted(observed)[k] >= max) && (v == min <==> Sorted(observed)[k] <= min)
      ensures v == Sorted(observed)[k] <==> clampLow <= k < |recorded| - clampHigh
    {
      v := Sorted(recorded)[k];
      ClampCommutes(min, max, observed, k);
      ExactIff(min, max, observed, k);
    }
  }

  lemma ClampedOneMore(min: int, max: int, s: seq<int>, x: int)
    ensures Clamped(min, max, s + [x]) == Clamped(min, max, s) + [Clamp(min, max, x)]
  {
  }

  lemma ClamperIsMonotone(min: int, max: int)
    requires min <= max
    ensures Monotone(Clamper(min, max))
  {
  }

  /** Clamping commutes with every order statistic. */
  lemma ClampCommutes(min: int, max: int, s: seq<int>, k: nat)
    requires min <= max && k < |s|
    ensures Sorted(Clamped(min, max, s))[k] == Clamp(min, max, Sorted(s)[k])
  {
    ClamperIsMonotone(min, max);
    SortingCommutes(Clamper(min, max), s);
  }

  /** So a reading is at the ceiling exactly when the true order statistic is there or above, at the
      floor exactly when it is there or below, and exact otherwise. */
  lemma SaturationIsOneSided(min: int, max: int, s: seq<int>, k: nat)
    requires min < max && k < |s|
    ensures var v, true_ := Sorted(Clamped(min, max, s))[k], Sorted(s)[k];
            && min <= v <= max
            && (v == max <==> true_ >= max)
            && (v == min <==> true_ <= min)
            && (min < v < max ==> v == true_)
  {
    ClampCommutes(min, max, s, k);
  }

  lemma ExactIff(min: int, max: int, s: seq<int>, k: nat)
    requires min <= max && k < |s|
    ensures Clamp(min, max, Sorted(s)[k]) == Sorted(s)[k]
       <==> Count(s, Under(min)) <= k < |s| - Count(s, Over(max))
  {
    SortedIsOrdered(s);
    var below, within, above := Under(min), x => x <= max, Over(max);
    CountSorted(s, below);
    RankIff(Sorted(s), below, k);
    CountSorted(s, within);
    RankIff(Sorted(s), within, k);
    CountSplits(s, within, above);
  }

  lemma {:induction false} CountSplits(s: seq<int>, p: int -> bool, q: int -> bool)
    requires forall x :: p(x) <==> !q(x)
    ensures Count(s, p) + Count(s, q) == |s|
  {
    if s != [] {
      CountSplits(s[1..], p, q);
    }
  }

  // ----- the interpolated percentile -----

  /** The value at a fractional rank of an ordered list, before truncation. */
  function At(t: seq<int>, rank: real): real
    requires t != [] && 0.0 <= rank <= (|t| - 1) as real
  {
    var lower := rank.Floor;
    var upper := Min(lower + 1, |t| - 1);
    Blend(t[lower] as real, t[upper] as real, rank - lower as real)
  }

  function Blend(a: real, b: real, weight: real): real { a * (1.0 - weight) + b * weight }

  function Rank(p: real, n: nat): (rank: real)
    requires 0.0 < p < 1.0 && n > 0
    ensures 0.0 <= rank <= (n - 1) as real
  {
    FractionOf(p, (n - 1) as real);
    Reals.Times(p, (n - 1) as real)
  }

  lemma FractionOf(p: real, m: real)
    requires 0.0 <= p <= 1.0 && m >= 0.0
    ensures 0.0 <= Reals.Times(p, m) <= m
  {
    Reals.Sign(p, m);
    Reals.Sign(1.0 - p, m);
    assert Reals.Times(1.0 - p, m) == m - Reals.Times(p, m);
  }

  /** Both `_percentile_ns`: 0 on no values. */
  function Percentile(values: seq<int>, p: real): int {
    var t := Sorted(values);
    if values == [] then 0
    else if p <= 0.0 then t[0]
    else if p >= 1.0 then t[|t| - 1]
    else Truncate(At(t, Rank(p, |t|)))
  }

  /** Only the values matter, not the order they came in. */
  lemma PercentileForgetsOrder(values: seq<int>, others: seq<int>, p: real)
    requires multiset(values) == multiset(others)
    ensures Percentile(values, p) == Percentile(others, p)
  {
    SortingForgetsOrder(values, others);
    assert |values| == |Sorted(values)| == |others|;
  }

  lemma BlendIsBetween(a: real, b: real, w: real)
    requires a <= b && 0.0 <= w <= 1.0
    ensures a <= Blend(a, b, w) <= b
  {
    FractionOf(w, b - a);
    BlendIsShift(a, b, w);
  }

  lemma BlendIsShift(a: real, b: real, w: real)
    ensures Blend(a, b, w) == a + Reals.Times(w, b - a)
  {
  }

  lemma BlendClimbs(a: real, b: real, v: real, w: real)
    requires a <= b && v <= w
    ensures Blend(a, b, v) <= Blend(a, b, w)
  {
    BlendIsShift(a, b, v);
    BlendIsShift(a, b, w);
    Reals.Sign(w - v, b - a);
    assert Reals.Times(w, b - a) - Reals.Times(v, b - a) == Reals.Times(w - v, b - a);
  }

  lemma AtIsBetween(t: seq<int>, rank: real)
    requires Ordered(t) && t != [] && 0.0 <= rank <= (|t| - 1) as real
    ensures t[rank.Floor] as real <= At(t, rank) <= t[Min(rank.Floor + 1, |t| - 1)] as real
  {
    var lower := rank.Floor;
    BlendIsBetween(t[lower] as real, t[Min(lower + 1, |t| - 1)] as real, rank - lower as real);
  }

  lemma AtClimbs(t: seq<int>, r: real, q: real)
    requires Ordered(t) && t != [] && 0.0 <= r <= q <= (|t| - 1) as real
    ensures At(t, r) <= At(t, q)
  {
    if r.Floor == q.Floor {
      BlendClimbs(t[r.Floor] as real, t[Min(r.Floor + 1, |t| - 1)] as real, r - r.Floor as real, q - r.Floor as real);
    } else {
      AtIsBetween(t, r);
      AtIsBetween(t, q);
      assert r.Floor + 1 <= q.Floor;
    }
  }

  lemma RankClimbs(p: real, q: real, n: nat)
    requires 0.0 < p <= q < 1.0 && n > 0
    ensures Rank(p, n) <= Rank(q, n)
  {
    var m := (n - 1) as real;
    FractionOf(q - p, m);
    assert Reals.Times(q, m) - Reals.Times(p, m) == Reals.Times(q - p, m);
  }

  lemma TruncateClimbs(x: real, y: real)
    requires x <= y
    ensures Truncate(x) <= Truncate(y)
  {
  }

  lemma TruncateBetween(a: int, x: real, b: int)
    requires a as real <= x <= b as real
    ensures a <= Truncate(x) <= b
  {
  }

  /** Every percentile lies between the least and the greatest value. */
  lemma PercentileIsBetween(values: seq<int>, p: real)
    requires values != []
    ensures Sorted(values)[0] <= Percentile(values, p) <= Sorted(values)[|values| - 1]
  {
    SortedIsOrdered(values);
    if 0.0 < p < 1.0 {
      InnerIsBetween(Sorted(values), Rank(p, |values|));
    }
  }

  lemma InnerIsBetween(t: seq<int>, rank: real)
    requires Ordered(t) && t != [] && 0.0 <= rank <= (|t| - 1) as real
    ensures t[0] <= Truncate(At(t, rank)) <= t[|t| - 1]
  {
    AtIsBetween(t, rank);
    TruncateBetween(t[rank.Floor], At(t, rank), t[Min(rank.Floor + 1, |t| - 1)]);
  }

  lemma AtWholeRank(t: seq<int>, k: nat)
    requires k < |t|
    ensures At(t, k as real) == t[k] as real && Truncate(At(t, k as real)) == t[k]
  {
    BlendAtStart(t[k] as real, t[Min(k + 1, |t| - 1)] as real);
  }

  /** At the fraction p = k/(n - 1) the percentile is the k-th order statistic itself. */
  lemma PercentileAtRank(values: seq<int>, k: nat, p: real)
    requires k < |values| && |values| >= 2 && p == k as real / (|values| - 1) as real
    ensures Percentile(values, p) == Sorted(values)[k]
  {
    FractionAtRank(k as real, (|values| - 1) as real, p);
    InnerAtRank(values, k as real, p);
    AtWholeRank(Sorted(values), k);
  }

  lemma InnerAtRank(values: seq<int>, rank: real, p: real)
    requires values != [] && 0.0 <= rank <= (|values| - 1) as real && Reals.Times(p, (|values| - 1) as real) == rank
    requires (p <= 0.0 ==> rank == 0.0) && (p >= 1.0 ==> rank == (|values| - 1) as real)
    ensures Percentile(values, p) == Truncate(At(Sorted(values), rank))
  {
    if p <= 0.0 {
      AtWholeRank(Sorted(values), 0);
    } else if p >= 1.0 {
      AtWholeRank(Sorted(values), |values| - 1);
    }
  }

  lemma FractionAtRank(k: real, m: real, p: real)
    requires 0.0 <= k <= m && m > 0.0 && p == k / m
    ensures Reals.Times(p, m) == k && (p <= 0.0 ==> k == 0.0) && (p >= 1.0 ==> k == m)
  {
    Reals.Quotient(k, m);
    assert Reals.Times(m, k / m) == Reals.Times(p, m);
    EndFractions(p, m);
  }

  /** A fraction at or beyond an end has the rank of that end, or one beyond it. */
  lemma EndFractions(p: real, m: real)
    requires m > 0.0
    ensures (p <= 0.0 ==> Reals.Times(p, m) <= 0.0) && (p >= 1.0 ==> Reals.Times(p, m) >= m)
  {
    Reals.Sign(p, m);
    Reals.Sign(p - 1.0, m);
    assert Reals.Times(p - 1.0, m) == Reals.Times(p, m) - m;
  }

  lemma BlendAtStart(a: real, b: real)
    ensures Blend(a, b, 0.0) == a
  {
  }

  /** A higher fraction never gives a lower percentile. */
  lemma PercentileClimbs(values: seq<int>, p: real, q: real)
    requires p <= q
    ensures Percentile(values, p) <= Percentile(values, q)
  {
    if values != [] {
      if 0.0 < p && q < 1.0 {
        SortedIsOrdered(values);
        RankClimbs(p, q, |values|);
        AtClimbs(Sorted(values), Rank(p, |values|), Rank(q, |values|));
        TruncateClimbs(At(Sorted(values), Rank(p, |values|)), At(Sorted(values), Rank(q, |values|)));
      } else {
        PercentileIsBetween(values, p);
        PercentileIsBetween(values, q);
      }
    }
  }

  lemma AtInterpolates(t: seq<int>, k: nat, w: real)
    requires k + 1 < |t| && 0.0 <= w <= 1.0
    ensures At(t, k as real + w) == t[k] as real + Reals.Times(w, t[k + 1] as real - t[k] as real)
  {
    if w == 1.0 {
      AtWholeRank(t, k + 1);
    } else {
      assert (k as real + w).Floor == k;
      BlendIsShift(t[k] as real, t[k + 1] as real, w);
    }
  }

  /** Between whole ranks the percentile is linear: at a fraction whose rank p(n - 1) is k + w it is the
      k-th order statistic plus w of the way to the next, cut to an integer. */
  lemma PercentileInterpolates(values: seq<int>, k: nat, w: real, p: real) returns (x: real)
    requires k + 1 < |values| && 0.0 <= w <= 1.0 && Reals.Times(p, (|values| - 1) as real) == k as real + w
    ensures x == Sorted(values)[k] as real + Reals.Times(w, Sorted(values)[k + 1] as real - Sorted(values)[k] as real)
    ensures Percentile(values, p) == Truncate(x)
  {
    x := At(Sorted(values), k as real + w);
    EndFractions(p, (|values| - 1) as real);
    InnerAtRank(values, k as real + w, p);
    AtInterpolates(Sorted(values), k, w);
  }

  // ----- the bootstrap interval of the median -----

  /** Half an integer, cut toward zero. */
  function HalfToZero(sum: int): int { if sum >= 0 then sum / 2 else -(-sum / 2) }

  /** It is what `int` makes of the quotient. */
  lemma HalfTowardZero(sum: int)
    ensures Truncate(sum as real / 2.0) == HalfToZero(sum)
  {
    var half := sum as real / 2.0;
    assert sum >= 0 ==> (sum / 2) as real <= half < (sum / 2) as real + 1.0;
    assert sum < 0 ==> (-sum / 2) as real <= -half < (-sum / 2) as real + 1.0;
  }

  /** `int(statistics.median(s))`. */
  function Median(s: seq<int>): int
    requires s != []
  {
    Middle(Sorted(s), |s|)
  }

  function Middle(t: seq<int>, n: nat): int
    requires |t| == n > 0
  {
    if n % 2 == 1 then t[n / 2] else HalfToZero(t[n / 2 - 1] + t[n / 2])
  }

  /** The lower and the upper median are entries with fewer than half beyond them and at least half up
      to them, no entry lies between them, and the median is their mean cut to an integer; for an odd
      number of values they are one. */
  lemma MedianIsMiddle(s: seq<int>) returns (a: int, b: int)
    requires s != []
    ensures a in s && b in s && a <= b && (|s| % 2 == 1 ==> a == b)
    ensures 2 * Count(s, x => x < a) < |s| <= 2 * Count(s, x => x <= a)
    ensures 2 * Count(s, x => x > b) < |s| <= 2 * Count(s, x => x >= b)
    ensures forall x :: x in s ==> x <= a || x >= b
    ensures Median(s) == if a + b >= 0 then (a + b) / 2 else -(-(a + b) / 2)
  {
    MiddleIsMean(Sorted(s), |s|, (|s| - 1) / 2, |s| / 2);
    a, b := MiddleEntries(s, (|s| - 1) / 2, |s| / 2);
  }

  lemma MiddleEntries(s: seq<int>, low: nat, high: nat) returns (a: int, b: int)
    requires low + high + 1 == |s| && low <= high <= low + 1
    ensures a == Sorted(s)[low] && b == Sorted(s)[high]
    ensures a in s && b in s && a <= b
    ensures 2 * Count(s, x => x < a) < |s| <= 2 * Count(s, x => x <= a)
    ensures 2 * Count(s, x => x > b) < |s| <= 2 * Count(s, x => x >= b)
    ensures forall x :: x in s ==> x <= a || x >= b
  {
    a, b := Sorted(s)[low], Sorted(s)[high];
    NextInOrder(s, low, high);
    SideCounts(s, low, a);
    SideCounts(s, high, b);
  }

  lemma MiddleIsMean(t: seq<int>, n: nat, low: nat, high: nat)
    requires |t| == n > 0 && low == (n - 1) / 2 && high == n / 2
    ensures Middle(t, n) == HalfToZero(t[low] + t[high])
  {
  }

  /** Nothing lies between an order statistic and the next. */
  lemma NextInOrder(s: seq<int>, j: nat, k: nat)
    requires j <= k <= j + 1 && k < |s|
    ensures Sorted(s)[j] in s && Sorted(s)[k] in s && Sorted(s)[j] <= Sorted(s)[k]
    ensures forall x :: x in s ==> x <= Sorted(s)[j] || x >= Sorted(s)[k]
  {
    SortedIsOrdered(s);
    SortedKeeps(s, Sorted(s)[j]);
    SortedKeeps(s, Sorted(s)[k]);
    forall x | x in s ensures x <= Sorted(s)[j] || x >= Sorted(s)[k] {
      SortedKeeps(s, x);
      NothingBetween(Sorted(s), j, k, x);
    }
  }

  lemma SortedKeeps(s: seq<int>, x: int)
    ensures x in Sorted(s) <==> x in s
  {
    SortedPermutes(s);
    assert x in Sorted(s) <==> x in multiset(Sorted(s));
    assert x in s <==> x in multiset(s);
  }

  lemma NothingBetween(t: seq<int>, j: nat, k: nat, x: int)
    requires Ordered(t) && j <= k <= j + 1 && k < |t| && x in t
    ensures x <= t[j] || x >= t[k]
  {
    var i :| 0 <= i < |t| && t[i] == x;
  }

  /** How many entries lie on either side of the k-th order statistic. */
  lemma SideCounts(s: seq<int>, k: nat, v: int)
    requires k < |s| && v == Sorted(s)[k]
    ensures Count(s, x => x < v) <= k < Count(s, x => x <= v)
    ensures Count(s, x => x > v) <= |s| - 1 - k < Count(s, x => x >= v)
  {
    var below, within, above, from := x => x < v, x => x <= v, x => x > v, x => x >= v;
    SortedIsOrdered(s);
    CountSorted(s, below);
    RankIff(Sorted(s), below, k);
    CountSorted(s, within);
    RankIff(Sorted(s), within, k);
    CountSplits(s, within, above);
    CountSplits(s, below, from);
    CountAgrees(s, below, x => x < v);
    CountAgrees(s, within, x => x <= v);
    CountAgrees(s, above, x => x > v);
    CountAgrees(s, from, x => x >= v);
  }

  lemma SortedStaysWithin(s: seq<int>, low: int, high: int)
    requires Within(s, low, high)
    ensures Within(Sorted(s), low, high)
  {
    SortedPermutes(s);
    forall i | 0 <= i < |s| ensures low <= Sorted(s)[i] <= high {
      assert Sorted(s)[i] in multiset(Sorted(s));
    }
  }

  lemma MedianStaysWithin(s: seq<int>, low: int, high: int)
    requires s != [] && Within(s, low, high)
    ensures low <= Median(s) <= high
  {
    SortedStaysWithin(s, low, high);
  }

  /** Which indices one resample draws. */
  predicate Draws(d: seq<nat>, n: nat) { |d| == n && forall i :: 0 <= i < n ==> d[i] < n }

  ghost predicate IsStream(stream: seq<seq<nat>>, n: nat) { forall i :: 0 <= i < |stream| ==> Draws(stream[i], n) }

  /** The values at the drawn indices. */
  function Resample(values: seq<int>, d: seq<nat>): (r: seq<int>)
    requires Draws(d, |values|)
    ensures |r| == |values| && forall i :: 0 <= i < |r| ==> r[i] == values[d[i]]
  {
    seq(|values|, i requires 0 <= i < |values| => values[d[i]])
  }

  function Medians(values: seq<int>, stream: seq<seq<nat>>): (m: seq<int>)
    requires values != [] && IsStream(stream, |values|)
    ensures |m| == |stream| && forall i :: 0 <= i < |m| ==> m[i] == Median(Resample(values, stream[i]))
  {
    seq(|stream|, i requires 0 <= i < |stream| => Median(Resample(values, stream[i])))
  }

  /** For every random stream the interval is ordered, stays inside the values' range, and leaves out
      at most its share of the resampled medians on either side. */
  method BootstrapMedian(values: seq<int>, iterations: nat, stream: seq<seq<nat>>) returns (lo: int, hi: int)
    requires iterations > 0 && |stream| == iterations && IsStream(stream, |values|)
    ensures values == [] ==> lo == 0 && hi == 0
    ensures values != [] ==> Sorted(values)[0] <= lo <= hi <= Sorted(values)[|values| - 1]
    ensures values != [] ==> lo in Medians(values, stream) && hi in Medians(values, stream)
    ensures values != [] ==>
      var low := (0.025 * iterations as real).Floor;
      Count(Medians(values, stream), x => x < lo) <= low < Count(Medians(values, stream), x => x <= lo)
    ensures values != [] ==>
      var high := Min((0.975 * iterations as real).Floor, iterations - 1);
      Count(Medians(values, stream), x => x < hi) <= high < Count(Medians(values, stream), x => x <= hi)
  {
    if values == [] {
      return 0, 0;
    }
    var samples := [];
    for it := 0 to iterations
      invariant |samples| == it
      invariant forall i :: 0 <= i < it ==> samples[i] == Medians(values, stream)[i]
    {
      samples := samples + [Median(Resample(values, stream[it]))];
    }
    assert samples == Medians(values, stream);
    MediansStayWithin(values, stream);
    SortedStaysWithin(samples, Sorted(values)[0], Sorted(values)[|values| - 1]);
    ghost var drawn := samples;
    samples := Sorted(samples);
    lo := samples[(0.025 * iterations as real).Floor];
    hi := samples[Min((0.975 * iterations as real).Floor, iterations - 1)];
    SortedIsOrdered(drawn);
    SideCounts(drawn, (0.025 * iterations as real).Floor, lo);
    SideCounts(drawn, Min((0.975 * iterations as real).Floor, iterations - 1), hi);
    SortedKeeps(drawn, lo);
    SortedKeeps(drawn, hi);
  }

  lemma MediansStayWithin(values: seq<int>, stream: seq<seq<nat>>)
    requires values != [] && IsStream(stream, |values|)
    ensures Within(Medians(values, stream), Sorted(values)[0], Sorted(values)[|values| - 1])
  {
    var low, high := Sorted(values)[0], Sorted(values)[|values| - 1];
    RangeOf(values);
    forall i | 0 <= i < |stream| ensures low <= Medians(values, stream)[i] <= high {
      ResampleStaysWithin(values, stream[i], low, high);
      MedianStaysWithin(Resample(values, stream[i]), low, high);
    }
  }

  lemma ResampleStaysWithin(values: seq<int>, d: seq<nat>, low: int, high: int)
    requires Draws(d, |values|) && Within(values, low, high)
    ensures Within(Resample(values, d), low, high)
  {
  }

  lemma {:induction false} CountAgrees(s: seq<int>, p: int -> bool, q: int -> bool)
    requires forall x :: p(x) == q(x)
    ensures Count(s, p) == Count(s, q)
  {
    if s != [] {
      CountAgrees(s[1..], p, q);
    }
  }

  lemma RangeOf(s: seq<int>)
    requires s != []
    ensures Within(s, Sorted(s)[0], Sorted(s)[|s| - 1])
  {
    SortedIsOrdered(s);
    SortedPermutes(s);
    var t := Sorted(s);
    forall i | 0 <= i < |s| ensures t[0] <= s[i] <= t[|s| - 1] {
      assert s[i] in multiset(s);
    }
  }
}
