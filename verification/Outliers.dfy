/** The idle pilot's outlier threshold and the window partition it feeds. */
module Outliers {
  import opened Numbers
  import opened Sorting

  const MAD_MULTIPLIER := 8

  // ----- the pilot threshold -----

  /** The element at the midpoint of the sorted list. */
  function Midpoint(s: seq<int>): int
    requires s != []
  {
    Sorted(s)[|s| / 2]
  }

  function Distance(m: int): int -> int { x => if x < m then m - x else x - m }

  /** The median absolute deviation, by midpoint elements. */
  function Mad(samples: seq<int>): int
    requires samples != []
  {
    Midpoint(Map(Distance(Midpoint(samples)), Sorted(samples)))
  }

  /** The median plus eight times the median absolute deviation. */
  function MadThreshold(samples: seq<int>): int
    requires samples != []
  {
    Midpoint(samples) + MAD_MULTIPLIER * Mad(samples)
  }

  function AtMost(b: int): int -> bool { x => x <= b }

  lemma {:induction false} MapCounts(f: int -> int, s: seq<int>, p: int -> bool, q: int -> bool)
    requires forall x :: p(f(x)) ==> q(x)
    ensures Count(Map(f, s), p) <= Count(s, q)
  {
    if s != [] {
      MapCounts(f, s[1..], p, q);
      assert Map(f, s)[1..] == Map(f, s[1..]);
    }
  }

  /** More than half of any list is at or below its midpoint. */
  lemma HalfAtMostMidpoint(s: seq<int>)
    requires s != []
    ensures Count(s, AtMost(Midpoint(s))) >= |s| / 2 + 1
  {
    SortedIsOrdered(s);
    CountSorted(s, AtMost(Midpoint(s)));
    RankIff(Sorted(s), AtMost(Midpoint(s)), |s| / 2);
  }

  function Below(b: int): int -> bool { x => x < b }

  /** The midpoint is the median: at most half lie below it, more than half at or below. */
  lemma MidpointIsMedian(s: seq<int>)
    requires s != []
    ensures Midpoint(s) in s
    ensures Count(s, Below(Midpoint(s))) <= |s| / 2 < Count(s, AtMost(Midpoint(s)))
  {
    MidpointIsEntry(s);
    HalfAtMostMidpoint(s);
    SortedIsOrdered(s);
    CountSorted(s, Below(Midpoint(s)));
    RankIff(Sorted(s), Below(Midpoint(s)), |s| / 2);
  }

  lemma {:induction false} CountMapped(f: int -> int, s: seq<int>, p: int -> bool)
    ensures Count(Map(f, s), p) == Count(s, x => p(f(x)))
  {
    if s != [] {
      CountMapped(f, s[1..], p);
      assert Map(f, s)[1..] == Map(f, s[1..]);
    }
  }

  /** The MAD is the median distance from the median: at most half of the samples are strictly nearer,
      more than half at most as far, and some sample is exactly as far. */
  lemma MadIsMedianDistance(samples: seq<int>)
    requires samples != []
    ensures var near, m, mad := Distance(Midpoint(samples)), |samples| / 2, Mad(samples);
            && Count(samples, x => Below(mad)(near(x))) <= m < Count(samples, x => AtMost(mad)(near(x)))
            && (exists i :: 0 <= i < |samples| && near(samples[i]) == mad)
            && forall x :: near(x) >= 0 && (near(x) == x - Midpoint(samples) || near(x) == Midpoint(samples) - x)
  {
    var near, mad := Distance(Midpoint(samples)), Mad(samples);
    var off := Map(near, Sorted(samples));
    MidpointIsMedian(off);
    CountMapped(near, Sorted(samples), Below(mad));
    CountMapped(near, Sorted(samples), AtMost(mad));
    CountSorted(samples, x => Below(mad)(near(x)));
    CountSorted(samples, x => AtMost(mad)(near(x)));
    SortedPermutes(samples);
    var k :| 0 <= k < |off| && off[k] == mad;
    assert Sorted(samples)[k] in multiset(Sorted(samples));
    assert Sorted(samples)[k] in multiset(samples);
  }

  lemma MidpointIsEntry(s: seq<int>)
    requires s != []
    ensures Midpoint(s) in s
  {
    SortedPermutes(s);
    assert Midpoint(s) in multiset(Sorted(s));
  }

  /** At least n/2 + 1 of any n samples are at or below the threshold. */
  lemma MostSamplesPass(samples: seq<int>)
    requires samples != []
    ensures Count(samples, AtMost(MadThreshold(samples))) >= |samples| / 2 + 1
  {
    HalfAtMostMidpoint(Map(Distance(Midpoint(samples)), Sorted(samples)));
    MadNotNegative(samples);
    CloseIsBelow(Sorted(samples), Midpoint(samples), Mad(samples), MadThreshold(samples));
    CountSorted(samples, AtMost(MadThreshold(samples)));
  }

  lemma MadNotNegative(samples: seq<int>)
    requires samples != []
    ensures Mad(samples) >= 0 && MadThreshold(samples) >= Midpoint(samples) + Mad(samples)
  {
    DistanceNotNegative(Midpoint(samples), Sorted(samples));
    MidpointIsEntry(Map(Distance(Midpoint(samples)), Sorted(samples)));
  }

  lemma DistanceNotNegative(m: int, s: seq<int>)
    ensures forall d :: d in Map(Distance(m), s) ==> d >= 0
  {
  }

  lemma CloseIsBelow(s: seq<int>, median: int, mad: int, threshold: int)
    requires threshold >= median + mad
    ensures Count(Map(Distance(median), s), AtMost(mad)) <= Count(s, AtMost(threshold))
  {
    MapCounts(Distance(median), s, AtMost(mad), AtMost(threshold));
  }

  function Shift(step: int): int -> int { x => x + step }

  lemma ShiftIsMonotone(step: int)
    ensures Monotone(Shift(step))
  {
  }

  lemma SortedShifts(samples: seq<int>, step: int)
    requires samples != []
    ensures Sorted(Map(Shift(step), samples)) == Map(Shift(step), Sorted(samples))
    ensures Midpoint(Map(Shift(step), samples)) == Midpoint(samples) + step
  {
    ShiftIsMonotone(step);
    SortingCommutes(Shift(step), samples);
  }

  /** Before flooring, the threshold moves with the samples. */
  lemma ThresholdShifts(samples: seq<int>, step: int)
    requires samples != []
    ensures MadThreshold(Map(Shift(step), samples)) == MadThreshold(samples) + step
  {
    SortedShifts(samples, step);
    MadStays(samples, step);
  }

  lemma MadStays(samples: seq<int>, step: int)
    requires samples != []
    ensures Mad(Map(Shift(step), samples)) == Mad(samples)
  {
    SortedShifts(samples, step);
    SameDistances(Sorted(samples), Sorted(Map(Shift(step), samples)), Midpoint(samples), step);
  }

  lemma SameDistances(s: seq<int>, t: seq<int>, median: int, step: int)
    requires t == Map(Shift(step), s)
    ensures Map(Distance(median + step), t) == Map(Distance(median), s)
  {
  }

  /** Nor does it depend on the order of the pilot's windows. */
  lemma ThresholdForgetsOrder(samples: seq<int>, others: seq<int>)
    requires samples != [] && multiset(samples) == multiset(others)
    ensures others != [] && MadThreshold(samples) == MadThreshold(others)
  {
    SortingForgetsOrder(samples, others);
    assert |samples| == |Sorted(samples)| == |others|;
  }

  /** The threshold used on the utime column. */
  function UtimeThreshold(floor: int, samples: seq<int>): int
    requires samples != []
  {
    Max(floor, MadThreshold(samples))
  }

  /** A utime is over the threshold exactly when it is over the floor and more than eight median
      deviations over the median. */
  lemma OverThresholdIff(x: int, floor: int, samples: seq<int>)
    requires samples != []
    ensures x > UtimeThreshold(floor, samples) <==> x > floor && x - Midpoint(samples) > 8 * Mad(samples)
  {
  }

  // ----- the partition -----

  /** The swarm's rows matter through their invariant flag only. */
  datatype Window = Window(arm: string, rejected: bool, invariantFailed: seq<bool>, utime: int)

  predicate Sound(w: Window) { !w.rejected && !(true in w.invariantFailed) }

  predicate Outlier(w: Window, threshold: int, pilotSkipped: bool) {
    w.arm == "idle" && !pilotSkipped && w.utime > threshold
  }

  predicate Kept(w: Window, threshold: int, pilotSkipped: bool) {
    Sound(w) && !Outlier(w, threshold, pilotSkipped)
  }

  /** The windows kept, in order. */
  function Survivors(ws: seq<Window>, threshold: int, pilotSkipped: bool): seq<Window> {
    if ws == [] then []
    else
      var last := ws[|ws| - 1];
      Survivors(ws[..|ws| - 1], threshold, pilotSkipped) + (if Kept(last, threshold, pilotSkipped) then [last] else [])
  }

  /** How many windows that pass the shared filters fall to the outlier filter. */
  function OutlierCount(ws: seq<Window>, threshold: int, pilotSkipped: bool): nat {
    if ws == [] then 0
    else
      var last := ws[|ws| - 1];
      OutlierCount(ws[..|ws| - 1], threshold, pilotSkipped)
      + (if Sound(last) && Outlier(last, threshold, pilotSkipped) then 1 else 0)
  }

  method AnyFailed(flags: seq<bool>) returns (any: bool)
    ensures any <==> true in flags
  {
    any := false;
    for i := 0 to |flags|
      invariant any <==> true in flags[..i]
    {
      any := any || flags[i];
    }
  }

  /** The partition: both survivor lists are the kept windows, accepted and rejected make up the
      total, and only the idle arm loses windows to the outlier filter. */
  method PartitionWindows(windows: seq<Window>, threshold: int, pilotSkipped: bool)
    returns (acceptedUtime: seq<Window>, acceptedSchedstat: seq<Window>, rejected: nat, outlierIdle: nat, outlierLoaded: nat)
    ensures acceptedUtime == acceptedSchedstat == Survivors(windows, threshold, pilotSkipped)
    ensures |acceptedUtime| + rejected == |windows|
    ensures outlierIdle == OutlierCount(windows, threshold, pilotSkipped) && outlierLoaded == 0
  {
    acceptedUtime, acceptedSchedstat, rejected, outlierIdle, outlierLoaded := [], [], 0, 0, 0;
    var i := 0;
    while i < |windows|
      invariant i <= |windows|
      invariant acceptedUtime == acceptedSchedstat == Survivors(windows[..i], threshold, pilotSkipped)
      invariant |acceptedUtime| + rejected == i
      invariant outlierIdle == OutlierCount(windows[..i], threshold, pilotSkipped) && outlierLoaded == 0
    {
      var row := windows[i];
      assert windows[..i + 1][..i] == windows[..i];
      i := i + 1;
      if row.rejected {
        rejected := rejected + 1;
        continue;
      }
      var failed := AnyFailed(row.invariantFailed);
      if failed {
        rejected := rejected + 1;
        continue;
      }
      if row.arm == "idle" && !pilotSkipped && row.utime > threshold {
        rejected := rejected + 1;
        outlierIdle := outlierIdle + 1;
        continue;
      }
      acceptedUtime := acceptedUtime + [row];
      acceptedSchedstat := acceptedSchedstat + [row];
    }
    assert windows[..i] == windows;
  }

  /** A window survives exactly when the harness did not reject it, no swarm row of it failed an
      invariant, and it is not an idle window over the threshold of a pilot that ran. */
  lemma {:induction false} SurvivesIff(ws: seq<Window>, w: Window, threshold: int, pilotSkipped: bool)
    ensures w in Survivors(ws, threshold, pilotSkipped) <==>
            && w in ws && !w.rejected && true !in w.invariantFailed
            && (w.arm == "idle" ==> pilotSkipped || w.utime <= threshold)
  {
    if ws != [] {
      var n := |ws| - 1;
      SurvivesIff(ws[..n], w, threshold, pilotSkipped);
      assert w in ws <==> w in ws[..n] || w == ws[n];
    }
  }

  /** Where the survivors stood: strictly ascending positions, and exactly those of kept windows. */
  lemma {:induction false} SurvivorsInOrder(ws: seq<Window>, threshold: int, pilotSkipped: bool) returns (at: seq<nat>)
    ensures |at| == |Survivors(ws, threshold, pilotSkipped)|
    ensures forall k :: 0 <= k < |at| ==> at[k] < |ws| && ws[at[k]] == Survivors(ws, threshold, pilotSkipped)[k]
    ensures forall j, k :: 0 <= j < k < |at| ==> at[j] < at[k]
    ensures forall i :: 0 <= i < |ws| ==> (i in at <==> Kept(ws[i], threshold, pilotSkipped))
  {
    if ws == [] {
      at := [];
    } else {
      var rest := ws[..|ws| - 1];
      at := SurvivorsInOrder(rest, threshold, pilotSkipped);
      ghost var before := at;
      if Kept(ws[|ws| - 1], threshold, pilotSkipped) {
        at := at + [|ws| - 1];
      }
      forall i | 0 <= i < |ws| ensures i in at <==> Kept(ws[i], threshold, pilotSkipped) {
        if i < |ws| - 1 {
          assert rest[i] == ws[i];
          assert i in at <==> i in before;
        } else {
          assert i !in before;
        }
      }
    }
  }

  /** The windows of one arm. */
  function OfArm(ws: seq<Window>, arm: string): seq<Window> {
    if ws == [] then []
    else OfArm(ws[..|ws| - 1], arm) + (if ws[|ws| - 1].arm == arm then [ws[|ws| - 1]] else [])
  }

  /** What one more window adds to the survivors of an arm. */
  function Added(w: Window, arm: string, threshold: int, pilotSkipped: bool): seq<Window> {
    if Kept(w, threshold, pilotSkipped) && w.arm == arm then [w] else []
  }

  lemma AddedAlike(w: Window, arm: string, a: int, b: int, p: bool, q: bool)
    requires arm != "idle"
    ensures Added(w, arm, a, p) == Added(w, arm, b, q)
  {
  }

  /** Neither the threshold nor a skipped pilot changes what survives of any arm but the idle one. */
  lemma {:induction false} OnlyIdleIsFiltered(ws: seq<Window>, arm: string, a: int, b: int, p: bool, q: bool)
    requires arm != "idle"
    ensures OfArm(Survivors(ws, a, p), arm) == OfArm(Survivors(ws, b, q), arm)
  {
    if ws != [] {
      var front, last := ws[..|ws| - 1], ws[|ws| - 1];
      OnlyIdleIsFiltered(front, arm, a, b, p, q);
      OneMoreSurvivor(ws, arm, a, p);
      OneMoreSurvivor(ws, arm, b, q);
      AddedAlike(last, arm, a, b, p, q);
    }
  }

  lemma OneMoreSurvivor(ws: seq<Window>, arm: string, threshold: int, pilotSkipped: bool)
    requires ws != []
    ensures OfArm(Survivors(ws, threshold, pilotSkipped), arm)
         == OfArm(Survivors(ws[..|ws| - 1], threshold, pilotSkipped), arm)
            + Added(ws[|ws| - 1], arm, threshold, pilotSkipped)
  {
    var before, last := Survivors(ws[..|ws| - 1], threshold, pilotSkipped), ws[|ws| - 1];
    if Kept(last, threshold, pilotSkipped) {
      OfArmAppend(before, last, arm);
    } else {
      assert before + [] == before;
    }
  }

  lemma OfArmAppend(ws: seq<Window>, w: Window, arm: string)
    ensures OfArm(ws + [w], arm) == OfArm(ws, arm) + (if w.arm == arm then [w] else [])
  {
    assert (ws + [w])[..|ws|] == ws;
  }

  /** What is rejected is unsound or an idle outlier, and each cause is counted. */
  lemma {:induction false} RejectionsByCause(ws: seq<Window>, threshold: int, pilotSkipped: bool)
    ensures |ws| == |Survivors(ws, threshold, pilotSkipped)| + OutlierCount(ws, threshold, pilotSkipped)
                    + (|ws| - |Survivors(ws, threshold, true)|)
  {
    if ws != [] {
      RejectionsByCause(ws[..|ws| - 1], threshold, pilotSkipped);
    }
  }

  // ----- the two together -----

  /** The windows' utime column. */
  function Utimes(ws: seq<Window>): (s: seq<int>)
    ensures |s| == |ws|
  {
    if ws == [] then [] else Utimes(ws[..|ws| - 1]) + [ws[|ws| - 1].utime]
  }

  lemma {:induction false} OutliersExceed(ws: seq<Window>, threshold: int, pilotSkipped: bool)
    ensures OutlierCount(ws, threshold, pilotSkipped) + Count(Utimes(ws), AtMost(threshold)) <= |ws|
  {
    if ws != [] {
      var rest, last := ws[..|ws| - 1], ws[|ws| - 1];
      OutliersExceed(rest, threshold, pilotSkipped);
      CountOneMore(Utimes(rest), last.utime, AtMost(threshold));
    }
  }

  lemma {:induction false} CountGrows(s: seq<int>, a: int, b: int)
    requires a <= b
    ensures Count(s, AtMost(a)) <= Count(s, AtMost(b))
  {
    if s != [] {
      CountGrows(s[1..], a, b);
    }
  }

  /** Windows that carry the pilot's own values, in any order, lose fewer than half to the outlier
      filter, whatever the floor. */
  lemma PilotLosesFewerThanHalf(ws: seq<Window>, samples: seq<int>, floor: int, pilotSkipped: bool)
    requires samples != [] && multiset(Utimes(ws)) == multiset(samples)
    ensures 2 * OutlierCount(ws, UtimeThreshold(floor, samples), pilotSkipped) < |ws|
  {
    var u, t := Utimes(ws), UtimeThreshold(floor, samples);
    ThresholdForgetsOrder(samples, u);
    MostSamplesPass(u);
    CountGrows(u, MadThreshold(u), t);
    OutliersExceed(ws, t, pilotSkipped);
  }
}
