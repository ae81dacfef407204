/** The sustained-rate search: halve on a drop, double on none, remember the best. Rates are exact
    reals; the verdict of each window comes from an oracle. */
module RateSearch {
  import opened Reals

  /** One window of the history. */
  datatype Probe = Probe(target: real, dropped: bool, observed: real)

  /** The verdict for the i-th window at a target rate. */
  type Oracle = (nat, real) -> Probe

  ghost predicate Honest(oracle: Oracle) {
    forall i, rate :: oracle(i, rate).target == rate
  }

  /** The rate after a window. */
  function Next(p: Probe): real {
    if p.dropped then Max(1.0, p.target / 2.0) else p.target * 2.0
  }

  /** The target of window i. */
  function Rate(oracle: Oracle, start: real, i: nat): real {
    if i == 0 then start else Next(oracle(i - 1, Rate(oracle, start, i - 1)))
  }

  function Window(oracle: Oracle, start: real, i: nat): Probe { oracle(i, Rate(oracle, start, i)) }

  /** The best target that passed, and the best rate observed in a passing window; 0.0 for none. */
  function Best(history: seq<Probe>): real {
    if history == [] then 0.0
    else
      var rest, p := Best(history[..|history| - 1]), history[|history| - 1];
      if p.dropped then rest else Max(rest, p.target)
  }

  function BestObserved(history: seq<Probe>): real {
    if history == [] then 0.0
    else
      var rest, p := BestObserved(history[..|history| - 1]), history[|history| - 1];
      if p.dropped then rest else Max(rest, p.observed)
  }

  method SearchCell(oracle: Oracle, start: real, iterations: nat)
      returns (best: real, bestObserved: real, history: seq<Probe>)
    requires Honest(oracle)
    ensures |history| == iterations
    ensures forall i :: 0 <= i < iterations ==> history[i] == Window(oracle, start, i)
    ensures best == Best(history) && bestObserved == BestObserved(history)
  {
    var rate := start;
    best, bestObserved, history := 0.0, 0.0, [];
    for i := 0 to iterations
      invariant |history| == i && rate == Rate(oracle, start, i)
      invariant forall k :: 0 <= k < i ==> history[k] == Window(oracle, start, k)
      invariant best == Best(history) && bestObserved == BestObserved(history)
    {
      var outcome := oracle(i, rate);
      ghost var before := history;
      history := history + [outcome];
      assert history[..i] == before;
      if outcome.dropped {
        rate := Max(1.0, rate / 2.0);
      } else {
        best := Max(best, outcome.target);
        bestObserved := Max(bestObserved, outcome.observed);
        rate := rate * 2.0;
      }
    }
  }

  predicate PassesAt(history: seq<Probe>, k: int) { 0 <= k < |history| && !history[k].dropped }

  predicate DropsAt(history: seq<Probe>, k: int) { 0 <= k < |history| && history[k].dropped }

  /** Against any oracle, with a positive start, the best is the largest passing target; it is zero
      exactly when nothing passed. */
  lemma {:induction false} BestIsMaximum(history: seq<Probe>)
    requires forall k :: 0 <= k < |history| ==> history[k].target > 0.0
    ensures forall k :: PassesAt(history, k) ==> history[k].target <= Best(history)
    ensures Best(history) != 0.0 ==> exists k :: PassesAt(history, k) && history[k].target == Best(history)
    ensures Best(history) >= 0.0 && (Best(history) == 0.0 <==> forall k :: 0 <= k < |history| ==> history[k].dropped)
  {
    if history != [] {
      var n := |history| - 1;
      var front := history[..n];
      BestIsMaximum(front);
      forall k | PassesAt(history, k) ensures history[k].target <= Best(history) {
        assert k < n ==> PassesAt(front, k);
      }
      if Best(history) != 0.0 {
        if Best(history) == Best(front) {
          var k :| PassesAt(front, k) && front[k].target == Best(front);
          assert PassesAt(history, k);
        } else {
          assert PassesAt(history, n);
        }
      }
      if !history[n].dropped { assert history[n].target > 0.0; }
    }
  }

  /** Likewise the best rate observed in a passing window: no passing window observed more, and unless it
      is zero some passing window observed it. */
  lemma {:induction false} BestObservedIsMaximum(history: seq<Probe>)
    ensures BestObserved(history) >= 0.0
    ensures forall k :: PassesAt(history, k) ==> history[k].observed <= BestObserved(history)
    ensures BestObserved(history) != 0.0 ==> exists k :: PassesAt(history, k) && history[k].observed == BestObserved(history)
  {
    if history != [] {
      var n := |history| - 1;
      var front := history[..n];
      BestObservedIsMaximum(front);
      forall k | PassesAt(history, k) ensures history[k].observed <= BestObserved(history) {
        assert k < n ==> PassesAt(front, k);
      }
      if BestObserved(history) != 0.0 {
        if BestObserved(history) == BestObserved(front) {
          var k :| PassesAt(front, k) && front[k].observed == BestObserved(front);
          assert PassesAt(history, k);
        } else {
          assert PassesAt(history, n);
        }
      }
    }
  }

  // ----- against a monotone oracle -----

  ghost predicate SeenPass(history: seq<Probe>) { exists k :: PassesAt(history, k) }

  ghost predicate SeenDrop(history: seq<Probe>) { exists k :: DropsAt(history, k) }

  /** A history the search produces from `start` when windows pass exactly up to `limit`. */
  ghost predicate SearchRun(history: seq<Probe>, start: real, limit: real) {
    && start > 0.0
    && (forall k :: 0 <= k < |history| ==> (history[k].dropped <==> history[k].target > limit))
    && (history != [] ==> history[0].target == start)
    && (forall k, m :: 0 <= k && m == k + 1 && m < |history| ==> history[m].target == Next(history[k]))
  }

  /** The method's history against a monotone oracle is such a run. */
  lemma HistoryIsSearchRun(oracle: Oracle, start: real, limit: real, history: seq<Probe>)
    requires Honest(oracle) && start > 0.0
    requires forall i, rate :: oracle(i, rate).dropped <==> rate > limit
    requires forall i :: 0 <= i < |history| ==> history[i] == Window(oracle, start, i)
    ensures SearchRun(history, start, limit)
  {
    forall k, m | 0 <= k && m == k + 1 && m < |history| ensures history[m].target == Next(history[k]) {
      assert Rate(oracle, start, m) == Next(oracle(k, Rate(oracle, start, k)));
    }
    assert history != [] ==> Rate(oracle, start, 0) == start;
  }

  /** Where a non-empty run stands. */
  ghost predicate Stand(history: seq<Probe>, limit: real)
    requires history != []
  {
    var best, last := Best(history), history[|history| - 1];
    && last.target > 0.0
    && (!SeenPass(history) ==> best == 0.0 && last.dropped)
    && (SeenPass(history) ==> 0.0 < best <= limit)
    && (SeenPass(history) && !SeenDrop(history) ==> !last.dropped && last.target == best)
    && (SeenPass(history) && SeenDrop(history) ==> limit < 2.0 * best)
  }

  lemma {:induction false} RunStands(history: seq<Probe>, start: real, limit: real)
    requires SearchRun(history, start, limit) && history != []
    ensures Stand(history, limit)
  {
    var n := |history| - 1;
    var front := history[..n];
    SeenGrows(history);
    if front != [] {
      RunStands(front, start, limit);
      assert history[n].target == Next(history[n - 1]);
    }
  }

  lemma SeenGrows(history: seq<Probe>)
    requires history != []
    ensures SeenPass(history) <==> SeenPass(history[..|history| - 1]) || !history[|history| - 1].dropped
    ensures SeenDrop(history) <==> SeenDrop(history[..|history| - 1]) || history[|history| - 1].dropped
  {
    var n := |history| - 1;
    var front := history[..n];
    if SeenPass(history) {
      var k :| PassesAt(history, k);
      assert k < n ==> PassesAt(front, k);
    }
    if SeenDrop(history) {
      var k :| DropsAt(history, k);
      assert k < n ==> DropsAt(front, k);
    }
    assert forall k :: PassesAt(front, k) ==> PassesAt(history, k);
    assert forall k :: DropsAt(front, k) ==> DropsAt(history, k);
    assert PassesAt(history, n) || DropsAt(history, n);
  }

  /** Once both a drop and a pass have been seen, the threshold lies within a factor of two above the
      best; this holds from any positive start, the floor of one included. */
  lemma BestBracketsThreshold(history: seq<Probe>, start: real, limit: real)
    requires SearchRun(history, start, limit) && SeenPass(history) && SeenDrop(history)
    ensures Best(history) <= limit < 2.0 * Best(history)
  {
    RunStands(history, start, limit);
  }

  // ----- no refinement -----

  /** Starts from which the floor never comes between the search and its bracket. */
  predicate OnGrid(rate: real) { rate >= 1.0 || rate == 0.5 }

  lemma {:induction false} TargetsOnGrid(history: seq<Probe>, start: real, limit: real)
    requires SearchRun(history, start, limit) && OnGrid(start)
    ensures forall k :: 0 <= k < |history| ==> OnGrid(history[k].target)
    ensures Best(history) == 0.0 || OnGrid(Best(history))
  {
    if history != [] {
      var n := |history| - 1;
      TargetsOnGrid(history[..n], start, limit);
      assert n > 0 ==> history[n].target == Next(history[n - 1]) && history[n - 1] == history[..n][n - 1];
      assert forall k :: 0 <= k < n ==> history[k] == history[..n][k];
    }
  }

  lemma {:induction false} NextProbe(history: seq<Probe>, start: real, limit: real)
    requires SearchRun(history, start, limit) && OnGrid(start) && SeenPass(history) && SeenDrop(history)
    ensures Next(history[|history| - 1]) == Best(history) || Next(history[|history| - 1]) == 2.0 * Best(history)
  {
    var n := |history| - 1;
    var front := history[..n];
    RunStands(history, start, limit);
    TargetsOnGrid(history, start, limit);
    SeenGrows(history);
    if n > 0 {
      RunStands(front, start, limit);
      assert history[n].target == Next(history[n - 1]) && history[n - 1] == front[n - 1];
      if SeenPass(front) && SeenDrop(front) {
        NextProbe(front, start, limit);
      }
    }
  }

  /** A run from below the grid whose next probe is neither the best nor twice the best. */
  lemma OffGrid(start: real) returns (history: seq<Probe>, limit: real)
    requires 0.0 < start < 1.0 && start != 0.5
    ensures SearchRun(history, start, limit) && SeenPass(history) && SeenDrop(history)
    ensures Next(history[|history| - 1]) != Best(history) && Next(history[|history| - 1]) != 2.0 * Best(history)
  {
    limit := 1.5 * start;
    var first, second := Probe(start, false, start), Probe(2.0 * start, true, start);
    history := [first, second];
    assert PassesAt(history, 0) && DropsAt(history, 1);
    assert history[..1] == [first] && [first][..0] == [];
    assert Best([first]) == start;
  }

  /** Every probe after the bracket is closed repeats the best or its double, for every threshold,
      exactly when the start is at least one (or one half). */
  lemma LaterProbesIff(start: real)
    requires start > 0.0
    ensures OnGrid(start) <==>
            forall history, limit :: SearchRun(history, start, limit) && SeenPass(history) && SeenDrop(history) ==>
              RepeatsBracket(history)
  {
    if OnGrid(start) {
      forall history, limit | SearchRun(history, start, limit) && SeenPass(history) && SeenDrop(history)
        ensures RepeatsBracket(history)
      {
        NextProbe(history, start, limit);
      }
    } else {
      var history, limit := OffGrid(start);
      assert !RepeatsBracket(history);
    }
  }

  predicate RepeatsBracket(history: seq<Probe>) {
    history != [] ==> Next(history[|history| - 1]) == Best(history) || Next(history[|history| - 1]) == 2.0 * Best(history)
  }

  /** So from such a start the answer never improves again, however many windows follow. */
  lemma {:induction false} BestFreezes(history: seq<Probe>, start: real, limit: real, j: nat)
    requires SearchRun(history, start, limit) && OnGrid(start) && j <= |history|
    requires SeenPass(history[..j]) && SeenDrop(history[..j])
    ensures Best(history) == Best(history[..j])
    decreases |history|
  {
    if j == |history| {
      assert history[..j] == history;
    } else {
      var front := history[..|history| - 1];
      assert front[..j] == history[..j];
      BestFreezes(front, start, limit, j);
      StillSeen(front, j);
      OneMoreWindow(history, start, limit);
    }
  }

  lemma OneMoreWindow(history: seq<Probe>, start: real, limit: real)
    requires SearchRun(history, start, limit) && OnGrid(start) && |history| >= 2
    requires SeenPass(history[..|history| - 1]) && SeenDrop(history[..|history| - 1])
    ensures Best(history) == Best(history[..|history| - 1])
  {
    var n := |history| - 1;
    var front := history[..n];
    NextProbe(front, start, limit);
    BestBracketsThreshold(front, start, limit);
    assert history[n].target == Next(history[n - 1]) && history[n - 1] == front[n - 1];
  }

  lemma StillSeen(history: seq<Probe>, j: nat)
    requires j <= |history| && SeenPass(history[..j]) && SeenDrop(history[..j])
    ensures SeenPass(history) && SeenDrop(history)
  {
    var p :| PassesAt(history[..j], p);
    var d :| DropsAt(history[..j], d);
    assert PassesAt(history, p) && DropsAt(history, d);
  }

  // ----- the answer in closed form -----

  /** The largest double of a passing rate that still passes. */
  function Up(rate: real, limit: real): (r: real)
    requires OnGrid(rate) && rate <= limit
    ensures OnGrid(r) && r <= limit < 2.0 * r
    decreases (2.0 * (limit - rate)).Floor
  {
    if limit < 2.0 * rate then rate else Up(2.0 * rate, limit)
  }

  /** The first rate that passes on the way down to the floor of one. */
  function Down(rate: real, limit: real): (r: real)
    requires rate >= 1.0 && limit >= 1.0
    ensures 1.0 <= r <= limit && (rate > limit ==> limit < 2.0 * r)
    decreases rate.Floor, rate > 1.0
  {
    if rate <= limit then rate else Down(Max(1.0, rate / 2.0), limit)
  }

  /** Some rate of the search passes. */
  predicate Reaches(start: real, limit: real) { OnGrid(start) && (start <= limit || limit >= 1.0) }

  /** Where the search settles, from the start and the threshold alone. */
  function Answer(start: real, limit: real): (r: real)
    requires Reaches(start, limit)
    ensures r <= limit < 2.0 * r
  {
    if start <= limit then Up(start, limit) else Down(start, limit)
  }

  /** Until the bracket is closed the search is on its way to the answer. */
  ghost predicate OnTheWay(history: seq<Probe>, start: real, limit: real)
    requires history != [] && OnGrid(start)
  {
    var last := history[|history| - 1].target;
    && (!SeenDrop(history) ==> start <= limit && OnGrid(last) && last <= limit && Up(last, limit) == Up(start, limit))
    && (!SeenPass(history) ==> start > limit
                               && (limit >= 1.0 ==> last > limit && Down(last, limit) == Down(start, limit)))
    && (SeenPass(history) && SeenDrop(history) ==> Reaches(start, limit) && Best(history) == Answer(start, limit))
  }

  lemma FirstProbe(history: seq<Probe>, start: real, limit: real)
    requires SearchRun(history, start, limit) && OnGrid(start) && |history| == 1
    ensures OnTheWay(history, start, limit)
  {
    SeenGrows(history);
    assert history[..0] == [];
  }

  /** The window that closes the bracket finds the answer. */
  lemma NextWindow(history: seq<Probe>, start: real, limit: real)
    requires SearchRun(history, start, limit) && OnGrid(start) && |history| >= 2
    requires OnTheWay(history[..|history| - 1], start, limit)
    ensures OnTheWay(history, start, limit)
  {
    var n := |history| - 1;
    var front := history[..n];
    SeenGrows(history);
    RunStands(front, start, limit);
    assert front[n - 1] == history[n - 1] && history[n].target == Next(history[n - 1]);
    if SeenPass(front) && SeenDrop(front) {
      OneMoreWindow(history, start, limit);
    }
  }

  /** Once a drop and a pass have been seen, the best is the answer, whatever else has happened. */
  lemma {:induction false} BestIsAnswer(history: seq<Probe>, start: real, limit: real)
    requires SearchRun(history, start, limit) && OnGrid(start) && history != []
    ensures OnTheWay(history, start, limit)
    decreases |history|
  {
    if |history| == 1 {
      FirstProbe(history, start, limit);
    } else {
      BestIsAnswer(history[..|history| - 1], start, limit);
      NextWindow(history, start, limit);
    }
  }

  // ----- how close the answer is -----

  /** One more window against the threshold. */
  function Extended(history: seq<Probe>, start: real, limit: real): seq<Probe> {
    var target := if history == [] then start else Next(history[|history| - 1]);
    history + [Probe(target, target > limit, target)]
  }

  lemma ExtendedIsRun(history: seq<Probe>, start: real, limit: real)
    requires start > 0.0 && SearchRun(history, start, limit)
    ensures SearchRun(Extended(history, start, limit), start, limit)
  {
  }

  /** There are runs of every length. */
  lemma {:induction false} RunOfLength(start: real, limit: real, n: nat) returns (history: seq<Probe>)
    requires start > 0.0
    ensures SearchRun(history, start, limit) && |history| == n
  {
    if n == 0 {
      history := [];
    } else {
      var front := RunOfLength(start, limit, n - 1);
      ExtendedIsRun(front, start, limit);
      history := Extended(front, start, limit);
    }
  }

  /** A window count at which the bracket is closed. */
  lemma UpCloses(history: seq<Probe>, start: real, limit: real) returns (longer: seq<Probe>)
    requires SearchRun(history, start, limit) && history != [] && !history[|history| - 1].dropped
    requires OnGrid(history[|history| - 1].target)
    ensures SearchRun(longer, start, limit) && SeenPass(longer) && SeenDrop(longer)
    decreases (2.0 * (limit - history[|history| - 1].target)).Floor
  {
    var more := Extended(history, start, limit);
    ExtendedIsRun(history, start, limit);
    assert PassesAt(more, |history| - 1);
    if more[|history|].dropped {
      assert DropsAt(more, |history|);
      longer := more;
    } else {
      longer := UpCloses(more, start, limit);
    }
  }

  lemma DownCloses(history: seq<Probe>, start: real, limit: real) returns (longer: seq<Probe>)
    requires SearchRun(history, start, limit) && history != [] && history[|history| - 1].dropped
    requires limit >= 1.0
    ensures SearchRun(longer, start, limit) && SeenPass(longer) && SeenDrop(longer)
    decreases history[|history| - 1].target.Floor, history[|history| - 1].target > 1.0
  {
    var more := Extended(history, start, limit);
    ExtendedIsRun(history, start, limit);
    assert DropsAt(more, |history| - 1);
    if more[|history|].dropped {
      longer := DownCloses(more, start, limit);
    } else {
      assert PassesAt(more, |history|);
      longer := more;
    }
  }

  lemma BracketCloses(start: real, limit: real) returns (history: seq<Probe>)
    requires Reaches(start, limit)
    ensures SearchRun(history, start, limit) && SeenPass(history) && SeenDrop(history)
  {
    var first := [Probe(start, start > limit, start)];
    if start <= limit {
      history := UpCloses(first, start, limit);
    } else {
      history := DownCloses(first, start, limit);
    }
  }

  predicate Within(best: real, limit: real, error: real) { limit - best <= Times(error, limit) }

  /** The answer of every bracketed search is within a relative error of the threshold exactly when the
      threshold is that close above the point where the search settles. */
  lemma AccuracyIff(start: real, limit: real, error: real)
    requires Reaches(start, limit)
    ensures (forall history :: SearchRun(history, start, limit) && SeenPass(history) && SeenDrop(history) ==>
               Within(Best(history), limit, error))
       <==> Within(Answer(start, limit), limit, error)
  {
    forall history | SearchRun(history, start, limit) && SeenPass(history) && SeenDrop(history)
      ensures Best(history) == Answer(start, limit)
    {
      BestIsAnswer(history, start, limit);
    }
    var history := BracketCloses(start, limit);
  }

  /** From the documented start of 1000, a daemon that sustains 1900 is reported as sustaining 1000: no
      number of windows, two or more, comes within 1.5%. */
  lemma NotWithinOneAndAHalfPercent(n: nat) returns (history: seq<Probe>)
    requires n >= 2
    ensures SearchRun(history, 1000.0, 1900.0) && |history| == n
    ensures Best(history) == 1000.0 && !Within(Best(history), 1900.0, 0.015)
  {
    history := RunOfLength(1000.0, 1900.0, n);
    assert history[1].target == Next(history[0]);
    assert PassesAt(history, 0) && DropsAt(history, 1);
    BestIsAnswer(history, 1000.0, 1900.0);
    assert Times(0.015, 1900.0) == 28.5;
  }
}
