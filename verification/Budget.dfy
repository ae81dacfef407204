/** The metered-cost tracker and the two loops it gates. */
module Budget {
  import opened Reals
  import opened Sequences
  import opened Text

  /** What one model call leaves behind. Only `Metered` calls cost real money. */
  datatype Call = Metered(usd: real) | Subscription(notional: Option<real>) | Gemini | Unattributed | NoModel

  type Batch = seq<Call>

  function Sum(costs: seq<real>): real {
    if costs == [] then 0.0 else Sum(costs[..|costs| - 1]) + costs[|costs| - 1]
  }

  function Largest(costs: seq<real>): real {
    if costs == [] then 0.0 else Max(Largest(costs[..|costs| - 1]), costs[|costs| - 1])
  }

  /** The largest of the costs, or zero when none is positive. */
  ghost predicate IsLargest(costs: seq<real>, m: real) {
    && m >= 0.0 && (m == 0.0 || m in costs)
    && forall i :: 0 <= i < |costs| ==> costs[i] <= m
  }

  lemma {:induction false} LargestIsMaximum(costs: seq<real>)
    ensures IsLargest(costs, Largest(costs))
  {
    if costs != [] {
      var n := |costs| - 1;
      LargestIsMaximum(costs[..n]);
      forall i | 0 <= i < |costs| ensures costs[i] <= Largest(costs) {
        assert i < n ==> costs[i] == costs[..n][i];
      }
    }
  }

  /** Being the largest determines it. */
  lemma LargestIff(costs: seq<real>, m: real)
    ensures IsLargest(costs, m) <==> m == Largest(costs)
  {
    LargestIsMaximum(costs);
  }

  /** The metered spend of one iteration. */
  function Spend(batch: Batch): real {
    if batch == [] then 0.0
    else Spend(batch[..|batch| - 1]) + (match batch[|batch| - 1] case Metered(usd) => usd case _ => 0.0)
  }

  class CostBudgetTracker {
    const maxUsd: real
    var observed: real
    var notional: real
    var iters: nat
    var unknown: nat
    var iterStart: real
    var maxClosed: real

    /** The cost of each completed iteration. */
    ghost var closed: seq<real>

    ghost predicate Valid()
      reads this
    {
      && iterStart == Sum(closed) && maxClosed == Largest(closed)
      && (if iters == 0 then closed == [] else |closed| == iters)
    }

    constructor (maxUsd: real)
      ensures Valid() && this.maxUsd == maxUsd && observed == 0.0 && iters == 0 && closed == []
      ensures notional == 0.0 && unknown == 0
    {
      this.maxUsd := maxUsd;
      observed, notional, iters, unknown, iterStart, maxClosed, closed := 0.0, 0.0, 0, 0, 0.0, 0.0, [];
    }

    /** The cost of the iteration still open. */
    function Open(): real
      reads this
    {
      observed - iterStart
    }

    /** `_record_row_cost`: exactly one counter moves, and only a metered call moves the spend. */
    method Record(call: Call)
      requires Valid()
      modifies this`observed, this`notional, this`unknown
      ensures Valid()
      ensures observed == old(observed) + (match call case Metered(usd) => usd case _ => 0.0)
      ensures notional == old(notional) + (match call case Subscription(Some(usd)) => usd case _ => 0.0)
      ensures unknown == old(unknown) + (match call
                                         case Subscription(None) => 1 case Gemini => 1 case Unattributed => 1
                                         case _ => 0)
    {
      match call
      case Metered(usd) => observed := observed + usd;
      case Subscription(usd) =>
        if usd.Some? {
          notional := notional + usd.value;
        } else {
          unknown := unknown + 1;
        }
      case Gemini => unknown := unknown + 1;
      case Unattributed => unknown := unknown + 1;
      case NoModel =>
    }

    /** Close the running window and open the next. The very first call closes the empty window
        before the first iteration. */
    method BeginIteration()
      requires Valid()
      modifies this`maxClosed, this`iterStart, this`iters, this`closed
      ensures Valid() && iters == old(iters) + 1 && Open() == 0.0
      ensures closed == old(closed) + [old(Open())]
    {
      var lastDelta := observed - iterStart;
      ghost var before := closed;
      closed := closed + [lastDelta];
      assert closed[..|closed| - 1] == before;
      if lastDelta > maxClosed {
        maxClosed := lastDelta;
      }
      iterStart := observed;
      iters := iters + 1;
    }

    /** The largest iteration cost so far, the open iteration included. */
    function MaxIterCost(): (r: real)
      requires Valid()
      reads this
      ensures r == Largest(closed + [Open()])
      ensures r >= Open() && forall i :: 0 <= i < |closed| ==> r >= closed[i]
      ensures r == 0.0 || r == Open() || r in closed
    {
      LargestIsMaximum(closed);
      assert (closed + [Open()])[..|closed|] == closed;
      Max(maxClosed, observed - iterStart)
    }

    /** Refused from the second iteration on, once the spend and one more iteration of the largest
        cost seen reach the budget. */
    predicate ShouldAbort(): (r: bool)
      requires Valid()
      reads this
      ensures r <==> iters >= 2 && observed + Largest(closed + [Open()]) >= maxUsd
      ensures forall m :: IsLargest(closed + [Open()], m) ==> (r <==> iters >= 2 && observed + m >= maxUsd)
    {
      assert forall m :: IsLargest(closed + [Open()], m) ==> m == Largest(closed + [Open()]) by {
        LargestIsMaximum(closed + [Open()]);
      }
      if iters <= 1 then false else observed + MaxIterCost() >= maxUsd
    }
  }

  // ----- the gate as a function of the costs -----

  /** After the iterations that cost `costs` have completed, the next one is refused. */
  predicate Refuses(maxUsd: real, costs: seq<real>) {
    costs != [] && Sum(costs) + Largest(costs) >= maxUsd
  }

  /** That is: from the second iteration on, when the spend and one more iteration as dear as the dearest
      so far reach the budget. */
  lemma RefusesIff(maxUsd: real, costs: seq<real>, m: real)
    requires IsLargest(costs, m)
    ensures Refuses(maxUsd, costs) <==> |costs| >= 1 && Sum(costs) + m >= maxUsd
  {
    LargestIff(costs, m);
  }

  predicate NonNegative(costs: seq<real>) { forall i :: 0 <= i < |costs| ==> costs[i] >= 0.0 }

  /** How many of the iterations run. */
  function Ran(maxUsd: real, costs: seq<real>): (k: nat)
    ensures k <= |costs|
    ensures forall j :: 0 <= j < k ==> !Refuses(maxUsd, costs[..j])
    ensures k < |costs| ==> Refuses(maxUsd, costs[..k])
  {
    if costs == [] then 0
    else
      var n := |costs| - 1;
      var k := Ran(maxUsd, costs[..n]);
      assert forall j :: 0 <= j <= n ==> costs[..n][..j] == costs[..j];
      if k < n || Refuses(maxUsd, costs[..n]) then k else n + 1
  }

  lemma {:induction false} SumsGrow(costs: seq<real>, j: nat)
    requires NonNegative(costs) && j <= |costs|
    ensures Sum(costs[..j]) <= Sum(costs) && Largest(costs[..j]) <= Largest(costs)
    decreases |costs|
  {
    if j == |costs| {
      assert costs[..j] == costs;
    } else {
      var n := |costs| - 1;
      SumsGrow(costs[..n], j);
      assert costs[..n][..j] == costs[..j];
    }
  }

  /** Once refused, always refused: what would still be spent cannot reopen the gate. */
  lemma RefusalLatches(maxUsd: real, costs: seq<real>, j: nat)
    requires NonNegative(costs) && j <= |costs| && Refuses(maxUsd, costs[..j])
    ensures Refuses(maxUsd, costs)
  {
    SumsGrow(costs, j);
  }

  /** When k >= 2 iterations ran, the final spend stays below the budget plus the last cost minus the
      largest cost before it; so it exceeds the budget by less than one largest iteration. */
  lemma OverspendBound(maxUsd: real, costs: seq<real>, before: real, overall: real)
    requires NonNegative(costs) && Ran(maxUsd, costs) >= 2
    requires IsLargest(costs[..Ran(maxUsd, costs) - 1], before) && IsLargest(costs[..Ran(maxUsd, costs)], overall)
    ensures var k := Ran(maxUsd, costs);
            && Sum(costs[..k]) < maxUsd + costs[k - 1] - before
            && Sum(costs[..k]) < maxUsd + overall
  {
    var k := Ran(maxUsd, costs);
    LargestIff(costs[..k - 1], before);
    LargestIff(costs[..k], overall);
    assert !Refuses(maxUsd, costs[..k - 1]);
    assert costs[..k][..k - 1] == costs[..k - 1];
    SumsGrow(costs[..k - 1], 0);
  }

  /** A single first iteration is never gated, whatever it costs. */
  lemma FirstIterationUngated(maxUsd: real, costs: seq<real>)
    requires costs != []
    ensures Ran(maxUsd, costs) >= 1
  {
    if Ran(maxUsd, costs) == 0 {
      assert costs[..0] == [];
    }
  }

  /** No smaller bound will do: for every budget and every last cost there are runs as close to it as
      one likes. */
  lemma OverspendBoundIsSharp(maxUsd: real, last: real, margin: real) returns (costs: seq<real>)
    requires maxUsd > 0.0 && last >= 0.0 && 0.0 < margin <= maxUsd
    ensures NonNegative(costs) && Ran(maxUsd, costs) == |costs| == 2 && costs[1] == last
    ensures Sum(costs) > maxUsd + costs[1] - costs[0] - margin
  {
    var first := (maxUsd - margin / 2.0) / 2.0;
    costs := [first, last];
    assert costs[..0] == [] && costs[..1] == [first] && [first][..0] == [];
    assert Sum([first]) == first && Largest([first]) == first;
    RanIs(maxUsd, costs, 2);
  }

  // ----- only metered calls count -----

  function Metered(batch: Batch): seq<Call> {
    if batch == [] then []
    else Metered(batch[..|batch| - 1]) + (if batch[|batch| - 1].Metered? then [batch[|batch| - 1]] else [])
  }

  /** The metered calls of a batch, each as often as it was made, and no others. */
  lemma {:induction false} MeteredSelects(batch: Batch, call: Call)
    ensures multiset(Metered(batch))[call] == if call.Metered? then multiset(batch)[call] else 0
  {
    if batch != [] {
      var n := |batch| - 1;
      MeteredSelects(batch[..n], call);
      OneMoreOf(batch[..n], batch[n], call);
      OneMoreOf(Metered(batch[..n]), batch[n], call);
      AppendLast([], batch);
    }
  }

  lemma OneMoreOf(batch: Batch, last: Call, call: Call)
    ensures multiset(batch + [last])[call] == multiset(batch)[call] + (if last == call then 1 else 0)
  {
  }

  function Costs(batches: seq<Batch>): (r: seq<real>)
    ensures |r| == |batches| && forall i :: 0 <= i < |r| ==> r[i] == Spend(batches[i])
  {
    seq(|batches|, i requires 0 <= i < |batches| => Spend(batches[i]))
  }

  lemma {:induction false} SpendIgnoresTheRest(batch: Batch)
    ensures Spend(batch) == Spend(Metered(batch))
  {
    if batch != [] {
      var front, last := batch[..|batch| - 1], batch[|batch| - 1];
      SpendIgnoresTheRest(front);
      if last.Metered? {
        assert (Metered(front) + [last])[..|Metered(front)|] == Metered(front);
      } else {
        assert Metered(front) + [] == Metered(front);
      }
    }
  }

  /** Two runs that differ only in subscription, Gemini or unattributed calls stop at the same
      iteration. */
  lemma SameMeteredSameDecisions(maxUsd: real, a: seq<Batch>, b: seq<Batch>)
    requires |a| == |b| && forall i :: 0 <= i < |a| ==> Metered(a[i]) == Metered(b[i])
    ensures Ran(maxUsd, Costs(a)) == Ran(maxUsd, Costs(b))
  {
    forall i | 0 <= i < |a| ensures Costs(a)[i] == Costs(b)[i] {
      SpendIgnoresTheRest(a[i]);
      SpendIgnoresTheRest(b[i]);
    }
    assert Costs(a) == Costs(b);
  }

  // ----- the gated loops -----

  method RecordAll(tracker: CostBudgetTracker, batch: Batch)
    requires tracker.Valid()
    modifies tracker`observed, tracker`notional, tracker`unknown
    ensures tracker.Valid() && tracker.observed == old(tracker.observed) + Spend(batch)
    ensures tracker.Open() == old(tracker.Open()) + Spend(batch)
  {
    for i := 0 to |batch|
      invariant tracker.Valid() && tracker.observed == old(tracker.observed) + Spend(batch[..i])
    {
      tracker.Record(batch[i]);
      assert batch[..i + 1][..i] == batch[..i];
    }
    assert batch[..|batch|] == batch;
  }

  lemma {:induction false} EmptyFirstWindow(costs: seq<real>)
    ensures Sum([0.0] + costs) == Sum(costs) && Largest([0.0] + costs) == Largest(costs)
  {
    if costs == [] {
      assert [0.0] + costs == [0.0] && [0.0][..0] == [];
    } else {
      var n := |costs| - 1;
      EmptyFirstWindow(costs[..n]);
      assert ([0.0] + costs)[..n + 1] == [0.0] + costs[..n];
    }
  }

  lemma {:induction false} RanIs(maxUsd: real, costs: seq<real>, k: nat)
    requires k <= |costs| && (forall j :: 0 <= j < k ==> !Refuses(maxUsd, costs[..j]))
    requires k < |costs| ==> Refuses(maxUsd, costs[..k])
    ensures Ran(maxUsd, costs) == k
  {
  }

  /** The tracker stands between iterations, `done` having run. */
  ghost predicate Between(tracker: CostBudgetTracker, done: seq<Batch>)
    reads tracker
  {
    && tracker.Valid() && tracker.iters == |done|
    && tracker.observed == Sum(Costs(done))
    && (done == [] ==> tracker.closed == [])
    && (done != [] ==> tracker.closed == [0.0] + Costs(done[..|done| - 1])
                       && tracker.Open() == Spend(done[|done| - 1]))
  }

  lemma CostsAppend(done: seq<Batch>, batch: Batch)
    ensures Costs(done + [batch]) == Costs(done) + [Spend(batch)]
    ensures Sum(Costs(done + [batch])) == Sum(Costs(done)) + Spend(batch)
  {
    assert (Costs(done) + [Spend(batch)])[..|done|] == Costs(done);
  }

  lemma ClosedAfterBegin(done: seq<Batch>, closed: seq<real>, open: real)
    requires done == [] ==> closed == [] && open == 0.0
    requires done != [] ==> closed == [0.0] + Costs(done[..|done| - 1]) && open == Spend(done[|done| - 1])
    ensures closed + [open] == [0.0] + Costs(done)
  {
    if done != [] {
      assert done == done[..|done| - 1] + [done[|done| - 1]];
      CostsAppend(done[..|done| - 1], done[|done| - 1]);
    }
  }

  /** `done` are the iterations that ran, none of them refused; an abort means the next one was. */
  ghost predicate Progress(maxUsd: real, all: seq<Batch>, done: seq<Batch>, aborted: bool) {
    && done <= all
    && (forall j :: 0 <= j < |done| ==> !Refuses(maxUsd, Costs(all[..j])))
    && (aborted ==> |done| < |all| && Refuses(maxUsd, Costs(done)))
  }

  lemma ProgressIsRan(maxUsd: real, all: seq<Batch>, done: seq<Batch>, aborted: bool)
    requires Progress(maxUsd, all, done, aborted) && (!aborted ==> done == all)
    ensures Ran(maxUsd, Costs(all)) == |done| && done == all[..|done|]
  {
    assert done == all[..|done|];
    forall j | 0 <= j <= |done| ensures Costs(all)[..j] == Costs(all[..j]) {
      assert forall i :: 0 <= i < j ==> Costs(all)[..j][i] == Costs(all[..j])[i];
    }
    assert Costs(all)[..|done|] == Costs(done);
    RanIs(maxUsd, Costs(all), |done|);
  }

  lemma ProgressStep(maxUsd: real, all: seq<Batch>, done: seq<Batch>, batch: Batch, refused: bool)
    requires Progress(maxUsd, all, done, false) && done + [batch] <= all && refused == Refuses(maxUsd, Costs(done))
    ensures Progress(maxUsd, all, if refused then done else done + [batch], refused)
  {
    assert all[..|done|] == done;
  }

  /** The tracker and the record of the run agree. */
  ghost predicate Standing(tracker: CostBudgetTracker, all: seq<Batch>, done: seq<Batch>, aborted: bool)
    reads tracker
  {
    && Progress(tracker.maxUsd, all, done, aborted)
    && tracker.observed == Sum(Costs(done))
    && (!aborted ==> Between(tracker, done))
  }

  /** One turn of either loop: begin, ask the gate, and run unless refused. */
  method Turn(tracker: CostBudgetTracker, ghost all: seq<Batch>, ghost done: seq<Batch>, batch: Batch)
      returns (refused: bool)
    requires Standing(tracker, all, done, false) && done + [batch] <= all
    modifies tracker
    ensures Standing(tracker, all, if refused then done else done + [batch], refused)
  {
    ClosedAfterBegin(done, tracker.closed, tracker.Open());
    refused := Ask(tracker, done);
    if !refused {
      RecordAll(tracker, batch);
      StandsAfter(tracker, done, batch);
    }
    ProgressStep(tracker.maxUsd, all, done, batch, refused);
  }

  /** The gate's answer at the top of an iteration is the gate as a function of the costs so far. */
  method Ask(tracker: CostBudgetTracker, ghost done: seq<Batch>) returns (refused: bool)
    requires tracker.Valid() && tracker.iters == |done| && tracker.observed == Sum(Costs(done))
    requires tracker.closed + [tracker.Open()] == [0.0] + Costs(done)
    modifies tracker
    ensures tracker.Valid() && tracker.iters == |done| + 1 && tracker.observed == Sum(Costs(done))
    ensures tracker.closed == [0.0] + Costs(done) && tracker.Open() == 0.0
    ensures refused == Refuses(tracker.maxUsd, Costs(done))
  {
    tracker.BeginIteration();
    OpenIsZero(Costs(done));
    refused := tracker.ShouldAbort();
  }

  lemma OpenIsZero(costs: seq<real>)
    ensures Largest([0.0] + costs + [0.0]) == Largest(costs)
  {
    var closed := [0.0] + costs;
    assert (closed + [0.0])[..|closed|] == closed;
    EmptyFirstWindow(costs);
    LargestNotNegative(costs);
  }

  lemma StandsAfter(tracker: CostBudgetTracker, done: seq<Batch>, batch: Batch)
    requires tracker.Valid() && tracker.iters == |done| + 1 && tracker.closed == [0.0] + Costs(done)
    requires tracker.observed == Sum(Costs(done)) + Spend(batch) && tracker.Open() == Spend(batch)
    ensures Between(tracker, done + [batch])
  {
    CostsAppend(done, batch);
    assert (done + [batch])[..|done|] == done;
  }

  lemma {:induction false} LargestNotNegative(costs: seq<real>)
    ensures Largest(costs) >= 0.0
  {
    if costs != [] {
      LargestNotNegative(costs[..|costs| - 1]);
    }
  }

  /** The poll-then-subscribe loop: arms in order, a refusal ending the whole run. */
  method RunMeasurementLoop(arms: seq<seq<Batch>>, maxUsd: real)
      returns (ran: nat, aborted: bool, tracker: CostBudgetTracker)
    ensures ran == Ran(maxUsd, Costs(Join(arms)))
    ensures aborted == (ran < |Join(arms)|)
    ensures tracker.observed == Sum(Costs(Join(arms)[..ran]))
  {
    tracker := new CostBudgetTracker(maxUsd);
    aborted := false;
    var done: seq<Batch> := [];
    var a := 0;
    while a < |arms| && !aborted
      invariant 0 <= a <= |arms| && fresh(tracker) && tracker.maxUsd == maxUsd
      invariant Standing(tracker, Join(arms), done, aborted)
      invariant !aborted ==> done == Join(arms[..a])
    {
      JoinPrefix(arms, a);
      aborted, done := RunArm(tracker, Join(arms), done, arms[a]);
      a := a + 1;
    }
    ran := |done|;
    assert arms[..|arms|] == arms;
    ProgressIsRan(maxUsd, Join(arms), done, aborted);
  }

  /** The inner loop over one arm. */
  method RunArm(tracker: CostBudgetTracker, ghost all: seq<Batch>, before: seq<Batch>, arm: seq<Batch>)
      returns (aborted: bool, done: seq<Batch>)
    requires before + arm <= all && Standing(tracker, all, before, false)
    modifies tracker
    ensures Standing(tracker, all, done, aborted)
    ensures !aborted ==> done == before + arm
  {
    done := before;
    for i := 0 to |arm|
      invariant Standing(tracker, all, done, false) && done == before + arm[..i]
    {
      NextOfArm(all, before, arm, i);
      var refused := Turn(tracker, all, done, arm[i]);
      if refused {
        return true, done;
      }
      done := done + [arm[i]];
    }
    assert arm[..|arm|] == arm;
    return false, done;
  }

  lemma NextOfArm(all: seq<Batch>, before: seq<Batch>, arm: seq<Batch>, i: nat)
    requires before + arm <= all && i < |arm|
    ensures before + arm[..i] + [arm[i]] <= all && before + arm[..i] + [arm[i]] == before + arm[..i + 1]
  {
  }

  // ----- idle and loaded windows -----

  datatype Window = Idle | Loaded(batch: Batch)

  function LoadedOf(windows: seq<Window>): seq<Batch> {
    if windows == [] then []
    else
      var front, last := LoadedOf(windows[..|windows| - 1]), windows[|windows| - 1];
      if last.Idle? then front else front + [last.batch]
  }

  lemma {:induction false} LoadedOfPrefix(windows: seq<Window>, i: nat)
    requires i <= |windows|
    ensures LoadedOf(windows[..i]) <= LoadedOf(windows)
    ensures i < |windows| && windows[i].Loaded? ==> LoadedOf(windows[..i]) + [windows[i].batch] <= LoadedOf(windows)
    ensures i < |windows| ==>
              LoadedOf(windows[..i + 1]) == LoadedOf(windows[..i]) + (if windows[i].Loaded? then [windows[i].batch] else [])
    decreases |windows|
  {
    assert i < |windows| ==> windows[..i + 1][..i] == windows[..i];
    if i == |windows| {
      assert windows[..i] == windows;
    } else {
      var n := |windows| - 1;
      LoadedOfPrefix(windows[..n], i);
      assert windows[..n][..i] == windows[..i];
    }
  }

  /** The alternating loop: only loaded windows pass the gate and cost anything, but a refusal ends
      the whole run, idle windows included. */
  method RunWindowLoop(windows: seq<Window>, maxUsd: real)
      returns (captured: nat, aborted: bool, tracker: CostBudgetTracker)
    ensures captured <= |windows| && aborted == (captured < |windows|)
    ensures |LoadedOf(windows[..captured])| == Ran(maxUsd, Costs(LoadedOf(windows)))
    ensures tracker.observed == Sum(Costs(LoadedOf(windows[..captured])))
  {
    tracker := new CostBudgetTracker(maxUsd);
    captured, aborted := 0, false;
    ghost var done: seq<Batch> := [];
    while captured < |windows| && !aborted
      invariant 0 <= captured <= |windows| && done == LoadedOf(windows[..captured])
      invariant fresh(tracker) && tracker.maxUsd == maxUsd
      invariant Standing(tracker, LoadedOf(windows), done, aborted) && (aborted ==> captured < |windows|)
      decreases |windows| - captured, !aborted
    {
      LoadedOfPrefix(windows, captured);
      match windows[captured]
      case Idle => captured := captured + 1;
      case Loaded(batch) =>
        aborted := Turn(tracker, LoadedOf(windows), done, batch);
        if !aborted {
          done, captured := done + [batch], captured + 1;
        }
    }
    assert windows[..|windows|] == windows;
    ProgressIsRan(maxUsd, LoadedOf(windows), done, aborted);
  }
}
