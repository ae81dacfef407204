/** The file-polling bench: a workload thread that touches the file on request and a polling loop
    that watches its mtime, sharing two events, a queue and the file. */
module FsHandshake {

  /** `n` iterations in all. With `monotone`, the wall clock never steps back. */
  datatype Config = Config(n: nat, monotone: bool)

  datatype Worker = Top | Waiting | Woken | Checking | Delaying | Touching | Touched | Stamped | Done
  datatype Poller = Snapping | Requesting | Sleeping | Stated | Comparing | Getting | Stopping | Waking | Joining

  /** One measurement: the mtime that was seen to differ, when it was seen, and the inject stamp it
      was paired with. */
  datatype Sample = Sample(seen: int, observed: int, injected: int)

  /** The shared objects, the two program counters with their locals, and the history of the run:
      requests made, requests consumed, the mtime each touch set, the stamps put, the number of
      touches before each snapshot, the samples. */
  datatype State = State(
    next: bool, stop: bool, queue: seq<int>, mtime: int, now: int,
    worker: Worker, tInject: int, poller: Poller, prev: int, current: int, tObserve: int,
    requests: nat, clears: nat, touches: seq<int>, puts: seq<int>, snapshots: seq<nat>, samples: seq<Sample>)

  function Init(mtime: int, now: int): State {
    State(false, false, [], mtime, now, Top, 0, Snapping, 0, 0, 0, 0, 0, [], [], [], [])
  }

  datatype Step =
    | Begin | Wake | Clear | Check | DelayOver | Touch(at: int) | Stamp(at: int) | Put
    | Snap | Request | Stat | Observe(at: int) | Compare | Get | Leave | SetStop | SetNext

  predicate IsWorker(step: Step) {
    step.Begin? || step.Wake? || step.Clear? || step.Check? || step.DelayOver? || step.Touch? || step.Stamp? || step.Put?
  }

  predicate Enabled(c: Config, s: State, step: Step) {
    match step
    case Begin => s.worker == Top
    case Wake => s.worker == Waiting && s.next
    case Clear => s.worker == Woken
    case Check => s.worker == Checking
    case DelayOver => s.worker == Delaying
    case Touch(at) => s.worker == Touching && (c.monotone ==> at >= s.now)
    case Stamp(at) => s.worker == Touched && (c.monotone ==> at >= s.now)
    case Put => s.worker == Stamped
    case Snap => s.poller == Snapping && |s.samples| < c.n
    case Request => s.poller == Requesting
    case Stat => s.poller == Sleeping
    case Observe(at) => s.poller == Stated && (c.monotone ==> at >= s.now)
    case Compare => s.poller == Comparing
    case Get => s.poller == Getting && s.queue != []
    // The loop is over, or an exception (a queue timeout, an interrupt) leaves it.
    case Leave => s.poller != Stopping && s.poller != Waking && s.poller != Joining
    case SetStop => s.poller == Stopping
    case SetNext => s.poller == Waking
  }

  function Apply(c: Config, s: State, step: Step): State
    requires Enabled(c, s, step)
  {
    match step
    case Begin => s.(worker := if |s.puts| == c.n || s.stop then Done else Waiting)
    case Wake => s.(worker := Woken)
    case Clear => s.(worker := Checking, next := false, clears := s.clears + 1)
    case Check => s.(worker := if s.stop then Done else Delaying)
    case DelayOver => s.(worker := if s.stop then Done else Touching)
    case Touch(at) => s.(worker := Touched, mtime := at, now := at, touches := s.touches + [at])
    case Stamp(at) => s.(worker := Stamped, tInject := at, now := at)
    case Put => s.(worker := Top, queue := s.queue + [s.tInject], puts := s.puts + [s.tInject])
    case Snap => s.(poller := Requesting, prev := s.mtime, snapshots := s.snapshots + [|s.touches|])
    case Request => s.(poller := Sleeping, next := true, requests := s.requests + 1)
    case Stat => s.(poller := Stated, current := s.mtime)
    case Observe(at) => s.(poller := Comparing, tObserve := at, now := at)
    case Compare => s.(poller := if s.current != s.prev then Getting else Sleeping)
    case Get => s.(poller := Snapping, queue := s.queue[1..],
                   samples := s.samples + [Sample(s.current, s.tObserve, s.queue[0])])
    case Leave => s.(poller := Stopping)
    case SetStop => s.(poller := Waking, stop := true)
    case SetNext => s.(poller := Joining, next := true)
  }

  // ----- what every step keeps -----

  predicate InLoop(p: Poller) { p != Stopping && p != Waking && p != Joining }

  predicate Awaiting(p: Poller) { p == Sleeping || p == Stated || p == Comparing || p == Getting }

  /** The worker has consumed a request and not yet put its stamp. */
  predicate Busy(w: Worker) { w == Checking || w == Delaying || w == Touching || w == Touched || w == Stamped }

  /** Counts of what the worker consumed and produced. */
  predicate WorkerCounts(c: Config, s: State) {
    && (s.worker != Done ==> s.clears == |s.puts| + (if Busy(s.worker) then 1 else 0))
    && |s.puts| <= s.clears <= |s.puts| + 1
    && |s.touches| == |s.puts| + (if s.worker == Touched || s.worker == Stamped then 1 else 0)
    && |s.puts| <= c.n && (s.worker != Top && s.worker != Done ==> |s.puts| < c.n)
  }

  /** Counts of what the poller asked for and got. */
  predicate PollerCounts(c: Config, s: State) {
    && |s.samples| <= s.requests <= |s.samples| + 1
    && (InLoop(s.poller) ==> s.requests == |s.samples| + (if Awaiting(s.poller) then 1 else 0))
    && |s.samples| <= c.n && (Awaiting(s.poller) || s.poller == Requesting ==> |s.samples| < c.n)
    && s.stop == (s.poller == Waking || s.poller == Joining)
  }

  /** The queue holds the stamps put and not yet taken. */
  predicate QueueMeans(s: State) { |s.samples| <= |s.puts| && s.queue == s.puts[|s.samples|..] }

  /** The event is set exactly while a request is unconsumed, until `stop` sets it for good. */
  predicate EventMeans(s: State) {
    && (s.poller != Joining ==> s.clears <= s.requests && (s.next <==> s.requests == s.clears + 1))
    && (s.worker == Woken ==> s.next)
    && (s.poller == Joining ==>
          && (s.worker != Checking && s.worker != Done ==> s.next)
          && (Busy(s.worker) && s.worker != Checking ==> s.clears <= s.requests)
          && |s.touches| <= s.requests)
  }

  /** The file shows the last touch; a difference from the snapshot shows the touch asked for. */
  predicate FileMeans(s: State) {
    && (s.touches != [] ==> s.mtime == s.touches[|s.touches| - 1])
    && (s.poller == Requesting ==> s.prev == s.mtime && |s.touches| == |s.samples|)
    && (Awaiting(s.poller) && |s.touches| == |s.samples| ==> s.prev == s.mtime)
    && ((s.poller == Stated || s.poller == Comparing) && s.current != s.prev ==> SeesTouch(s))
    && (s.poller == Getting ==> s.current != s.prev && SeesTouch(s))
  }

  predicate SeesTouch(s: State) { |s.touches| == |s.samples| + 1 && s.current == s.touches[|s.samples|] }

  /** The snapshot of iteration i was taken after exactly i touches. */
  predicate SnapshotsMean(s: State) {
    && |s.samples| <= |s.snapshots| <= |s.samples| + 1
    && (InLoop(s.poller) ==> |s.snapshots| == |s.samples| + (if s.poller == Snapping then 0 else 1))
    && (forall i :: 0 <= i < |s.snapshots| ==> s.snapshots[i] == i)
  }

  /** Sample i pairs the sight of touch i with the stamp put after touch i. */
  predicate SamplesMean(s: State) {
    && |s.samples| <= |s.puts| <= |s.touches|
    && (forall i :: 0 <= i < |s.samples| ==>
          s.samples[i].seen == s.touches[i] && s.samples[i].injected == s.puts[i])
  }

  /** On a monotone clock stamps come no earlier than the touch they belong to. */
  predicate StampsMean(s: State) {
    && (forall i :: 0 <= i < |s.touches| ==> s.touches[i] <= s.now)
    && |s.puts| <= |s.touches| && (forall i :: 0 <= i < |s.puts| ==> s.touches[i] <= s.puts[i])
    && (s.worker == Stamped ==> |s.touches| > |s.puts| && s.touches[|s.puts|] <= s.tInject)
  }

  /** Nor do sightings. */
  predicate SightsMean(s: State) {
    && ((s.poller == Comparing && s.current != s.prev) || s.poller == Getting ==> s.current <= s.tObserve)
    && (forall i :: 0 <= i < |s.samples| ==> s.samples[i].seen <= s.samples[i].observed)
  }

  predicate Inv(c: Config, s: State) {
    && WorkerCounts(c, s) && PollerCounts(c, s) && QueueMeans(s) && EventMeans(s) && FileMeans(s)
    && SnapshotsMean(s) && SamplesMean(s) && (c.monotone ==> StampsMean(s) && SightsMean(s))
  }

  predicate Counts(c: Config, s: State) { WorkerCounts(c, s) && PollerCounts(c, s) && EventMeans(s) }

  lemma WorkerCountsPreserved(c: Config, s: State, step: Step)
    requires Counts(c, s) && Enabled(c, s, step)
    ensures WorkerCounts(c, Apply(c, s, step))
  {
    match step
    case Begin => case Wake => case Clear => case Check => case DelayOver =>
    case Touch(_) => case Stamp(_) => case Put =>
    case _ =>
  }

  lemma PollerCountsPreserved(c: Config, s: State, step: Step)
    requires Counts(c, s) && Enabled(c, s, step)
    ensures PollerCounts(c, Apply(c, s, step))
  {
    match step
    case Snap => case Request => case Stat => case Observe(_) => case Compare =>
    case Get => case Leave => case SetStop => case SetNext =>
    case _ =>
  }

  lemma QueuePreserved(c: Config, s: State, step: Step)
    requires QueueMeans(s) && Enabled(c, s, step)
    ensures QueueMeans(Apply(c, s, step))
  {
    match step
    case Put => case Get => case _ =>
  }

  lemma EventPreservedByWorker(c: Config, s: State, step: Step)
    requires Counts(c, s) && Enabled(c, s, step) && IsWorker(step)
    ensures EventMeans(Apply(c, s, step))
  {
    match step
    case Begin => case Wake => case Clear => case Check => case DelayOver =>
    case Touch(_) => case Stamp(_) => case Put =>
    case _ =>
  }

  lemma EventPreservedByPoller(c: Config, s: State, step: Step)
    requires Counts(c, s) && QueueMeans(s) && Enabled(c, s, step) && !IsWorker(step)
    ensures EventMeans(Apply(c, s, step))
  {
    match step
    case Snap => case Request => case Stat => case Observe(_) => case Compare =>
    case Get => case Leave => case SetStop => case SetNext =>
    case _ =>
  }

  lemma FilePreservedByWorker(c: Config, s: State, step: Step)
    requires Counts(c, s) && QueueMeans(s) && FileMeans(s) && Enabled(c, s, step) && IsWorker(step)
    ensures FileMeans(Apply(c, s, step))
  {
    match step
    case Begin => case Wake => case Clear => case Check => case DelayOver =>
    case Touch(_) => case Stamp(_) => case Put =>
    case _ =>
  }

  lemma FilePreservedByPoller(c: Config, s: State, step: Step)
    requires Counts(c, s) && QueueMeans(s) && FileMeans(s) && Enabled(c, s, step) && !IsWorker(step)
    ensures FileMeans(Apply(c, s, step))
  {
    match step
    case Snap => case Request => case Stat => case Observe(_) => case Compare =>
    case Get => case Leave => case SetStop => case SetNext =>
    case _ =>
  }

  /** When a snapshot is taken no touch is under way. */
  lemma NoTouchAhead(c: Config, s: State)
    requires Counts(c, s) && QueueMeans(s) && s.poller == Snapping
    ensures |s.touches| == |s.samples|
  {
  }

  lemma SnapshotsPreserved(c: Config, s: State, step: Step)
    requires SnapshotsMean(s) && Enabled(c, s, step) && (step.Snap? ==> |s.touches| == |s.samples|)
    ensures SnapshotsMean(Apply(c, s, step))
  {
    match step
    case Snap => case Request => case Get => case Leave => case _ =>
  }

  lemma SamplesPreserved(c: Config, s: State, step: Step)
    requires WorkerCounts(c, s) && QueueMeans(s) && FileMeans(s) && SamplesMean(s) && Enabled(c, s, step)
    ensures SamplesMean(Apply(c, s, step))
  {
    match step
    case Get => assert s.queue[0] == s.puts[|s.samples|];
    case Touch(_) => case Put => case _ =>
  }

  lemma StampsPreserved(c: Config, s: State, step: Step)
    requires c.monotone && WorkerCounts(c, s) && StampsMean(s) && Enabled(c, s, step)
    ensures StampsMean(Apply(c, s, step)) && Apply(c, s, step).now >= s.now
  {
    match step
    case Touch(_) => case Stamp(_) => case Put => case Observe(_) => case _ =>
  }

  lemma SightIsPast(s: State)
    requires FileMeans(s) && StampsMean(s) && s.poller == Stated && s.current != s.prev
    ensures s.current <= s.now
  {
    assert SeesTouch(s);
  }

  lemma SightsPreserved(c: Config, s: State, step: Step)
    requires c.monotone && SightsMean(s) && Enabled(c, s, step)
    requires s.poller == Stated && s.current != s.prev ==> s.current <= s.now
    ensures SightsMean(Apply(c, s, step))
  {
    match step
    case Observe(_) => case Compare => case Get => case _ =>
  }

  lemma InvPreserved(c: Config, s: State, step: Step)
    requires Inv(c, s) && Enabled(c, s, step)
    ensures Inv(c, Apply(c, s, step))
  {
    WorkerCountsPreserved(c, s, step);
    PollerCountsPreserved(c, s, step);
    QueuePreserved(c, s, step);
    if IsWorker(step) {
      EventPreservedByWorker(c, s, step);
      FilePreservedByWorker(c, s, step);
    } else {
      EventPreservedByPoller(c, s, step);
      FilePreservedByPoller(c, s, step);
    }
    if step.Snap? {
      NoTouchAhead(c, s);
    }
    SnapshotsPreserved(c, s, step);
    SamplesPreserved(c, s, step);
    if c.monotone {
      StampsPreserved(c, s, step);
      if s.poller == Stated && s.current != s.prev {
        SightIsPast(s);
      }
      SightsPreserved(c, s, step);
    }
  }

  // ----- runs -----

  ghost predicate Leads(c: Config, s: State, path: seq<Step>, t: State)
    decreases |path|
  {
    if path == [] then s == t
    else Enabled(c, s, path[0]) && Leads(c, Apply(c, s, path[0]), path[1..], t)
  }

  lemma {:induction false} InvAlong(c: Config, s: State, path: seq<Step>, t: State)
    requires Inv(c, s) && Leads(c, s, path, t)
    ensures Inv(c, t)
    decreases |path|
  {
    if path != [] {
      InvPreserved(c, s, path[0]);
      InvAlong(c, Apply(c, s, path[0]), path[1..], t);
    }
  }

  /** In every interleaving: gets <= puts <= touches <= requests <= gets + 1; the snapshot of
      iteration i is taken after exactly i touches, so before touch i; and sample i pairs a sight
      of touch i with the stamp of touch i. */
  lemma ExactPairing(c: Config, mtime: int, now: int, path: seq<Step>, s: State)
    requires Leads(c, Init(mtime, now), path, s)
    ensures |s.samples| <= |s.puts| <= |s.touches| <= s.requests <= |s.samples| + 1
    ensures forall i :: 0 <= i < |s.snapshots| ==> s.snapshots[i] == i
    ensures forall i :: 0 <= i < |s.samples| ==>
              s.samples[i].seen == s.touches[i] && s.samples[i].injected == s.puts[i]
  {
    InvAlong(c, Init(mtime, now), path, s);
  }

  /** On a clock that never steps back a sample is never observed before its touch, nor stamped
      before it; so a latency falls below zero by no more than the delay of the stamp. */
  lemma LatencyLowerBound(c: Config, mtime: int, now: int, path: seq<Step>, s: State, i: nat)
    requires c.monotone && Leads(c, Init(mtime, now), path, s) && i < |s.samples|
    ensures i < |s.touches| && i < |s.puts|
    ensures var latency := s.samples[i].observed - s.samples[i].injected;
            s.puts[i] >= s.touches[i] && latency >= -(s.puts[i] - s.touches[i])
  {
    InvAlong(c, Init(mtime, now), path, s);
    assert s.samples[i].seen == s.touches[i];
  }

  /** Every stamp follows its touch within `gap`. */
  predicate StampsWithin(s: State, gap: int) {
    forall i :: 0 <= i < |s.puts| && i < |s.touches| ==> s.puts[i] - s.touches[i] <= gap
  }

  predicate NoNegativeLatency(s: State) {
    forall i :: 0 <= i < |s.samples| ==> s.samples[i].observed >= s.samples[i].injected
  }

  ghost predicate NeverNegative(n: nat, mtime: int, now: int, gap: int) {
    forall path, s :: Leads(Config(n, true), Init(mtime, now), path, s) && StampsWithin(s, gap) ==> NoNegativeLatency(s)
  }

  /** Because the stamp follows the touch, latencies on a monotone clock are free of negative values
      exactly when the stamp can be counted on to read the very time of the touch. */
  lemma NegativeLatencyIff(n: nat, mtime: int, now: int, gap: nat)
    requires n >= 1
    ensures NeverNegative(n, mtime, now, gap) <==> gap == 0
  {
    var c := Config(n, true);
    if gap == 0 {
      forall path, s | Leads(c, Init(mtime, now), path, s) && StampsWithin(s, gap) ensures NoNegativeLatency(s) {
        forall i | 0 <= i < |s.samples| ensures s.samples[i].observed >= s.samples[i].injected {
          LatencyLowerBound(c, mtime, now, path, s, i);
        }
      }
    } else {
      var path, s := NegativeLatencyHappens(n, mtime, now, gap);
      assert s.samples[0].observed < s.samples[0].injected;
    }
  }

  /** A run of one iteration whose latency is minus the gap. */
  lemma NegativeLatencyHappens(n: nat, mtime: int, now: int, gap: nat) returns (path: seq<Step>, s: State)
    requires n >= 1
    ensures Leads(Config(n, true), Init(mtime, now), path, s) && StampsWithin(s, gap)
    ensures |s.samples| == 1 && s.samples[0].injected - s.samples[0].observed == gap
  {
    var at := if now == mtime then now + 1 else now;
    path, s := UpToTheTouch(n, mtime, now, at);
    path, s := SeenBeforeStamped(n, mtime, now, at, gap, path, s);
  }

  function TouchedNotStamped(mtime: int, at: int): State {
    State(false, false, [], at, at, Touched, 0, Sleeping, mtime, 0, 0, 1, 1, [at], [], [0], [])
  }

  lemma UpToTheTouch(n: nat, mtime: int, now: int, at: int) returns (path: seq<Step>, s: State)
    requires n >= 1 && at >= now
    ensures Leads(Config(n, true), Init(mtime, now), path, s) && s == TouchedNotStamped(mtime, at)
  {
    var c, first := Config(n, true), Init(mtime, now);
    path, s := [], first;
    path, s := Then(c, first, path, s, Begin);
    path, s := Then(c, first, path, s, Snap);
    path, s := Then(c, first, path, s, Request);
    path, s := Then(c, first, path, s, Wake);
    path, s := Then(c, first, path, s, Clear);
    path, s := Then(c, first, path, s, Check);
    path, s := Then(c, first, path, s, DelayOver);
    path, s := Then(c, first, path, s, Touch(at));
  }

  lemma SeenBeforeStamped(n: nat, mtime: int, now: int, at: int, gap: nat, path0: seq<Step>, s0: State)
      returns (path: seq<Step>, s: State)
    requires Leads(Config(n, true), Init(mtime, now), path0, s0) && s0 == TouchedNotStamped(mtime, at) && at != mtime
    ensures Leads(Config(n, true), Init(mtime, now), path, s)
    ensures s.samples == [Sample(at, at, at + gap)] && s.touches == [at] && s.puts == [at + gap]
  {
    var c, first := Config(n, true), Init(mtime, now);
    path, s := Seen(n, mtime, now, at, path0, s0);
    path, s := Then(c, first, path, s, Stamp(at + gap));
    path, s := Then(c, first, path, s, Put);
    path, s := Then(c, first, path, s, Get);
  }

  lemma Seen(n: nat, mtime: int, now: int, at: int, path0: seq<Step>, s0: State) returns (path: seq<Step>, s: State)
    requires Leads(Config(n, true), Init(mtime, now), path0, s0) && s0 == TouchedNotStamped(mtime, at) && at != mtime
    ensures Leads(Config(n, true), Init(mtime, now), path, s)
    ensures s == s0.(poller := Getting, current := at, tObserve := at)
  {
    var c, first := Config(n, true), Init(mtime, now);
    path, s := Then(c, first, path0, s0, Stat);
    path, s := Then(c, first, path, s, Observe(at));
    path, s := Then(c, first, path, s, Compare);
  }

  lemma Then(c: Config, first: State, path: seq<Step>, s: State, step: Step) returns (path': seq<Step>, s': State)
    requires Leads(c, first, path, s) && Enabled(c, s, step)
    ensures path' == path + [step] && s' == Apply(c, s, step) && Leads(c, first, path', s')
  {
    path', s' := path + [step], Apply(c, s, step);
    LeadsFurther(c, first, path, s, step);
  }

  lemma {:induction false} LeadsFurther(c: Config, s: State, path: seq<Step>, t: State, step: Step)
    requires Leads(c, s, path, t) && Enabled(c, t, step)
    ensures Leads(c, s, path + [step], Apply(c, t, step))
    decreases |path|
  {
    if path == [] {
      assert [step][1..] == [];
    } else {
      assert (path + [step])[1..] == path[1..] + [step];
      LeadsFurther(c, Apply(c, s, path[0]), path[1..], t, step);
    }
  }

  // ----- when the poll loop ends -----

  /** The mtime before touch i. */
  function Before(s: State, mtime: int, i: nat): int
    requires i <= |s.touches|
  {
    if i == 0 then mtime else s.touches[i - 1]
  }

  /** The snapshot in use shows the mtime before the touch that is awaited. */
  predicate PrevMeans(s: State, mtime: int) {
    && (s.touches == [] ==> s.mtime == mtime)
    && (Awaiting(s.poller) || s.poller == Requesting ==>
          |s.samples| <= |s.touches| && s.prev == Before(s, mtime, |s.samples|))
  }

  lemma PrevPreserved(c: Config, s: State, step: Step, mtime: int)
    requires FileMeans(s) && PrevMeans(s, mtime) && Enabled(c, s, step)
    requires |s.samples| <= |s.touches| && (step.Snap? ==> |s.touches| == |s.samples|)
    ensures PrevMeans(Apply(c, s, step), mtime)
  {
    match step
    case Snap => case Touch(_) => case Request => case Get => case Leave => case _ =>
  }

  lemma {:induction false} PrevAlong(c: Config, s: State, path: seq<Step>, t: State, mtime: int)
    requires Inv(c, s) && PrevMeans(s, mtime) && Leads(c, s, path, t)
    ensures PrevMeans(t, mtime)
    decreases |path|
  {
    if path != [] {
      if path[0].Snap? {
        NoTouchAhead(c, s);
      }
      InvPreserved(c, s, path[0]);
      PrevPreserved(c, s, path[0], mtime);
      PrevAlong(c, Apply(c, s, path[0]), path[1..], t, mtime);
    }
  }

  /** One turn of the poll loop in iteration i, when the worker does not step in between: it ends the
      loop exactly when touch i has happened and left an mtime other than the one before it. On a
      clock too coarse to tell two touches apart the loop goes on. */
  lemma PollEndsIff(c: Config, mtime: int, now: int, path: seq<Step>, s: State, at: int)
    requires Leads(c, Init(mtime, now), path, s) && s.poller == Sleeping && (c.monotone ==> at >= s.now)
    ensures var i := |s.samples|;
            var t := Apply(c, Apply(c, Apply(c, s, Stat), Observe(at)), Compare);
            i <= |s.touches| && (t.poller == Getting <==> i < |s.touches| && s.touches[i] != Before(s, mtime, i))
            && (t.poller != Getting ==> t.poller == Sleeping)
  {
    InvAlong(c, Init(mtime, now), path, s);
    InitPrev(c, mtime, now);
    PrevAlong(c, Init(mtime, now), path, s, mtime);
    AwaitedTouches(c, s);
    PollTurn(c, s, at, mtime);
  }

  lemma PollTurn(c: Config, s: State, at: int, mtime: int)
    requires s.poller == Sleeping && (c.monotone ==> at >= s.now) && FileMeans(s) && PrevMeans(s, mtime)
    requires |s.samples| <= |s.touches| <= |s.samples| + 1
    ensures var t := Apply(c, Apply(c, Apply(c, s, Stat), Observe(at)), Compare);
            t.poller == if |s.samples| < |s.touches| && s.touches[|s.samples|] != Before(s, mtime, |s.samples|)
                        then Getting else Sleeping
  {
  }

  lemma InitPrev(c: Config, mtime: int, now: int)
    ensures Inv(c, Init(mtime, now)) && PrevMeans(Init(mtime, now), mtime)
  {
  }

  lemma AwaitedTouches(c: Config, s: State)
    requires Counts(c, s) && QueueMeans(s) && Awaiting(s.poller)
    ensures |s.samples| <= |s.touches| <= |s.samples| + 1
  {
  }

  // ----- no request is lost -----

  /** How many more steps of its own the worker needs to put the stamp of the current request. */
  function ToPut(w: Worker): nat {
    match w
    case Top => 8 case Waiting => 7 case Woken => 6 case Checking => 5 case Delaying => 4
    case Touching => 3 case Touched => 2 case Stamped => 1 case Done => 9
  }

  /** While the poller waits for an answer to a request and has not begun to stop, the worker is
      never blocked: its next step is possible and brings it closer to the put. */
  lemma NoRequestIsLost(c: Config, mtime: int, now: int, path: seq<Step>, s: State)
    requires Leads(c, Init(mtime, now), path, s)
    requires Awaiting(s.poller) && |s.puts| == |s.samples|
    ensures s.worker != Done
    ensures exists step :: IsWorker(step) && Enabled(c, s, step)
    ensures forall step :: IsWorker(step) && Enabled(c, s, step) ==>
              (var t := Apply(c, s, step); |t.puts| > |s.puts| || ToPut(t.worker) < ToPut(s.worker))
  {
    AliveAlong(c, Init(mtime, now), path, s);
    assert Enabled(c, s, NextWorkerStep(s));
    forall step | IsWorker(step) && Enabled(c, s, step)
      ensures var t := Apply(c, s, step); |t.puts| > |s.puts| || ToPut(t.worker) < ToPut(s.worker)
    {
      WorkerAdvances(c, s, step);
    }
  }

  lemma WorkerAdvances(c: Config, s: State, step: Step)
    requires |s.puts| < c.n && !s.stop && IsWorker(step) && Enabled(c, s, step)
    ensures var t := Apply(c, s, step); |t.puts| > |s.puts| || ToPut(t.worker) < ToPut(s.worker)
  {
  }

  function NextWorkerStep(s: State): Step {
    match s.worker
    case Top => Begin case Waiting => Wake case Woken => Clear case Checking => Check case Delaying => DelayOver
    case Touching => Touch(s.now) case Touched => Stamp(s.now) case Stamped => Put case Done => Begin
  }

  /** Before `stop` the worker is done only after all its iterations. */
  lemma {:induction false} AliveAlong(c: Config, s: State, path: seq<Step>, t: State)
    requires Inv(c, s) && Leads(c, s, path, t) && (s.worker == Done && !s.stop ==> |s.puts| == c.n)
    ensures Inv(c, t) && (t.worker == Done && !t.stop ==> |t.puts| == c.n)
    decreases |path|
  {
    if path != [] {
      InvPreserved(c, s, path[0]);
      AliveAlong(c, Apply(c, s, path[0]), path[1..], t);
    }
  }

  // ----- stopping -----

  /** After the stop flag is set, only a touch already committed to can still happen. */
  function TouchesLeft(s: State): nat { if s.worker == Touching then 1 else 0 }

  function ToExit(w: Worker): nat {
    match w
    case Done => 0 case Top => 1 case Checking => 1 case Delaying => 1 case Stamped => 2 case Woken => 2
    case Touched => 3 case Waiting => 3 case Touching => 4
  }

  lemma {:induction false} AtMostOneMoreTouch(c: Config, s: State, path: seq<Step>, t: State)
    requires s.stop && Leads(c, s, path, t)
    ensures t.stop && |t.touches| + TouchesLeft(t) <= |s.touches| + TouchesLeft(s)
    ensures |t.touches| <= |s.touches| + 1
    decreases |path|
  {
    if path != [] {
      AtMostOneMoreTouch(c, Apply(c, s, path[0]), path[1..], t);
    }
  }

  /** `stop()` has returned: both events are set, the second one until the worker clears it. */
  predicate StopReturned(s: State) {
    s.poller == Joining && s.stop && (s.worker != Checking && s.worker != Done ==> s.next)
  }

  /** From then on only the worker steps, never blocked, each step bringing it closer to its exit. */
  lemma StepToExit(c: Config, s: State, step: Step)
    requires StopReturned(s) && Enabled(c, s, step)
    ensures IsWorker(step) && StopReturned(Apply(c, s, step)) && ToExit(Apply(c, s, step).worker) < ToExit(s.worker)
  {
    match step
    case Begin => case Wake => case Clear => case Check => case DelayOver =>
    case Touch(_) => case Stamp(_) => case Put => case _ =>
  }

  lemma {:induction false} RunToExit(c: Config, s: State, path: seq<Step>, t: State)
    requires StopReturned(s) && Leads(c, s, path, t)
    ensures StopReturned(t) && |path| + ToExit(t.worker) <= ToExit(s.worker)
    decreases |path|
  {
    if path != [] {
      StepToExit(c, s, path[0]);
      RunToExit(c, Apply(c, s, path[0]), path[1..], t);
    }
  }

  lemma StopReturns(c: Config, mtime: int, now: int, path: seq<Step>, s: State)
    requires Leads(c, Init(mtime, now), path, s) && s.poller == Joining
    ensures StopReturned(s)
  {
    InvAlong(c, Init(mtime, now), path, s);
  }

  /** Once `stop()` has returned, the worker is never blocked again and every step of its own brings
      it strictly closer to its exit, from wherever it was. */
  lemma WorkerExits(c: Config, mtime: int, now: int, path: seq<Step>, s: State)
    requires Leads(c, Init(mtime, now), path, s) && s.poller == Joining
    ensures s.worker != Done ==> Enabled(c, s, NextWorkerStep(s))
    ensures forall step :: Enabled(c, s, step) ==>
              IsWorker(step) && ToExit(Apply(c, s, step).worker) < ToExit(s.worker)
  {
    StopReturns(c, mtime, now, path, s);
    forall step | Enabled(c, s, step) ensures IsWorker(step) && ToExit(Apply(c, s, step).worker) < ToExit(s.worker) {
      StepToExit(c, s, step);
    }
  }

  /** So whatever the run up to the return of `stop()`, every run from there has at most four steps,
      and one that cannot go on has ended the worker. */
  lemma WorkerTerminates(c: Config, mtime: int, now: int, before: seq<Step>, s: State, path: seq<Step>, t: State)
    requires Leads(c, Init(mtime, now), before, s) && s.poller == Joining && Leads(c, s, path, t)
    ensures |path| + ToExit(t.worker) <= ToExit(s.worker) <= 4
    ensures t.worker == Done || Enabled(c, t, NextWorkerStep(t))
  {
    StopReturns(c, mtime, now, before, s);
    RunToExit(c, s, path, t);
  }
}
