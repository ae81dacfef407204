/** The run-status polling bench: each iteration resets the mock server, spawns a thread that stamps
    and then flips the server to completed, and polls until completed is observed. */
module FlipProtocol {
  import opened Numbers

  /** `interval` between polls. On a `monotone` clock no reading goes back. In a `punctual` run polls
      start on schedule, an answer takes at most `trip`, the flip follows its stamp within `gap`,
      and polling begins within one interval of the spawn. */
  datatype Config = Config(n: nat, interval: int, trip: int, gap: int, monotone: bool, punctual: bool)

  datatype Flip = Asleep | Stamped(at: int) | Fired(at: int)

  datatype Main = Resetting | Spawning | Starting | Idle | InFlight | Answered(completed: bool)
                | Joining | Recording | Failed

  /** `cause` is the iteration whose flip made the observed answer. */
  datatype Sample = Sample(observed: int, injected: int, cause: int)

  /** Flips and holders have one entry per spawned thread. `completed` is the server's event and
      `setBy` the thread that set it last; `seen` is the setter behind the last answer. */
  datatype State = State(
    completed: bool, setBy: int, flips: seq<Flip>, holders: seq<seq<int>>, now: int,
    main: Main, spawned: int, next: int, started: int, idle: int, tObserve: int, seen: int,
    samples: seq<Sample>)

  function Init(now: int): State { State(false, -1, [], [], now, Resetting, now, now, now, now, now, -1, []) }

  datatype Step =
    | Reset | Spawn(at: int) | Begin(at: int) | StartPoll(at: int) | Evaluate(at: int) | Respond(at: int)
    | Miss(at: int) | TimeOut | Join | Record
    | StampFlip(j: nat, at: int) | SetFlip(j: nat, at: int)

  predicate Enabled(c: Config, s: State, step: Step) {
    match step
    case Reset => s.main == Resetting && |s.samples| < c.n
    case Spawn(at) => s.main == Spawning && OnClock(c, s, at)
    case Begin(at) => s.main == Starting && OnClock(c, s, at) && (c.punctual ==> at <= s.spawned + c.interval)
    // The loop sleeps until `next` unless that is already past.
    case StartPoll(at) => s.main == Idle && OnClock(c, s, at) && (c.punctual ==> at == Max(s.next, s.idle))
    case Evaluate(at) => s.main == InFlight && OnClock(c, s, at) && (c.punctual ==> at <= s.started + c.trip)
    case Respond(at) => s.main.Answered? && OnClock(c, s, at) && (c.punctual ==> at <= s.started + c.trip)
    // A connection error or an undecodable body.
    case Miss(at) => (s.main == InFlight || s.main.Answered?) && OnClock(c, s, at) && !c.punctual
    case TimeOut => s.main == Idle
    case Join => s.main == Joining
    case Record => s.main == Recording
    case StampFlip(j, at) => j < |s.flips| && s.flips[j].Asleep? && OnClock(c, s, at)
    case SetFlip(j, at) => j < |s.flips| && s.flips[j].Stamped? && OnClock(c, s, at)
                           && (c.punctual ==> at <= s.flips[j].at + c.gap)
  }

  predicate OnClock(c: Config, s: State, at: int) { c.monotone ==> at >= s.now }

  function Apply(c: Config, s: State, step: Step): State
    requires Enabled(c, s, step) && |s.flips| == |s.holders|
  {
    match step
    case Reset => s.(main := Spawning, completed := false)
    case Spawn(at) => s.(main := Starting, flips := s.flips + [Asleep], holders := s.holders + [[]],
                         spawned := at, now := at)
    case Begin(at) => s.(main := Idle, next := at, idle := at, now := at)
    case StartPoll(at) => s.(main := InFlight, started := at, now := at)
    case Evaluate(at) => s.(main := Answered(s.completed), seen := s.setBy, now := at)
    case Respond(at) => if s.main.completed then s.(main := Joining, tObserve := at, now := at)
                        else s.(main := Idle, next := s.next + c.interval, idle := at, now := at)
    case Miss(at) => s.(main := Idle, next := s.next + c.interval, idle := at, now := at)
    // The deadline passes without an observation: RuntimeError.
    case TimeOut => s.(main := Failed)
    // `join` returns because the thread is done or because its timeout passed.
    case Join => s.(main := Recording)
    case Record =>
      var k := |s.samples|;
      if k >= |s.holders| || s.holders[k] == [] then s.(main := Failed)
      else s.(main := Resetting, samples := s.samples + [Sample(s.tObserve, s.holders[k][0], s.seen)])
    case StampFlip(j, at) => s.(flips := s.flips[j := Stamped(at)], holders := s.holders[j := s.holders[j] + [at]],
                                now := at)
    case SetFlip(j, at) => s.(flips := s.flips[j := Fired(s.flips[j].at)], completed := true, setBy := j, now := at)
  }

  // ----- what every step keeps -----

  predicate HasFlip(m: Main) {
    m == Starting || m == Idle || m == InFlight || m.Answered? || m == Joining || m == Recording
  }

  predicate HoldersMean(s: State) {
    && |s.flips| == |s.holders|
    && (forall j :: 0 <= j < |s.flips| ==>
          s.holders[j] == if s.flips[j].Asleep? then [] else [s.flips[j].at])
  }

  /** No thread of a past iteration is still to fire, and only the current one has set the event. */
  predicate Fresh(s: State) {
    var k := |s.samples|;
    && (forall j :: 0 <= j < k && j < |s.flips| ==> s.flips[j].Fired?)
    && k <= |s.flips| <= k + 1
    && (s.main != Failed ==> |s.flips| == k + (if HasFlip(s.main) then 1 else 0))
    && (s.main == Spawning ==> !s.completed)
    && (HasFlip(s.main) ==> (s.completed <==> s.flips[k].Fired?) && (s.completed ==> s.setBy == k))
    && (s.main == Answered(true) || s.main == Joining || s.main == Recording ==> s.completed && s.seen == k)
  }

  predicate SamplesMean(s: State) {
    forall i :: 0 <= i < |s.samples| ==>
      && s.samples[i].cause == i && i < |s.holders| && s.holders[i] == [s.samples[i].injected]
  }

  /** Readings of a monotone clock follow the order of events. */
  predicate ClockMeans(s: State) {
    && (forall j :: 0 <= j < |s.flips| && !s.flips[j].Asleep? ==> s.flips[j].at <= s.now)
    && ((s.main == Joining || s.main == Recording) && |s.samples| < |s.flips| && !s.flips[|s.samples|].Asleep? ==>
          s.flips[|s.samples|].at <= s.tObserve)
    && (forall i :: 0 <= i < |s.samples| ==> s.samples[i].injected <= s.samples[i].observed)
  }

  predicate Inv(c: Config, s: State) {
    && HoldersMean(s) && Fresh(s) && SamplesMean(s)
    && (c.monotone ==> ClockMeans(s))
  }

  lemma FreshPreserved(c: Config, s: State, step: Step)
    requires HoldersMean(s) && Fresh(s) && Enabled(c, s, step)
    ensures Fresh(Apply(c, s, step))
  {
    match step
    case Reset => case Spawn(_) => case Begin(_) => case StartPoll(_) => case Evaluate(_) => case Respond(_) =>
    case Miss(_) => case TimeOut => case Join => case Record => case StampFlip(_, _) => case SetFlip(_, _) =>
  }

  lemma HoldersPreserved(c: Config, s: State, step: Step)
    requires Inv(c, s) && Enabled(c, s, step)
    ensures HoldersMean(Apply(c, s, step))
  {
  }

  lemma SamplesPreserved(c: Config, s: State, step: Step)
    requires Inv(c, s) && Enabled(c, s, step)
    ensures SamplesMean(Apply(c, s, step))
  {
    var t := Apply(c, s, step);
    forall i | 0 <= i < |t.samples|
      ensures t.samples[i].cause == i && i < |t.holders| && t.holders[i] == [t.samples[i].injected]
    {
      if i < |s.samples| {
        assert t.samples[i] == s.samples[i];
        assert s.flips[i].Fired?;
      }
    }
  }

  lemma ClockPreserved(c: Config, s: State, step: Step)
    requires Inv(c, s) && c.monotone && Enabled(c, s, step)
    ensures ClockMeans(Apply(c, s, step))
  {
  }

  lemma InvPreserved(c: Config, s: State, step: Step)
    requires Inv(c, s) && Enabled(c, s, step)
    ensures Inv(c, Apply(c, s, step))
  {
    FreshPreserved(c, s, step);
    HoldersPreserved(c, s, step);
    SamplesPreserved(c, s, step);
    if c.monotone {
      ClockPreserved(c, s, step);
    }
  }

  // ----- runs -----

  ghost predicate Leads(c: Config, s: State, path: seq<Step>, t: State)
    decreases |path|
  {
    if path == [] then s == t
    else Enabled(c, s, path[0]) && |s.flips| == |s.holders| && Leads(c, Apply(c, s, path[0]), path[1..], t)
  }

  lemma {:induction false} InvAlong(c: Config, s: State, path: seq<Step>, t: State)
    requires Inv(c, s) && Leads(c, s, path, t)
    ensures Inv(c, t)
    decreases |path|
  {
    if path != [] {
      InvPreserved(c, s, path[0]);
      InvAlong(c, Apply(c, s, path[0]), path[1..], t);
    }
  }

  /** In every interleaving: when an iteration starts, every thread spawned before has fired, so none
      can flip the server under the new iteration; each sample was caused by its own iteration's
      flip and paired with the one stamp that thread left; and recording never fails for want of a
      stamp. */
  lemma OwnFlipObserved(c: Config, now: int, path: seq<Step>, s: State)
    requires Leads(c, Init(now), path, s)
    ensures s.main == Resetting || s.main == Spawning ==> forall j :: 0 <= j < |s.flips| ==> s.flips[j].Fired?
    ensures forall i :: 0 <= i < |s.samples| ==>
              s.samples[i].cause == i && i < |s.holders| && s.holders[i] == [s.samples[i].injected]
    ensures s.main == Recording ==> Enabled(c, s, Record) && |s.flips| == |s.holders|
                                    && Apply(c, s, Record).main == Resetting
  {
    InvAlong(c, Init(now), path, s);
  }

  /** On a monotone clock no latency is negative, so clamping to one nanosecond only ever lifts a
      zero. */
  lemma LatencyNotNegative(c: Config, now: int, path: seq<Step>, s: State, i: nat)
    requires c.monotone && Leads(c, Init(now), path, s) && i < |s.samples|
    ensures s.samples[i].observed - s.samples[i].injected >= 0
  {
    InvAlong(c, Init(now), path, s);
  }

  // ----- how late an observation can be -----

  /** A flip that the coming answer can still show was stamped at most one interval and one gap
      before that poll's slot. */
  predicate Timely(c: Config, s: State) {
    var k := |s.samples|;
    && (s.main == Starting ==> s.spawned <= s.now && (k < |s.flips| && !s.flips[k].Asleep? ==> s.flips[k].at >= s.spawned))
    && (s.main == Idle ==> s.next - c.interval <= s.now && s.idle <= s.next)
    && (s.main == InFlight || s.main.Answered? ==> s.started == s.next && s.next <= s.now)
    && ((s.main == Idle || s.main == InFlight || s.main == Answered(true)) && k < |s.flips| && s.flips[k].Fired? ==>
          s.flips[k].at >= s.next - c.interval - c.gap)
    && (s.main == Answered(false) && k < |s.flips| && s.flips[k].Fired? ==> s.flips[k].at >= s.next - c.gap)
    && ((s.main == Joining || s.main == Recording) && k < |s.flips| && !s.flips[k].Asleep? ==>
          s.tObserve - s.flips[k].at <= c.interval + c.trip + c.gap)
    && (forall i :: 0 <= i < |s.samples| ==>
          s.samples[i].observed - s.samples[i].injected <= c.interval + c.trip + c.gap)
  }

  predicate Prompt(c: Config) { c.monotone && c.punctual && 0 <= c.trip <= c.interval && c.gap >= 0 }

  predicate IsFlip(step: Step) { step.StampFlip? || step.SetFlip? }

  lemma TimelyPreservedByFlip(c: Config, s: State, step: Step)
    requires Prompt(c) && Inv(c, s) && Timely(c, s) && Enabled(c, s, step) && IsFlip(step)
    ensures Timely(c, Apply(c, s, step))
  {
    match step
    case StampFlip(j, at) => case SetFlip(j, at) => case _ =>
  }

  lemma TimelyPreservedByMain(c: Config, s: State, step: Step)
    requires Prompt(c) && Inv(c, s) && Timely(c, s) && Enabled(c, s, step) && !IsFlip(step)
    ensures Timely(c, Apply(c, s, step))
  {
    match step
    case Reset => case Spawn(_) => case Begin(_) => case StartPoll(_) => case Evaluate(_) => case Respond(_) =>
    case Miss(_) => case TimeOut => case Join => case Record => case _ =>
  }

  lemma {:induction false} TimelyAlong(c: Config, s: State, path: seq<Step>, t: State)
    requires Prompt(c) && Inv(c, s) && Timely(c, s) && Leads(c, s, path, t)
    ensures Timely(c, t)
    decreases |path|
  {
    if path != [] {
      InvPreserved(c, s, path[0]);
      if IsFlip(path[0]) {
        TimelyPreservedByFlip(c, s, path[0]);
      } else {
        TimelyPreservedByMain(c, s, path[0]);
      }
      TimelyAlong(c, Apply(c, s, path[0]), path[1..], t);
    }
  }

  /** With polls on schedule and answers within `trip` <= `interval`, a latency is at most one
      interval plus one trip, plus whatever passed between the stamp and the flip. */
  lemma LatencyUpperBound(c: Config, now: int, path: seq<Step>, s: State, i: nat)
    requires Prompt(c) && Leads(c, Init(now), path, s) && i < |s.samples|
    ensures 0 <= s.samples[i].observed - s.samples[i].injected <= c.interval + c.trip + c.gap
  {
    InvAlong(c, Init(now), path, s);
    TimelyAlong(c, Init(now), path, s);
  }
}
