/** Open-loop pacing: intended times fixed in advance, dispatch at the later of the intended time and
    the end of the previous work. All times in nanoseconds. */
module Pacing {
  import opened Numbers
  import opened Text

  // ----- the interval -----

  /** Rounding the interval moves the i-th intended time by at most i/2 ns. */
  lemma RoundingDrift(rateHz: real, i: nat)
    requires rateHz > 0.0
    ensures var ideal := 1_000_000_000.0 / rateHz;
            var drift := i as real * Round(ideal) as real - i as real * ideal;
            -(i as real) / 2.0 <= drift <= i as real / 2.0
  {
    var ideal := 1_000_000_000.0 / rateHz;
    Distribute(i as real, Round(ideal) as real, ideal);
    Scale(i as real, Round(ideal) as real - ideal);
  }

  lemma Distribute(k: real, a: real, b: real)
    ensures k * a - k * b == k * (a - b)
  {
  }

  lemma Scale(k: real, off: real)
    requires k >= 0.0 && -0.5 <= off <= 0.5
    ensures -k / 2.0 <= k * off <= k / 2.0
  {
    assert k * (off + 0.5) >= 0.0 && k * (0.5 - off) >= 0.0;
  }

  ghost predicate EvenlySpaced(times: seq<int>, interval: int) {
    forall i, j :: 0 <= i < j < |times| && j == i + 1 ==> times[j] - times[i] == interval
  }

  class OpenLoopScheduler {
    const n: nat
    const intervalNs: int
    var t0: Option<int>

    constructor (rateHz: real, n: nat)
      requires rateHz > 0.0 && n > 0
      ensures this.n == n && intervalNs == Round(1_000_000_000.0 / rateHz) && t0 == None
    {
      this.n, intervalNs, t0 := n, Round(1_000_000_000.0 / rateHz), None;
    }

    /** The checks of the original constructor; None is ValueError. */
    static method Create(rateHz: real, n: int) returns (r: Option<OpenLoopScheduler>)
      ensures r.Some? <==> rateHz > 0.0 && n > 0
      ensures r.Some? ==> fresh(r.value) && r.value.n == n && r.value.t0 == None
                          && r.value.intervalNs == Round(1_000_000_000.0 / rateHz)
    {
      if rateHz <= 0.0 || n <= 0 { return None; }
      var s := new OpenLoopScheduler(rateHz, n);
      return Some(s);
    }

    /** Anchor at the clock reading and yield the n intended times: the first is the anchor, and each
        next one interval later, whatever happens in between. */
    method Iterate(now: int) returns (times: seq<int>)
      modifies this`t0
      ensures t0 == Some(now) && |times| == n
      ensures n > 0 ==> times[0] == now
      ensures EvenlySpaced(times, intervalNs)
    {
      t0 := Some(now);
      times := [];
      for i := 0 to n
        invariant |times| == i && t0 == Some(now)
        invariant forall k :: 0 <= k < i ==> times[k] == now + k * intervalNs
      {
        times := times + [now + i * intervalNs];
      }
      forall i, j | 0 <= i && j == i + 1 && j < n ensures times[j] - times[i] == intervalNs {
        assert j * intervalNs == i * intervalNs + intervalNs;
      }
    }
  }

  // ----- the paced loop -----

  /** `start` is how long after the anchor the first reading of the clock comes, `work(i)` what
      passes between dispatch i and the next reading. Sleeps are exact. */
  datatype Run = Run(t0: int, interval: int, start: nat, work: nat -> nat)

  /** One interval after another from the anchor. */
  function Intended(r: Run, i: nat): int {
    if i == 0 then r.t0 else Intended(r, i - 1) + r.interval
  }

  lemma {:induction false} IntendedIsOnGrid(r: Run, i: nat)
    ensures Intended(r, i) == r.t0 + i * r.interval
  {
    if i > 0 {
      IntendedIsOnGrid(r, i - 1);
      assert i * r.interval == (i - 1) * r.interval + r.interval;
    }
  }

  /** Times one interval apart from the anchor on are the intended ones. */
  lemma {:induction false} YieldedAreIntended(times: seq<int>, r: Run, i: nat)
    requires i < |times| && times[0] == r.t0
    requires EvenlySpaced(times, r.interval)
    ensures times[i] == Intended(r, i)
  {
    if i > 0 {
      YieldedAreIntended(times, r, i - 1);
      assert times[i] - times[i - 1] == r.interval;
    }
  }

  /** The reading that decides whether tick i has to sleep. */
  function Reading(r: Run, i: nat): int
    decreases i, 0
  {
    if i == 0 then r.t0 + r.start else Dispatch(r, i - 1) + r.work(i - 1)
  }

  function Dispatch(r: Run, i: nat): int
    decreases i, 1
  {
    Max(Intended(r, i), Reading(r, i))
  }

  /** The throughput window: iterate over a scheduler from the anchor, break at the first reading past
      the deadline, sleep when ahead, and work. */
  method RunWindow(sched: OpenLoopScheduler, anchor: int, start: nat, work: nat -> nat, deadline: int)
      returns (dispatches: seq<int>)
    modifies sched`t0
    ensures var r := Run(anchor, sched.intervalNs, start, work);
            && sched.t0 == Some(anchor) && |dispatches| <= sched.n
            && (forall i {:trigger dispatches[i]} :: 0 <= i < |dispatches| ==>
                  dispatches[i] == Dispatch(r, i) && Reading(r, i) < deadline)
            && (|dispatches| < sched.n ==> Reading(r, |dispatches|) >= deadline)
  {
    ghost var r := Run(anchor, sched.intervalNs, start, work);
    var times := sched.Iterate(anchor);
    dispatches := [];
    var clock := anchor + start;
    for i := 0 to |times|
      invariant sched.t0 == Some(anchor) && |dispatches| == i && clock == Reading(r, i)
      invariant forall k {:trigger dispatches[k]} :: 0 <= k < i ==>
                  dispatches[k] == Dispatch(r, k) && Reading(r, k) < deadline
    {
      YieldedAreIntended(times, r, i);
      if clock >= deadline { break; }
      if clock < times[i] {
        clock := times[i];
      }
      assert clock == Dispatch(r, i);
      dispatches := dispatches + [clock];
      clock := clock + work(i);
    }
  }

  /** Work done from tick j up to tick i. */
  function WorkSum(r: Run, j: nat, i: nat): nat
    requires j <= i
  {
    if i == j then 0 else WorkSum(r, j, i - 1) + r.work(i - 1)
  }

  /** When tick j could go by itself. */
  function Ready(r: Run, j: nat): int { if j == 0 then Max(r.t0, r.t0 + r.start) else Intended(r, j) }

  /** Closed form: the dispatch is the largest, over the ticks j up to i, of the time j could go
      plus the work since. */
  lemma {:induction false} ClosedForm(r: Run, i: nat)
    ensures forall j :: 0 <= j <= i ==> Ready(r, j) + WorkSum(r, j, i) <= Dispatch(r, i)
    ensures exists j :: 0 <= j <= i && Ready(r, j) + WorkSum(r, j, i) == Dispatch(r, i)
  {
    if i == 0 {
      assert Ready(r, 0) + WorkSum(r, 0, 0) == Dispatch(r, 0);
    } else {
      ClosedForm(r, i - 1);
      if Dispatch(r, i) == Intended(r, i) {
        assert Ready(r, i) + WorkSum(r, i, i) == Dispatch(r, i);
      } else {
        var j :| 0 <= j <= i - 1 && Ready(r, j) + WorkSum(r, j, i - 1) == Dispatch(r, i - 1);
        assert Ready(r, j) + WorkSum(r, j, i) == Dispatch(r, i);
      }
      forall j | 0 <= j <= i ensures Ready(r, j) + WorkSum(r, j, i) <= Dispatch(r, i) {
        if j < i {
          assert Ready(r, j) + WorkSum(r, j, i - 1) <= Dispatch(r, i - 1);
        }
      }
    }
  }

  /** A closed loop that always waits out the interval after each dispatch. */
  function ClosedLoop(r: Run, i: nat): int {
    if i == 0 then Dispatch(r, 0) else ClosedLoop(r, i - 1) + Max(r.interval, r.work(i - 1))
  }

  /** Never before the intended time, and never after the closed loop. */
  lemma {:induction false} BetweenIntendedAndClosedLoop(r: Run, i: nat)
    ensures Intended(r, i) <= Dispatch(r, i) <= ClosedLoop(r, i)
  {
    if i > 0 {
      BetweenIntendedAndClosedLoop(r, i - 1);
      assert Intended(r, i) == Intended(r, i - 1) + r.interval;
    }
  }

  /** The first n + 1 ticks all go on time exactly when the loop starts on time and no work outlasts
      the interval. */
  lemma {:induction false} OnTimeIff(r: Run, n: nat)
    ensures (forall i :: 0 <= i <= n ==> Dispatch(r, i) == Intended(r, i))
       <==> r.start == 0 && forall i :: 0 <= i < n ==> r.work(i) <= r.interval
  {
    if n == 0 {
      assert Dispatch(r, 0) == r.t0 + r.start;
    } else {
      OnTimeIff(r, n - 1);
      assert Intended(r, n) == Intended(r, n - 1) + r.interval;
      if forall i :: 0 <= i <= n ==> Dispatch(r, i) == Intended(r, i) {
        assert Dispatch(r, n) == Intended(r, n) && Dispatch(r, n - 1) == Intended(r, n - 1);
        assert Dispatch(r, n) >= Reading(r, n);
        assert r.work(n - 1) <= r.interval;
      }
      if r.start == 0 && forall i :: 0 <= i < n ==> r.work(i) <= r.interval {
        assert Dispatch(r, n - 1) == Intended(r, n - 1) && r.work(n - 1) <= r.interval;
        assert Dispatch(r, n) == Intended(r, n);
      }
    }
  }

  /** A slow tick does not move the schedule: while later work fits the interval, tick i + k goes
      either on the original grid or as soon as the backlog lets it. */
  lemma {:induction false} BacklogDrains(r: Run, i: nat, k: nat)
    requires forall j :: i <= j < i + k ==> r.work(j) <= r.interval
    ensures Dispatch(r, i + k) == Max(Intended(r, i + k), Dispatch(r, i) + WorkSum(r, i, i + k))
    decreases k
  {
    BetweenIntendedAndClosedLoop(r, i);
    if k > 0 {
      BacklogDrains(r, i, k - 1);
      OneTickLater(r, i + k - 1);
    }
  }

  lemma OneTickLater(r: Run, i: nat)
    ensures Intended(r, i + 1) == Intended(r, i) + r.interval
    ensures Dispatch(r, i + 1) == Max(Intended(r, i + 1), Dispatch(r, i) + r.work(i))
  {
  }

  // ----- the producer swarm -----

  /** The swarm sleeps at most half a second and then emits without looking again. */
  const SLEEP_CAP := 500_000_000

  function SwarmReading(r: Run, i: nat): int
    decreases i, 0
  {
    if i == 0 then r.t0 + r.start else SwarmEmit(r, i - 1) + r.work(i - 1)
  }

  function SwarmEmit(r: Run, i: nat): int
    decreases i, 1
  {
    var now := SwarmReading(r, i);
    if now < Intended(r, i) then now + Min(Intended(r, i) - now, SLEEP_CAP) else now
  }

  /** With the cap the swarm keeps up with the faster of the two paces. */
  lemma {:induction false} SwarmPace(r: Run, i: nat)
    ensures SwarmEmit(r, i) >= r.t0 + i * Min(r.interval, SLEEP_CAP)
  {
    if i > 0 {
      SwarmPace(r, i - 1);
      var step := Min(r.interval, SLEEP_CAP);
      assert i * step == (i - 1) * step + step;
      IntendedIsOnGrid(r, i);
      Multiply(i, step, r.interval);
    }
  }

  /** The capped sleep is never longer than half a second, an early emit ends a full one, and no emit is
      later than the uncapped loop's; with an interval within the cap the two loops are the same. */
  lemma {:induction false} SwarmAgainstDispatch(r: Run, i: nat)
    ensures SwarmReading(r, i) <= SwarmEmit(r, i) <= SwarmReading(r, i) + 500_000_000
    ensures SwarmEmit(r, i) < Intended(r, i) ==> SwarmEmit(r, i) == SwarmReading(r, i) + 500_000_000
    ensures SwarmEmit(r, i) <= Dispatch(r, i)
    ensures r.interval <= 500_000_000 ==> SwarmEmit(r, i) == Dispatch(r, i)
  {
    if i > 0 {
      SwarmAgainstDispatch(r, i - 1);
      BetweenIntendedAndClosedLoop(r, i - 1);
    }
  }

  lemma Multiply(i: nat, a: int, b: int)
    requires a <= b
    ensures i * a <= i * b
  {
    assert i * (b - a) >= 0;
  }

  /** No tick of any run is emitted early exactly when the interval is within the cap. */
  lemma SwarmNeverEarlyIff(t0: int, interval: int, n: nat)
    requires n >= 2
    ensures (forall start: nat, work: nat -> nat, i: nat :: i < n ==>
               SwarmEmit(Run(t0, interval, start, work), i) >= Intended(Run(t0, interval, start, work), i))
       <==> interval <= SLEEP_CAP
  {
    if interval <= SLEEP_CAP {
      forall start: nat, work: nat -> nat, i: nat | i < n
        ensures SwarmEmit(Run(t0, interval, start, work), i) >= Intended(Run(t0, interval, start, work), i)
      {
        SwarmPace(Run(t0, interval, start, work), i);
        IntendedIsOnGrid(Run(t0, interval, start, work), i);
      }
    } else {
      var r := Run(t0, interval, 0, (i: nat) => 0);
      assert SwarmEmit(r, 0) == t0;
      assert SwarmEmit(r, 1) == t0 + SLEEP_CAP < Intended(r, 1);
    }
  }
}
