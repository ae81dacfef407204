/** The concurrent drain of supervised children: one thread per child waits for that child's end of
    file, up to a shared deadline, then terminates it and waits a grace period more. The threads
    share only the clock and the result map. */
module Drain {
  import opened Numbers

  /** A child left alone ends at exit (beyond any horizon when it hangs); sent SIGTERM it ends
      at the latest obeys later. */
  datatype Child = Child(exit: int, obeys: nat)

  datatype Config = Config(children: seq<Child>, deadline: int, minimum: nat, grace: nat)

  datatype Harvest = Harvest(complete: bool, stamp: int)

  datatype Thread = Unstarted | Reading(start: int) | Terminated(start: int, at: int) | Done(start: int)

  datatype State = State(now: int, threads: seq<Thread>, drained: map<nat, Harvest>)

  datatype Step = Start(i: nat) | Eof(i: nat) | Expire(i: nat) | LateEof(i: nat) | GiveUp(i: nat) | Tick

  /** When a thread that starts at `start` stops waiting and terminates its child. */
  function Until(c: Config, start: int): int { start + Max(c.minimum, c.deadline - start) }

  /** When a child terminated at `at` ends. */
  function Ending(child: Child, at: int): int { Min(child.exit, at + child.obeys) }

  function Init(c: Config, t0: int): State {
    State(t0, seq(|c.children|, i => Unstarted), map[])
  }

  predicate IsThread(c: Config, s: State, i: nat) { i < |c.children| == |s.threads| }

  predicate EofReady(c: Config, s: State, i: nat) {
    IsThread(c, s, i) && s.threads[i].Reading? && s.now >= c.children[i].exit
  }

  predicate ExpireReady(c: Config, s: State, i: nat) {
    && IsThread(c, s, i) && s.threads[i].Reading?
    && s.now >= Until(c, s.threads[i].start) && c.children[i].exit >= s.now
  }

  predicate LateEofReady(c: Config, s: State, i: nat) {
    IsThread(c, s, i) && s.threads[i].Terminated? && s.now >= Ending(c.children[i], s.threads[i].at)
  }

  predicate GiveUpReady(c: Config, s: State, i: nat) {
    && IsThread(c, s, i) && s.threads[i].Terminated?
    && s.threads[i].at + c.grace <= s.now < Ending(c.children[i], s.threads[i].at)
  }

  /** A thread that can go on without the clock. */
  predicate Due(c: Config, s: State, i: nat) {
    EofReady(c, s, i) || ExpireReady(c, s, i) || LateEofReady(c, s, i) || GiveUpReady(c, s, i)
  }

  predicate AllDone(s: State) { forall i :: 0 <= i < |s.threads| ==> s.threads[i].Done? }

  /** Threads start in order at any time; otherwise the clock waits for every thread that is due. */
  predicate Enabled(c: Config, s: State, e: Step) {
    match e
    case Start(i) =>
      && IsThread(c, s, i) && s.threads[i].Unstarted?
      && forall j :: 0 <= j < i ==> !s.threads[j].Unstarted?
    case Eof(i) => EofReady(c, s, i)
    case Expire(i) => ExpireReady(c, s, i)
    case LateEof(i) => LateEofReady(c, s, i)
    case GiveUp(i) => GiveUpReady(c, s, i)
    case Tick => !AllDone(s) && forall i :: 0 <= i < |s.threads| ==> !Due(c, s, i)
  }

  /** The output is in hand only when communicate returned; a second timeout leaves it empty. */
  function Write(s: State, i: nat, complete: bool): State
    requires i < |s.threads| && !s.threads[i].Unstarted?
  {
    State(s.now, s.threads[i := Done(s.threads[i].start)], s.drained[i := Harvest(complete, s.now)])
  }

  function Apply(c: Config, s: State, e: Step): State
    requires Enabled(c, s, e)
  {
    match e
    case Start(i) => s.(threads := s.threads[i := Reading(s.now)])
    case Eof(i) => Write(s, i, true)
    case Expire(i) => s.(threads := s.threads[i := Terminated(s.threads[i].start, s.now)])
    case LateEof(i) => Write(s, i, true)
    case GiveUp(i) => Write(s, i, false)
    case Tick => s.(now := s.now + 1)
  }

  // ----- what one child's entry must be -----

  /** The entry as a function of the child, its own thread's start and the shared limits. */
  function Outcome(c: Config, child: Child, start: int): Harvest {
    var until := Until(c, start);
    if child.exit <= until then Harvest(true, Max(start, child.exit))
    else
      var ending := Ending(child, until);
      if ending <= until + c.grace then Harvest(true, ending) else Harvest(false, until + c.grace)
  }

  predicate ThreadInv(c: Config, s: State, i: nat)
    requires IsThread(c, s, i)
  {
    var child := c.children[i];
    && (i in s.drained <==> s.threads[i].Done?)
    && match s.threads[i] {
         case Unstarted => true
         case Reading(start) => start <= s.now <= Until(c, start) && s.now <= Max(start, child.exit)
         case Terminated(start, at) =>
           at == Until(c, start) && at <= child.exit && at <= s.now <= Min(Ending(child, at), at + c.grace)
         case Done(start) => s.drained[i] == Outcome(c, child, start) && start <= s.now
       }
  }

  predicate Inv(c: Config, s: State) {
    && |s.threads| == |c.children|
    && (forall i :: 0 <= i < |c.children| ==> ThreadInv(c, s, i))
    && (forall k :: k in s.drained ==> k < |c.children|)
  }

  lemma TickKeepsInv(c: Config, s: State)
    requires Inv(c, s) && Enabled(c, s, Tick)
    ensures Inv(c, Apply(c, s, Tick))
  {
    var t := Apply(c, s, Tick);
    forall i | 0 <= i < |c.children| ensures ThreadInv(c, t, i) {
      assert ThreadInv(c, s, i) && !Due(c, s, i);
    }
  }

  lemma StepKeepsInv(c: Config, s: State, e: Step)
    requires Inv(c, s) && Enabled(c, s, e)
    ensures Inv(c, Apply(c, s, e))
  {
    if e == Tick {
      TickKeepsInv(c, s);
    } else {
      var t := Apply(c, s, e);
      assert ThreadInv(c, s, e.i);
      assert ThreadInv(c, t, e.i);
      forall i | 0 <= i < |c.children| && i != e.i ensures ThreadInv(c, t, i) {
        assert ThreadInv(c, s, i);
      }
    }
  }

  // ----- runs -----

  predicate Run(c: Config, s: State, es: seq<Step>, t: State)
    decreases |es|
  {
    if es == [] then s == t else Enabled(c, s, es[0]) && Run(c, Apply(c, s, es[0]), es[1..], t)
  }

  lemma {:induction false} RunKeepsInv(c: Config, s: State, es: seq<Step>, t: State)
    requires Inv(c, s) && Run(c, s, es, t)
    ensures Inv(c, t)
    decreases |es|
  {
    if es != [] {
      StepKeepsInv(c, s, es[0]);
      RunKeepsInv(c, Apply(c, s, es[0]), es[1..], t);
    }
  }

  lemma InitSatisfiesInv(c: Config, t0: int)
    ensures Inv(c, Init(c, t0))
  {
    var s := Init(c, t0);
    forall i | 0 <= i < |c.children| ensures ThreadInv(c, s, i) {
      assert s.threads[i] == Unstarted;
    }
  }

  /** In every interleaving the drain returns one entry per child, and the entry is what that child
      and its own thread's start determine: no sibling has a part in it. */
  lemma OneEntryEach(c: Config, t0: int, es: seq<Step>, t: State)
    requires Run(c, Init(c, t0), es, t) && AllDone(t)
    ensures forall i :: i in t.drained <==> 0 <= i < |c.children|
    ensures |t.threads| == |c.children|
    ensures forall i :: 0 <= i < |c.children| ==> t.drained[i] == Outcome(c, c.children[i], t.threads[i].start)
  {
    InitSatisfiesInv(c, t0);
    RunKeepsInv(c, Init(c, t0), es, t);
    forall i | 0 <= i < |c.children| ensures i in t.drained && t.drained[i] == Outcome(c, c.children[i], t.threads[i].start) {
      assert ThreadInv(c, t, i);
    }
  }

  /** An entry once written is never written again. */
  lemma {:induction false} WrittenOnce(c: Config, s: State, es: seq<Step>, t: State, i: nat)
    requires Inv(c, s) && Run(c, s, es, t) && i in s.drained
    ensures i in t.drained && t.drained[i] == s.drained[i]
    ensures forall k :: 0 <= k < |es| && es[k] != Tick ==> es[k].i != i
    decreases |es|
  {
    if es != [] {
      assert ThreadInv(c, s, i);
      var u := Apply(c, s, es[0]);
      StepKeepsInv(c, s, es[0]);
      WrittenOnce(c, u, es[1..], t, i);
      forall k | 0 <= k < |es| && es[k] != Tick ensures es[k].i != i {
        if k > 0 {
          assert es[k] == es[1..][k - 1];
        }
      }
    }
  }

  // ----- progress -----

  /** While an entry is missing, a thread that is due can go on, or else the next one can be started;
      only when all are started and each waits for its child does the clock have to move. */
  lemma NeverStuck(c: Config, s: State) returns (e: Step)
    requires Inv(c, s) && !AllDone(s)
    ensures Enabled(c, s, e)
    ensures e == Tick ==> forall i :: 0 <= i < |s.threads| ==> !s.threads[i].Unstarted? && !Due(c, s, i)
  {
    if i :| 0 <= i < |s.threads| && Due(c, s, i) {
      e := if EofReady(c, s, i) then Eof(i) else if ExpireReady(c, s, i) then Expire(i)
           else if LateEofReady(c, s, i) then LateEof(i) else GiveUp(i);
    } else if j :| 0 <= j < |s.threads| && s.threads[j].Unstarted? {
      e := Start(FirstUnstarted(s.threads, j));
    } else {
      e := Tick;
    }
  }

  function FirstUnstarted(ts: seq<Thread>, j: nat): (i: nat)
    requires j < |ts| && ts[j].Unstarted?
    ensures i < |ts| && ts[i].Unstarted? && forall k :: 0 <= k < i ==> !ts[k].Unstarted?
  {
    if ts[0].Unstarted? then 0 else 1 + FirstUnstarted(ts[1..], j - 1)
  }

  /** The steps a thread has still to take. */
  function Ahead(t: Thread): nat {
    match t case Unstarted => 3 case Reading(_) => 2 case Terminated(_, _) => 1 case Done(_) => 0
  }

  function AheadOf(ts: seq<Thread>): nat {
    if ts == [] then 0 else Ahead(ts[0]) + AheadOf(ts[1..])
  }

  lemma {:induction false} AheadFalls(ts: seq<Thread>, i: nat, u: Thread)
    requires i < |ts|
    ensures AheadOf(ts[i := u]) == AheadOf(ts) - Ahead(ts[i]) + Ahead(u)
  {
    if i == 0 {
      assert ts[i := u][1..] == ts[1..];
    } else {
      assert ts[i := u][1..] == ts[1..][i - 1 := u];
      AheadFalls(ts[1..], i - 1, u);
    }
  }

  predicate StartedBy(s: State, last: int) {
    forall i :: 0 <= i < |s.threads| ==> !s.threads[i].Unstarted? && s.threads[i].start <= last
  }

  /** One deadline, or the minimum wait past the last start, plus one grace period. */
  function Horizon(c: Config, last: int): int { Max(last + c.minimum, c.deadline) + c.grace }

  lemma WithinHorizon(c: Config, s: State, last: int)
    requires Inv(c, s) && StartedBy(s, last)
    ensures !AllDone(s) ==> s.now <= Horizon(c, last)
    ensures forall i :: i in s.drained ==> s.drained[i].stamp <= Horizon(c, last)
  {
    forall i | i in s.drained ensures s.drained[i].stamp <= Horizon(c, last) {
      assert ThreadInv(c, s, i);
    }
    if i :| 0 <= i < |s.threads| && !s.threads[i].Done? {
      assert ThreadInv(c, s, i);
    }
  }

  /** Once every thread has started, every run is over after boundedly many steps, so the joins
      return. */
  lemma {:induction false} RunsAreBounded(c: Config, s: State, es: seq<Step>, t: State, last: int)
    requires Inv(c, s) && StartedBy(s, last) && Run(c, s, es, t)
    ensures |es| <= AheadOf(s.threads) + Max(0, Horizon(c, last) + 1 - s.now)
    decreases |es|
  {
    if es != [] {
      var e, u := es[0], Apply(c, s, es[0]);
      StepKeepsInv(c, s, e);
      if e == Tick {
        WithinHorizon(c, s, last);
      } else {
        AheadFalls(s.threads, e.i, u.threads[e.i]);
      }
      RunsAreBounded(c, u, es[1..], t, last);
    }
  }

  // ----- against a serial drain -----

  /** Starting later never makes a stamp earlier. */
  lemma LaterStartLaterStamp(c: Config, child: Child, early: int, late: int)
    requires early <= late
    ensures Outcome(c, child, early).stamp <= Outcome(c, child, late).stamp
    ensures early <= Outcome(c, child, early).stamp <= Horizon(c, early)
  {
  }

  /** When the k-th child's turn comes in a loop with one wait per child, after k turns. */
  function SerialStart(c: Config, t0: int, k: nat): int
    requires k <= |c.children|
  {
    if k == 0 then t0 else Outcome(c, c.children[k - 1], SerialStart(c, t0, k - 1)).stamp
  }

  lemma {:induction false} SerialStartsClimb(c: Config, t0: int, j: nat, k: nat)
    requires j <= k <= |c.children|
    ensures SerialStart(c, t0, j) <= SerialStart(c, t0, k)
  {
    if j < k {
      SerialStartsClimb(c, t0, j, k - 1);
      LaterStartLaterStamp(c, c.children[k - 1], SerialStart(c, t0, k - 1), SerialStart(c, t0, k - 1));
    }
  }

  /** A stamp in closed form: the child's own end, cut off at the wait's end plus whichever of grace and
      obedience is shorter, but not before the thread's start. */
  lemma StampClosedForm(c: Config, child: Child, start: int)
    ensures Outcome(c, child, start).stamp
         == Max(start, Min(child.exit, Max(start + c.minimum, c.deadline) + Min(child.obeys, c.grace)))
  {
  }

  /** In every finished run, a child's stamp is no later than the serial loop's exactly when its thread
      started by then and either the child ended by then on its own or its thread's wait, with grace or
      obedience, was over by then; in particular whenever its thread started no later than the loop
      would have reached the child. */
  lemma NoLaterThanSerialIff(c: Config, t0: int, es: seq<Step>, t: State, i: nat)
    requires Run(c, Init(c, t0), es, t) && AllDone(t) && i < |c.children|
    ensures |t.threads| == |c.children| && i in t.drained
    ensures var child, start, reached := c.children[i], t.threads[i].start, SerialStart(c, t0, i);
            var serial := Outcome(c, child, reached).stamp;
            && (t.drained[i].stamp <= serial <==>
                  && start <= serial
                  && (child.exit <= serial || Max(start + c.minimum, c.deadline) + Min(child.obeys, c.grace) <= serial))
            && (start <= reached ==> t.drained[i].stamp <= serial)
  {
    OneEntryEach(c, t0, es, t);
    StampClosedForm(c, c.children[i], t.threads[i].start);
    if t.threads[i].start <= SerialStart(c, t0, i) {
      LaterStartLaterStamp(c, c.children[i], t.threads[i].start, SerialStart(c, t0, i));
    }
  }

  /** A child that ends on its own within the wait is stamped at its end exactly; the serial loop
      stamps it there only when every earlier child is stamped by then. */
  lemma SerialArtefactIff(c: Config, t0: int, k: nat, start: int)
    requires k < |c.children| && start <= c.children[k].exit <= Until(c, start)
    requires t0 <= start <= SerialStart(c, t0, k)
    ensures Outcome(c, c.children[k], start) == Harvest(true, c.children[k].exit)
    ensures Outcome(c, c.children[k], SerialStart(c, t0, k)).stamp == c.children[k].exit
       <==> forall j :: 0 <= j < k ==> Outcome(c, c.children[j], SerialStart(c, t0, j)).stamp <= c.children[k].exit
  {
    forall j | 0 <= j < k ensures Outcome(c, c.children[j], SerialStart(c, t0, j)).stamp <= SerialStart(c, t0, k) {
      assert SerialStart(c, t0, j + 1) == Outcome(c, c.children[j], SerialStart(c, t0, j)).stamp;
      SerialStartsClimb(c, t0, j + 1, k);
    }
    if k > 0 {
      assert SerialStart(c, t0, k) == Outcome(c, c.children[k - 1], SerialStart(c, t0, k - 1)).stamp;
    }
  }

  /** In every finished run a child's output is lost exactly when the child neither ended within grace
      of its thread's wait nor obeyed its SIGTERM within grace. */
  lemma OutputLostIff(c: Config, t0: int, es: seq<Step>, t: State, i: nat)
    requires Run(c, Init(c, t0), es, t) && AllDone(t) && i < |c.children|
    ensures |t.threads| == |c.children| && i in t.drained
    ensures !t.drained[i].complete <==>
            && c.children[i].exit > Max(t.threads[i].start + c.minimum, c.deadline) + c.grace
            && c.children[i].obeys > c.grace
  {
    OneEntryEach(c, t0, es, t);
  }
}
