/** The producer swarm: paced producer threads that share four counters under one lock and watch one
    stop flag. An increment is a load and a store; the lock is what keeps it whole. */
module Swarm {

  datatype Counter = Emit | Error | Late | Attrition

  datatype Tally = Tally(emits: nat, errors: nat, lates: nat, deaths: nat)

  function Get(t: Tally, what: Counter): nat {
    match what case Emit => t.emits case Error => t.errors case Late => t.lates case Attrition => t.deaths
  }

  function Put(t: Tally, what: Counter, v: nat): Tally {
    match what
    case Emit => t.(emits := v) case Error => t.(errors := v) case Late => t.(lates := v) case Attrition => t.(deaths := v)
  }

  /** Where a producer thread is. The last four phases but one are `with lock: counter += 1`. */
  datatype Phase = Starting | Ready | Checked | Emitting
                 | Wanting(what: Counter) | Holding(what: Counter) | Loaded(what: Counter, v: nat) | Done

  /** `tick` ticks are behind it; `own` are the increments it has stored. */
  datatype Producer = Producer(phase: Phase, tick: nat, own: Tally)

  datatype Config = Config(producers: nat, perN: nat, base: int)

  datatype Lock = Free | HeldBy(i: nat)

  /** `sent` records which producer emitted for which tick, in order. */
  datatype State = State(stop: bool, lock: Lock, counters: Tally, ps: seq<Producer>, sent: seq<(nat, nat)>)

  datatype Step = Start(i: nat) | FailInit(i: nat) | Next(i: nat) | OnTime(i: nat) | BeLate(i: nat)
                | Die(i: nat) | Send(i: nat, ok: bool) | Acquire(i: nat) | Load(i: nat) | Store(i: nat) | SetStop

  const ZERO := Tally(0, 0, 0, 0)

  function Init(c: Config): State {
    State(false, Free, ZERO, seq(c.producers, i => Producer(Starting, 0, ZERO)), [])
  }

  predicate Enabled(c: Config, s: State, e: Step) {
    match e
    case SetStop => !s.stop
    case Start(i) => i < |s.ps| && s.ps[i].phase.Starting?
    case FailInit(i) => i < |s.ps| && s.ps[i].phase.Starting?
    case Next(i) => i < |s.ps| && s.ps[i].phase.Ready?
    case OnTime(i) => i < |s.ps| && s.ps[i].phase.Checked?
    case BeLate(i) => i < |s.ps| && s.ps[i].phase.Checked?
    case Die(i) => i < |s.ps| && (s.ps[i].phase.Checked? || s.ps[i].phase.Emitting?)
    case Send(i, ok) => i < |s.ps| && s.ps[i].phase.Emitting?
    case Acquire(i) => i < |s.ps| && s.ps[i].phase.Wanting? && s.lock == Free
    case Load(i) => i < |s.ps| && s.ps[i].phase.Holding?
    case Store(i) => i < |s.ps| && s.ps[i].phase.Loaded?
  }

  function To(s: State, i: nat, phase: Phase): State
    requires i < |s.ps|
  {
    s.(ps := s.ps[i := s.ps[i].(phase := phase)])
  }

  /** What a producer does after its increment of a counter. */
  function After(p: Producer, what: Counter): Producer {
    var own := Put(p.own, what, Get(p.own, what) + 1);
    match what
    case Emit => Producer(Ready, p.tick + 1, own)
    case Error => Producer(Ready, p.tick + 1, own)
    case Late => Producer(Emitting, p.tick, own)
    case Attrition => Producer(Done, p.tick, own)
  }

  function Apply(c: Config, s: State, e: Step): State
    requires Enabled(c, s, e)
  {
    match e
    case SetStop => s.(stop := true)
    case Start(i) => To(s, i, Ready)
    case FailInit(i) => To(s, i, Wanting(Attrition))
    case Next(i) => To(s, i, if s.ps[i].tick >= c.perN || s.stop then Done else Checked)
    case OnTime(i) => To(s, i, Emitting)
    case BeLate(i) => To(s, i, Wanting(Late))
    case Die(i) => To(s, i, Wanting(Attrition))
    case Send(i, ok) => To(s, i, Wanting(if ok then Emit else Error)).(sent := s.sent + [(i, s.ps[i].tick)])
    case Acquire(i) => To(s, i, Holding(s.ps[i].phase.what)).(lock := HeldBy(i))
    case Load(i) => To(s, i, Loaded(s.ps[i].phase.what, Get(s.counters, s.ps[i].phase.what)))
    case Store(i) =>
      var what, v := s.ps[i].phase.what, s.ps[i].phase.v;
      s.(lock := Free, counters := Put(s.counters, what, v + 1), ps := s.ps[i := After(s.ps[i], what)])
  }

  // ----- invariant -----

  function TotalOf(ps: seq<Producer>, what: Counter): nat {
    if ps == [] then 0 else Get(ps[0].own, what) + TotalOf(ps[1..], what)
  }

  lemma {:induction false} TotalUpdated(ps: seq<Producer>, i: nat, p: Producer, what: Counter)
    requires i < |ps|
    ensures TotalOf(ps[i := p], what) + Get(ps[i].own, what) == TotalOf(ps, what) + Get(p.own, what)
  {
    if i == 0 {
      assert ps[i := p][1..] == ps[1..];
    } else {
      assert ps[i := p][1..] == ps[1..][i - 1 := p];
      TotalUpdated(ps[1..], i - 1, p, what);
    }
  }

  predicate InLock(p: Phase) { p.Holding? || p.Loaded? }

  /** Between the late check and the increment that ends the tick. */
  predicate Committed(p: Phase) { p.Emitting? || ((p.Wanting? || InLock(p)) && p.what != Late) }

  /** Between the stop check and the emit. */
  predicate MaySend(p: Phase) { p.Checked? || p.Emitting? || ((p.Wanting? || InLock(p)) && p.what == Late) }

  /** Its emit has happened and is not yet counted. */
  predicate Uncounted(p: Phase) { (p.Wanting? || InLock(p)) && (p.what == Emit || p.what == Error) }

  /** Only the lock's holder is inside it, and what it has loaded is still what the counter holds. */
  predicate LockInv(s: State, i: nat)
    requires i < |s.ps|
  {
    var p := s.ps[i];
    && (s.lock == HeldBy(i) <==> InLock(p.phase))
    && (p.phase.Loaded? ==> p.phase.v == Get(s.counters, p.phase.what))
  }

  predicate TallyInv(c: Config, p: Producer) {
    && p.tick == p.own.emits + p.own.errors <= c.perN
    && (MaySend(p.phase) || Uncounted(p.phase) ==> p.tick < c.perN)
    && p.own.lates <= p.tick + p.own.deaths + (if Committed(p.phase) then 1 else 0)
    && p.own.deaths <= (if p.phase.Done? then 1 else 0)
  }

  predicate ProducerInv(c: Config, s: State, i: nat)
    requires i < |s.ps|
  {
    LockInv(s, i) && TallyInv(c, s.ps[i])
  }

  /** A recorded emit lies behind its producer. */
  predicate SentInv(s: State, k: nat)
    requires k < |s.sent|
  {
    var i := s.sent[k].0;
    i < |s.ps| && s.sent[k].1 < s.ps[i].tick + (if Uncounted(s.ps[i].phase) then 1 else 0)
  }

  ghost predicate Inv(c: Config, s: State) {
    && |s.ps| == c.producers
    && (s.lock.HeldBy? ==> s.lock.i < |s.ps|)
    && (forall i :: 0 <= i < |s.ps| ==> ProducerInv(c, s, i))
    && (forall what :: Get(s.counters, what) == TotalOf(s.ps, what))
    && (forall k :: 0 <= k < |s.sent| ==> SentInv(s, k))
    && (forall j, k :: 0 <= j < k < |s.sent| ==> s.sent[j] != s.sent[k])
  }

  lemma {:induction false} ZeroTotal(ps: seq<Producer>, what: Counter)
    requires forall i :: 0 <= i < |ps| ==> ps[i].own == ZERO
    ensures TotalOf(ps, what) == 0
  {
    if ps != [] {
      ZeroTotal(ps[1..], what);
    }
  }

  lemma InitSatisfiesInv(c: Config)
    ensures Inv(c, Init(c))
  {
    forall what ensures TotalOf(Init(c).ps, what) == 0 {
      ZeroTotal(Init(c).ps, what);
    }
    assert forall i :: 0 <= i < c.producers ==> ProducerInv(c, Init(c), i);
  }

  lemma TotalsPreserved(c: Config, s: State, e: Step, what: Counter)
    requires Inv(c, s) && Enabled(c, s, e)
    ensures Get(Apply(c, s, e).counters, what) == TotalOf(Apply(c, s, e).ps, what)
  {
    if e != SetStop {
      TotalUpdated(s.ps, e.i, Apply(c, s, e).ps[e.i], what);
      assert Get(s.counters, what) == TotalOf(s.ps, what);
      OwnAndShared(c, s, e, what) by { assert ProducerInv(c, s, e.i); }
    }
  }

  /** A step adds to a shared counter what it adds to its producer's own. */
  lemma OwnAndShared(c: Config, s: State, e: Step, what: Counter)
    requires Enabled(c, s, e) && e != SetStop && LockInv(s, e.i)
    ensures Get(Apply(c, s, e).counters, what) - Get(s.counters, what)
         == Get(Apply(c, s, e).ps[e.i].own, what) - Get(s.ps[e.i].own, what)
  {
  }

  lemma LockPreserved(c: Config, s: State, e: Step, j: nat)
    requires Inv(c, s) && Enabled(c, s, e) && j < |s.ps|
    ensures LockInv(Apply(c, s, e), j)
  {
    assert LockInv(s, j) by { assert ProducerInv(c, s, j); }
    if e != SetStop {
      assert LockInv(s, e.i) by { assert ProducerInv(c, s, e.i); }
    }
  }

  lemma TallyPreserved(c: Config, s: State, e: Step, j: nat)
    requires Enabled(c, s, e) && j < |s.ps| && TallyInv(c, s.ps[j])
    ensures TallyInv(c, Apply(c, s, e).ps[j])
  {
  }

  lemma ProducersPreserved(c: Config, s: State, e: Step, j: nat)
    requires Inv(c, s) && Enabled(c, s, e) && j < |s.ps|
    ensures j < |Apply(c, s, e).ps| && ProducerInv(c, Apply(c, s, e), j)
  {
    assert ProducerInv(c, s, j);
    LockPreserved(c, s, e, j);
    TallyPreserved(c, s, e, j);
  }

  lemma SentPreserved(c: Config, s: State, e: Step)
    requires Inv(c, s) && Enabled(c, s, e)
    ensures var t := Apply(c, s, e);
            && (forall k :: 0 <= k < |t.sent| ==> SentInv(t, k))
            && (forall j, k :: 0 <= j < k < |t.sent| ==> t.sent[j] != t.sent[k])
  {
    var t := Apply(c, s, e);
    forall k | 0 <= k < |t.sent| ensures SentInv(t, k) {
      if k < |s.sent| {
        assert SentInv(s, k);
      }
    }
    if e.Send? {
      forall j | 0 <= j < |s.sent| ensures s.sent[j] != (e.i, s.ps[e.i].tick) {
        assert SentInv(s, j);
      }
    }
  }

  lemma StepKeepsInv(c: Config, s: State, e: Step)
    requires Inv(c, s) && Enabled(c, s, e)
    ensures Inv(c, Apply(c, s, e))
  {
    var t := Apply(c, s, e);
    forall j | 0 <= j < |t.ps| ensures ProducerInv(c, t, j) {
      ProducersPreserved(c, s, e, j);
    }
    forall what ensures Get(t.counters, what) == TotalOf(t.ps, what) {
      TotalsPreserved(c, s, e, what);
    }
    SentPreserved(c, s, e);
  }

  // ----- runs -----

  predicate Run(c: Config, s: State, es: seq<Step>, t: State)
    decreases |es|
  {
    if es == [] then s == t else Enabled(c, s, es[0]) && Run(c, Apply(c, s, es[0]), es[1..], t)
  }

  lemma {:induction false} RunKeepsInv(c: Config, s: State, es: seq<Step>, t: State)
    requires Inv(c, s) && Run(c, s, es, t)
    ensures Inv(c, t)
    decreases |es|
  {
    if es != [] {
      StepKeepsInv(c, s, es[0]);
      RunKeepsInv(c, Apply(c, s, es[0]), es[1..], t);
    }
  }

  function Ticks(ps: seq<Producer>): nat {
    if ps == [] then 0 else ps[0].tick + Ticks(ps[1..])
  }

  lemma {:induction false} TicksAreCounted(ps: seq<Producer>)
    requires forall i :: 0 <= i < |ps| ==> ps[i].tick == ps[i].own.emits + ps[i].own.errors
    ensures Ticks(ps) == TotalOf(ps, Emit) + TotalOf(ps, Error)
  {
    if ps != [] {
      TicksAreCounted(ps[1..]);
    }
  }

  lemma {:induction false} LatesAreAnswered(ps: seq<Producer>)
    requires forall i :: 0 <= i < |ps| ==> ps[i].own.lates <= ps[i].tick + ps[i].own.deaths
    ensures TotalOf(ps, Late) <= Ticks(ps) + TotalOf(ps, Attrition)
  {
    if ps != [] {
      LatesAreAnswered(ps[1..]);
    }
  }

  predicate AllDone(s: State) { forall i :: 0 <= i < |s.ps| ==> s.ps[i].phase.Done? }

  /** In every interleaving no increment is lost: each shared counter is the sum of the threads' own,
      emits and errors together are the ticks completed, and when all threads are done every late tick
      was also emitted, failed or fatal. */
  lemma NoIncrementIsLost(c: Config, es: seq<Step>, s: State)
    requires Run(c, Init(c), es, s)
    ensures forall what :: Get(s.counters, what) == TotalOf(s.ps, what)
    ensures s.counters.emits + s.counters.errors == Ticks(s.ps)
    ensures AllDone(s) ==> s.counters.lates <= s.counters.emits + s.counters.errors + s.counters.deaths
  {
    InitSatisfiesInv(c);
    RunKeepsInv(c, Init(c), es, s);
    forall i | 0 <= i < |s.ps| ensures s.ps[i].tick == s.ps[i].own.emits + s.ps[i].own.errors {
      assert ProducerInv(c, s, i);
    }
    TicksAreCounted(s.ps);
    assert Get(s.counters, Emit) == TotalOf(s.ps, Emit) && Get(s.counters, Error) == TotalOf(s.ps, Error);
    if AllDone(s) {
      forall i | 0 <= i < |s.ps| ensures s.ps[i].own.lates <= s.ps[i].tick + s.ps[i].own.deaths {
        assert ProducerInv(c, s, i);
      }
      LatesAreAnswered(s.ps);
      assert Get(s.counters, Late) == TotalOf(s.ps, Late) && Get(s.counters, Attrition) == TotalOf(s.ps, Attrition);
    }
  }

  // ----- what the counters count -----

  /** The steps that the counter is there to count: a publish that came back, one that did not, a tick
      found late, a thread that gave up. */
  predicate CountsIn(e: Step, what: Counter) {
    match what
    case Emit => e.Send? && e.ok
    case Error => e.Send? && !e.ok
    case Late => e.BeLate?
    case Attrition => e.FailInit? || e.Die?
  }

  function HowMany(es: seq<Step>, p: Step -> bool): nat {
    if es == [] then 0 else (if p(es[0]) then 1 else 0) + HowMany(es[1..], p)
  }

  /** It wants or holds the lock for this counter and has not stored yet. */
  predicate Pending(p: Phase, what: Counter) { (p.Wanting? || InLock(p)) && p.what == what }

  function PendingOf(ps: seq<Producer>, what: Counter): nat {
    if ps == [] then 0 else (if Pending(ps[0].phase, what) then 1 else 0) + PendingOf(ps[1..], what)
  }

  lemma {:induction false} PendingUpdated(ps: seq<Producer>, i: nat, p: Producer, what: Counter)
    requires i < |ps|
    ensures PendingOf(ps[i := p], what) + (if Pending(ps[i].phase, what) then 1 else 0)
         == PendingOf(ps, what) + (if Pending(p.phase, what) then 1 else 0)
  {
    if i == 0 {
      assert ps[i := p][1..] == ps[1..];
    } else {
      assert ps[i := p][1..] == ps[1..][i - 1 := p];
      PendingUpdated(ps[1..], i - 1, p, what);
    }
  }

  lemma {:induction false} NonePending(ps: seq<Producer>, what: Counter)
    requires forall i :: 0 <= i < |ps| ==> !Pending(ps[i].phase, what)
    ensures PendingOf(ps, what) == 0
  {
    if ps != [] {
      NonePending(ps[1..], what);
    }
  }

  /** A step moves the counter, or puts its producer on the way to it, only if it is one of these. */
  lemma StepCounts(c: Config, s: State, e: Step, what: Counter)
    requires Enabled(c, s, e) && (e != SetStop ==> LockInv(s, e.i))
    ensures Get(Apply(c, s, e).counters, what) + PendingOf(Apply(c, s, e).ps, what)
         == Get(s.counters, what) + PendingOf(s.ps, what) + (if CountsIn(e, what) then 1 else 0)
  {
    if e != SetStop {
      PendingUpdated(s.ps, e.i, Apply(c, s, e).ps[e.i], what);
      OwnStepCounts(c, s, e, what);
    }
  }

  lemma OwnStepCounts(c: Config, s: State, e: Step, what: Counter)
    requires Enabled(c, s, e) && e != SetStop && LockInv(s, e.i)
    ensures Get(Apply(c, s, e).counters, what) + (if Pending(Apply(c, s, e).ps[e.i].phase, what) then 1 else 0)
         == Get(s.counters, what) + (if Pending(s.ps[e.i].phase, what) then 1 else 0) + (if CountsIn(e, what) then 1 else 0)
  {
  }

  lemma {:induction false} RunCounts(c: Config, s: State, es: seq<Step>, t: State, what: Counter, p: Step -> bool)
    requires Inv(c, s) && Run(c, s, es, t) && forall e :: p(e) <==> CountsIn(e, what)
    ensures Get(t.counters, what) + PendingOf(t.ps, what) == Get(s.counters, what) + PendingOf(s.ps, what) + HowMany(es, p)
    decreases |es|
  {
    if es != [] {
      if es[0] != SetStop {
        assert ProducerInv(c, s, es[0].i);
      }
      StepCounts(c, s, es[0], what);
      StepKeepsInv(c, s, es[0]);
      RunCounts(c, Apply(c, s, es[0]), es[1..], t, what, p);
    }
  }

  lemma CounterOf(c: Config, es: seq<Step>, s: State, what: Counter, p: Step -> bool)
    requires Run(c, Init(c), es, s) && forall e :: p(e) <==> CountsIn(e, what)
    ensures Get(s.counters, what) + PendingOf(s.ps, what) == HowMany(es, p)
  {
    InitSatisfiesInv(c);
    RunCounts(c, Init(c), es, s, what, p);
    NonePending(Init(c).ps, what);
  }

  /** In every interleaving each counter, with the increments still on their way to it, is the number of
      steps of its kind: publishes that came back, publishes that did not, ticks found late, threads that
      gave up. When all threads are done nothing is on its way. */
  lemma EveryStepIsCounted(c: Config, es: seq<Step>, s: State)
    requires Run(c, Init(c), es, s)
    ensures s.counters.emits + PendingOf(s.ps, Emit) == HowMany(es, (e: Step) => e.Send? && e.ok)
    ensures s.counters.errors + PendingOf(s.ps, Error) == HowMany(es, (e: Step) => e.Send? && !e.ok)
    ensures s.counters.lates + PendingOf(s.ps, Late) == HowMany(es, (e: Step) => e.BeLate?)
    ensures s.counters.deaths + PendingOf(s.ps, Attrition) == HowMany(es, (e: Step) => e.FailInit? || e.Die?)
    ensures AllDone(s) ==> forall what :: PendingOf(s.ps, what) == 0
  {
    CounterOf(c, es, s, Emit, (e: Step) => e.Send? && e.ok);
    CounterOf(c, es, s, Error, (e: Step) => e.Send? && !e.ok);
    CounterOf(c, es, s, Late, (e: Step) => e.BeLate?);
    CounterOf(c, es, s, Attrition, (e: Step) => e.FailInit? || e.Die?);
    if AllDone(s) {
      forall what ensures PendingOf(s.ps, what) == 0 {
        NonePending(s.ps, what);
      }
    }
  }

  function IterId(c: Config, at: (nat, nat)): int { c.base + at.0 * c.perN + at.1 }

  lemma IdsAreDistinct(perN: nat, i: nat, t: nat, j: nat, u: nat)
    requires t < perN && u < perN && i * perN + t == j * perN + u
    ensures i == j && t == u
  {
    if i < j {
      Apart(perN, i, j);
    } else if j < i {
      Apart(perN, j, i);
    }
  }

  lemma Apart(perN: nat, i: nat, j: nat)
    requires i < j
    ensures i * perN + perN <= j * perN
  {
    assert (j - i - 1) * perN >= 0;
    assert j * perN == i * perN + perN + (j - i - 1) * perN;
  }

  lemma SentInRange(c: Config, es: seq<Step>, s: State, k: nat)
    requires Run(c, Init(c), es, s) && k < |s.sent|
    ensures s.sent[k].0 < c.producers && s.sent[k].1 < c.perN
  {
    InitSatisfiesInv(c);
    RunKeepsInv(c, Init(c), es, s);
    assert SentInv(s, k);
    assert ProducerInv(c, s, s.sent[k].0);
  }

  /** The ids start at the base, and each producer draws from its own block of them. */
  lemma IdInBlock(c: Config, es: seq<Step>, s: State, k: nat)
    requires Run(c, Init(c), es, s) && k < |s.sent|
    ensures var i := s.sent[k].0;
            i < c.producers && c.base + i * c.perN <= IterId(c, s.sent[k]) < c.base + (i + 1) * c.perN
  {
    SentInRange(c, es, s, k);
    var i := s.sent[k].0;
    assert (i + 1) * c.perN == i * c.perN + c.perN;
  }

  /** No two emits of a run, by whichever producers, carry the same iteration id. */
  lemma EveryIdOnce(c: Config, es: seq<Step>, s: State, j: nat, k: nat)
    requires Run(c, Init(c), es, s) && j < k < |s.sent|
    ensures IterId(c, s.sent[j]) != IterId(c, s.sent[k])
  {
    InitSatisfiesInv(c);
    RunKeepsInv(c, Init(c), es, s);
    SentInRange(c, es, s, j);
    SentInRange(c, es, s, k);
    if IterId(c, s.sent[j]) == IterId(c, s.sent[k]) {
      IdsAreDistinct(c.perN, s.sent[j].0, s.sent[j].1, s.sent[k].0, s.sent[k].1);
    }
  }

  // ----- stopping -----

  function SentBy(sent: seq<(nat, nat)>, i: nat): nat {
    if sent == [] then 0 else SentBy(sent[..|sent| - 1], i) + (if sent[|sent| - 1].0 == i then 1 else 0)
  }

  lemma SentByOneMore(sent: seq<(nat, nat)>, x: (nat, nat), i: nat)
    ensures SentBy(sent + [x], i) == SentBy(sent, i) + (if x.0 == i then 1 else 0)
  {
    assert (sent + [x])[..|sent|] == sent;
  }

  function SendsLeft(s: State, i: nat): nat
    requires i < |s.ps|
  {
    if MaySend(s.ps[i].phase) then 1 else 0
  }

  /** Once the stop flag is set, each producer emits at most once more. */
  lemma {:induction false} AtMostOneMoreEmit(c: Config, s: State, es: seq<Step>, t: State, i: nat)
    requires s.stop && i < |s.ps| && Run(c, s, es, t)
    ensures t.stop && i < |t.ps| && SentBy(t.sent, i) + SendsLeft(t, i) <= SentBy(s.sent, i) + SendsLeft(s, i)
    decreases |es|
  {
    if es != [] {
      var u := Apply(c, s, es[0]);
      if es[0].Send? {
        SentByOneMore(s.sent, (es[0].i, s.ps[es[0].i].tick), i);
      }
      AtMostOneMoreEmit(c, u, es[1..], t, i);
    }
  }

  /** Until every thread is done some thread can go on: the lock's holder, or else anyone. */
  lemma NeverStuck(c: Config, s: State) returns (e: Step)
    requires Inv(c, s) && !AllDone(s)
    ensures e != SetStop && Enabled(c, s, e)
  {
    var i: nat :| i < |s.ps| && !s.ps[i].phase.Done?;
    if s.lock.HeldBy? {
      i := s.lock.i;
    }
    assert ProducerInv(c, s, i);
    e := match s.ps[i].phase
      case Starting => Start(i) case Ready => Next(i) case Checked => OnTime(i) case Emitting => Send(i, true)
      case Wanting(_) => Acquire(i) case Holding(_) => Load(i) case Loaded(_, _) => Store(i) case Done => SetStop;
  }

  /** The steps a producer can still take. */
  function Ahead(c: Config, p: Producer): nat
    requires p.tick <= c.perN
  {
    10 * (c.perN - p.tick) + match p.phase
      case Starting => 11 case Ready => 10 case Checked => 9
      case Wanting(Late) => 8 case Holding(Late) => 7 case Loaded(Late, _) => 6 case Emitting => 5
      case Wanting(_) => 4 case Holding(_) => 3 case Loaded(_, _) => 2 case Done => 0
  }

  function AheadOf(c: Config, ps: seq<Producer>): nat
    requires forall i :: 0 <= i < |ps| ==> ps[i].tick <= c.perN
  {
    if ps == [] then 0 else Ahead(c, ps[0]) + AheadOf(c, ps[1..])
  }

  lemma {:induction false} AheadUpdated(c: Config, ps: seq<Producer>, i: nat, p: Producer)
    requires i < |ps| && p.tick <= c.perN && forall i :: 0 <= i < |ps| ==> ps[i].tick <= c.perN
    ensures AheadOf(c, ps[i := p]) + Ahead(c, ps[i]) == AheadOf(c, ps) + Ahead(c, p)
  {
    if i == 0 {
      assert ps[i := p][1..] == ps[1..];
    } else {
      assert ps[i := p][1..] == ps[1..][i - 1 := p];
      AheadUpdated(c, ps[1..], i - 1, p);
    }
  }

  lemma TicksInRange(c: Config, s: State)
    requires Inv(c, s)
    ensures forall i :: 0 <= i < |s.ps| ==> s.ps[i].tick <= c.perN
  {
    forall i | 0 <= i < |s.ps| ensures s.ps[i].tick <= c.perN {
      assert ProducerInv(c, s, i);
    }
  }

  /** Every run ends, within a bound fixed at its start: the joins return. */
  lemma {:induction false} RunsAreBounded(c: Config, s: State, es: seq<Step>, t: State)
    requires Inv(c, s) && Run(c, s, es, t)
    ensures forall i :: 0 <= i < |s.ps| ==> s.ps[i].tick <= c.perN
    ensures |es| <= AheadOf(c, s.ps) + (if s.stop then 0 else 1)
    decreases |es|
  {
    TicksInRange(c, s);
    if es != [] {
      var u := Apply(c, s, es[0]);
      StepKeepsInv(c, s, es[0]);
      TicksInRange(c, u);
      RunsAreBounded(c, u, es[1..], t);
      if es[0] != SetStop {
        AheadUpdated(c, s.ps, es[0].i, u.ps[es[0].i]);
        AheadFalls(c, s, es[0]);
      }
    }
  }

  lemma AheadFalls(c: Config, s: State, e: Step)
    requires Inv(c, s) && Enabled(c, s, e) && e != SetStop
    ensures var u := Apply(c, s, e);
            u.ps[e.i].tick <= c.perN && s.ps[e.i].tick <= c.perN && Ahead(c, u.ps[e.i]) < Ahead(c, s.ps[e.i])
  {
    ProducersPreserved(c, s, e, e.i);
    assert ProducerInv(c, s, e.i);
  }
}
