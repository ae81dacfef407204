/** The raw-IPC arm as interleaved steps: producer, bounded socket, peer, bounded stdout pipe and
    the collector thread with its private `BufferedReader` buffer. `select` sees the pipe only. */
module Pipeline {
  import opened Headers
  import opened Framing
  import opened Text

  const DONE := "DONE"
  const RECV_MAX := 65536

  /** What stays fixed during a run. `lines[i]` is what the child prints for frame i and `last`
      what it prints on the way out. A child that `exits` prints `last` and closes its stdout once
      its input ends; one that does not waits forever. With `late`, the collector is only started
      after the producer has finished. */
  datatype Config = Config(payloads: seq<seq<Byte>>, lines: seq<string>, last: string, expected: nat,
                           socket: nat, pipe: nat, buffer: nat, exits: bool, late: bool)

  datatype Phase = Serving | Closing | Gone
  datatype Mode = Selecting | Reading | Stopped | GaveUp

  /** Byte counts along the pipeline, plus the collector's mode and the lines it has kept. */
  datatype State = State(sent: nat, eof: bool, recvd: nat, phase: Phase, written: nat,
                         filled: nat, taken: nat, mode: Mode, kept: seq<string>)

  predicate Clean(line: string) { line != "" && '\n' !in line && StripRight(line + "\n") == line }

  predicate ValidConfig(c: Config) {
    && AllAcceptable(c.payloads) && |c.payloads| == |c.lines| <= c.expected
    && (forall i :: 0 <= i < |c.lines| ==> Clean(c.lines[i]) && !(DONE <= c.lines[i]))
    && Clean(c.last) && DONE <= c.last
    && c.socket >= 1 && c.pipe >= 1 && c.buffer >= 1
  }

  // ----- the text on the pipe -----

  function Printed(lines: seq<string>): string {
    if lines == [] then "" else lines[0] + "\n" + Printed(lines[1..])
  }

  function AllLines(c: Config): seq<string> { c.lines + (if c.exits then [c.last] else []) }

  /** Everything a complete run puts on the pipe. */
  function Output(c: Config): string { Printed(AllLines(c)) }

  /** Where line j starts. */
  function Pos(c: Config, j: nat): nat
    requires j <= |AllLines(c)|
  {
    |Printed(AllLines(c)[..j])|
  }

  lemma {:induction false} PrintedAppend(a: seq<string>, b: seq<string>)
    ensures Printed(a + b) == Printed(a) + Printed(b)
  {
    if a == [] {
      assert a + b == b;
    } else {
      assert (a + b)[1..] == a[1..] + b;
      PrintedAppend(a[1..], b);
    }
  }

  lemma OutputSplits(c: Config, j: nat)
    requires j <= |AllLines(c)|
    ensures Pos(c, j) <= |Output(c)| && Output(c)[Pos(c, j)..] == Printed(AllLines(c)[j..])
    ensures j < |AllLines(c)| ==> Pos(c, j + 1) == Pos(c, j) + |AllLines(c)[j]| + 1 <= |Output(c)|
    ensures j == |AllLines(c)| ==> Pos(c, j) == |Output(c)|
  {
    var all := AllLines(c);
    assert all == all[..j] + all[j..];
    PrintedAppend(all[..j], all[j..]);
    if j < |all| {
      assert all[..j + 1] == all[..j] + [all[j]];
      PrintedAppend(all[..j], [all[j]]);
      assert Printed([all[j]]) == all[j] + "\n" + Printed([all[j]][1..]);
      assert all == all[..j + 1] + all[j + 1..];
      PrintedAppend(all[..j + 1], all[j + 1..]);
    } else {
      assert all[..j] == all;
    }
  }

  lemma {:induction false} PosMonotone(c: Config, i: nat, j: nat)
    requires i <= j <= |AllLines(c)|
    ensures Pos(c, i) <= Pos(c, j)
    ensures i < j ==> Pos(c, i) < Pos(c, j)
    decreases j - i
  {
    if i < j {
      OutputSplits(c, i);
      PosMonotone(c, i + 1, j);
    }
  }

  /** Inside line j the text is that line; the newline comes right after it. */
  lemma LineAt(c: Config, j: nat)
    requires ValidConfig(c) && j < |AllLines(c)|
    ensures var p, line := Pos(c, j), AllLines(c)[j];
            && p + |line| < |Output(c)|
            && Output(c)[p..p + |line|] == line && Output(c)[p + |line|] == '\n' && Clean(line)
  {
    OutputSplits(c, j);
    var p, all := Pos(c, j), AllLines(c);
    assert Printed(all[j..]) == all[j] + "\n" + Printed(all[j..][1..]);
    assert Output(c)[p..][..|all[j]|] == all[j];
    assert Output(c)[p..][|all[j]|] == '\n';
  }

  // ----- how many frames the child has completed -----

  function Wire(c: Config): seq<Byte>
    requires ValidConfig(c)
  {
    EncodeAll(c.payloads)
  }

  function Count(c: Config, k: nat): nat
    requires ValidConfig(c) && k <= |Wire(c)|
  {
    |Parse(Wire(c)[..k]).frames|
  }

  lemma CountMonotone(c: Config, i: nat, k: nat)
    requires ValidConfig(c) && i <= k <= |Wire(c)|
    ensures Count(c, i) <= Count(c, k) <= |c.lines|
  {
    ParseEncoded(c.payloads, []);
    assert Wire(c) + [] == Wire(c);
    assert Wire(c)[..i] + Wire(c)[i..k] == Wire(c)[..k];
    assert Wire(c)[..k] + Wire(c)[k..] == Wire(c);
    ParseResumes(Wire(c)[..i], Wire(c)[i..k]);
    ParseResumes(Wire(c)[..k], Wire(c)[k..]);
  }

  /** All frames are complete exactly when every byte is in. */
  lemma CountFull(c: Config, k: nat)
    requires ValidConfig(c) && k <= |Wire(c)|
    ensures Count(c, k) == |c.lines| <==> k == |Wire(c)|
    ensures Count(c, k) >= c.expected ==> k == |Wire(c)|
  {
    ParseEncoded(c.payloads, []);
    assert Wire(c) + [] == Wire(c) && Wire(c)[..|Wire(c)|] == Wire(c);
    assert Wire(c)[..k] + Wire(c)[k..] == Wire(c);
    ParseResumes(Wire(c)[..k], Wire(c)[k..]);
    ParseAccountsForEveryByte(Wire(c)[..k]);
    CountMonotone(c, k, k);
    if Count(c, k) == |c.lines| {
      assert Parse(Wire(c)[..k]).frames == c.payloads;
    }
  }

  // ----- steps -----

  function Init(): State { State(0, false, 0, Serving, 0, 0, 0, Selecting, []) }

  predicate InRange(c: Config, s: State)
    requires ValidConfig(c)
  {
    && s.recvd <= s.sent <= |Wire(c)|
    && s.taken <= s.filled <= s.written <= |Output(c)|
    && (s.phase != Serving ==> c.exits)
  }

  /** Everything the child has printed, the part still blocked in `write` included. */
  function Queued(c: Config, s: State): nat
    requires ValidConfig(c) && InRange(c, s)
  {
    CountMonotone(c, s.recvd, s.recvd);
    if s.phase == Serving then Pos(c, Count(c, s.recvd)) else |Output(c)|
  }

  function Buffered(c: Config, s: State): string
    requires ValidConfig(c) && InRange(c, s)
  {
    Output(c)[s.taken..s.filled]
  }

  datatype Step = Send(n: nat) | SendEof | Recv(n: nat) | Finish | Write(n: nat) | Exit
                | Select | Fill(n: nat) | Take | SeeEof | GiveUp

  predicate Enabled(c: Config, s: State, step: Step)
    requires ValidConfig(c) && InRange(c, s)
  {
    match step
    case Send(n) => n >= 1 && s.sent + n <= |Wire(c)| && s.sent + n - s.recvd <= c.socket
    case SendEof => s.sent == |Wire(c)| && !s.eof
    case Recv(n) => s.phase == Serving && s.written == Queued(c, s) && Count(c, s.recvd) < c.expected
                    && 1 <= n <= RECV_MAX && s.recvd + n <= s.sent
    case Finish => c.exits && s.phase == Serving && s.written == Queued(c, s)
                   && (Count(c, s.recvd) >= c.expected || (s.eof && s.recvd == s.sent))
    case Write(n) => n >= 1 && s.written + n <= Queued(c, s) && s.written + n - s.filled <= c.pipe
    case Exit => s.phase == Closing && s.written == Queued(c, s)
    case Select => s.mode == Selecting && (c.late ==> s.eof) && (s.filled < s.written || s.phase == Gone)
    case Fill(n) => s.mode == Reading && '\n' !in Buffered(c, s) && 1 <= n <= c.buffer && s.filled + n <= s.written
    case Take => s.mode == Reading && '\n' in Buffered(c, s)
    case SeeEof => s.mode == Reading && '\n' !in Buffered(c, s) && s.filled == s.written && s.phase == Gone
    case GiveUp => s.mode == Selecting
  }

  /** `readline` returned `text` (with its newline, if any) and consumed that much. */
  function Consume(s: State, text: string): State {
    var line := StripRight(text);
    var s' := s.(taken := s.taken + |text|);
    if text == "" || DONE <= line then s'.(mode := Stopped)
    else s'.(mode := Selecting, kept := s.kept + [line])
  }

  function Apply(c: Config, s: State, step: Step): State
    requires ValidConfig(c) && InRange(c, s) && Enabled(c, s, step)
  {
    match step
    case Send(n) => s.(sent := s.sent + n)
    case SendEof => s.(eof := true)
    case Recv(n) => s.(recvd := s.recvd + n)
    case Finish => s.(phase := Closing)
    case Write(n) => s.(written := s.written + n)
    case Exit => s.(phase := Gone)
    case Select => s.(mode := Reading)
    case Fill(n) => s.(filled := s.filled + n)
    case Take => Consume(s, Buffered(c, s)[..IndexOf(Buffered(c, s), '\n') + 1])
    case SeeEof => Consume(s, Buffered(c, s))
    case GiveUp => s.(mode := GaveUp)
  }

  // ----- safety -----

  /** The byte counts respect the capacities and the order of the stages. */
  predicate Flow(c: Config, s: State)
    requires ValidConfig(c)
  {
    && InRange(c, s)
    && s.sent - s.recvd <= c.socket && (s.eof ==> s.sent == |Wire(c)|)
    && s.written <= Queued(c, s) && s.written - s.filled <= c.pipe
    && (s.phase != Serving ==> s.recvd == |Wire(c)|)
    && (s.phase == Gone ==> s.written == |Output(c)|)
    && (c.late && !s.eof ==> s.filled == 0)
  }

  /** The kept lines are the first lines, and the collector stands at the start of the next. */
  predicate Kept(c: Config, s: State) {
    && |s.kept| <= |c.lines| && s.kept == c.lines[..|s.kept|]
    && Pos(c, |s.kept|) <= s.taken
    && (s.mode != Stopped ==> s.taken == Pos(c, |s.kept|))
    && (s.mode == Stopped ==> s.kept == c.lines)
    && (c.late && !s.eof ==> s.mode == Selecting || s.mode == GaveUp)
  }

  ghost predicate Inv(c: Config, s: State)
    requires ValidConfig(c)
  {
    Flow(c, s) && Kept(c, s)
  }

  lemma InitSatisfiesInv(c: Config)
    requires ValidConfig(c)
    ensures Inv(c, Init())
  {
    CountMonotone(c, 0, 0);
    assert Wire(c)[..0] == [];
    assert AllLines(c)[..0] == [];
  }

  /** The newline `readline` finds ends exactly the next line of the output. */
  lemma NextLine(c: Config, s: State)
    requires ValidConfig(c) && Inv(c, s) && s.mode == Reading && '\n' in Buffered(c, s)
    ensures var j := |s.kept|;
            && j < |AllLines(c)|
            && IndexOf(Buffered(c, s), '\n') == |AllLines(c)[j]|
            && Buffered(c, s)[..|AllLines(c)[j]| + 1] == AllLines(c)[j] + "\n"
  {
    var j := |s.kept|;
    if j == |AllLines(c)| {
      OutputSplits(c, j);
    } else {
      LineAt(c, j);
      FirstNewline(Output(c), s.taken, s.filled, AllLines(c)[j]);
    }
  }

  lemma FirstNewline(out: string, low: nat, high: nat, line: string)
    requires low + |line| < |out| && low <= high <= |out| && '\n' !in line
    requires out[low..low + |line|] == line && out[low + |line|] == '\n' && '\n' in out[low..high]
    ensures IndexOf(out[low..high], '\n') == |line| < high - low
    ensures out[low..high][..|line| + 1] == line + "\n"
  {
    var b := out[low..high];
    assert forall k :: 0 <= k < |line| && k < |b| ==> b[k] == out[low..low + |line|][k] == line[k];
    assert IndexOf(b, '\n') >= |line|;
    assert b[|line|] == '\n';
  }

  /** A line that starts with DONE stops the collector; any other is kept. */
  function AfterLine(s: State, line: string): State {
    if DONE <= line then s.(taken := s.taken + |line| + 1, mode := Stopped)
    else s.(taken := s.taken + |line| + 1, mode := Selecting, kept := s.kept + [line])
  }

  lemma ConsumeLine(s: State, line: string)
    requires Clean(line)
    ensures Consume(s, line + "\n") == AfterLine(s, line)
  {
  }

  /** The whole next line, its newline included, is passed to the collector's test. */
  lemma TakeReadsALine(c: Config, s: State)
    requires ValidConfig(c) && Inv(c, s) && Enabled(c, s, Take)
    ensures |s.kept| < |AllLines(c)| && s.taken + |AllLines(c)[|s.kept|]| + 1 <= s.filled
    ensures Apply(c, s, Take) == Consume(s, AllLines(c)[|s.kept|] + "\n")
  {
    NextLine(c, s);
  }

  lemma TakeConsumesALine(c: Config, s: State)
    requires ValidConfig(c) && Inv(c, s) && Enabled(c, s, Take)
    ensures |s.kept| < |AllLines(c)| && Clean(AllLines(c)[|s.kept|])
    ensures var line := AllLines(c)[|s.kept|];
            && s.taken + |line| + 1 <= s.filled
            && Apply(c, s, Take) == AfterLine(s, line)
  {
    TakeReadsALine(c, s);
    LineAt(c, |s.kept|);
    ConsumeLine(s, AllLines(c)[|s.kept|]);
  }

  /** A taken line is kept, except for the last one, which stops the collector. */
  lemma TakeKeepsInv(c: Config, s: State)
    requires ValidConfig(c) && Inv(c, s) && Enabled(c, s, Take)
    ensures Inv(c, Apply(c, s, Take))
    ensures Apply(c, s, Take).taken > s.taken
  {
    TakeConsumesALine(c, s);
    AfterLineKeepsInv(c, s, AllLines(c)[|s.kept|]);
  }

  lemma AfterLineKeepsInv(c: Config, s: State, line: string)
    requires ValidConfig(c) && Inv(c, s) && s.mode == Reading && s.taken + |line| + 1 <= s.filled
    requires |s.kept| < |AllLines(c)| && line == AllLines(c)[|s.kept|]
    ensures Inv(c, AfterLine(s, line))
  {
    OutputSplits(c, |s.kept|);
    TakenLine(c, s, AfterLine(s, line), line);
    FlowIgnoresCollector(c, s, AfterLine(s, line));
  }

  lemma FlowIgnoresCollector(c: Config, s: State, s': State)
    requires ValidConfig(c) && Flow(c, s) && s' == s.(taken := s'.taken, mode := s'.mode, kept := s'.kept)
    requires s'.taken <= s.filled
    ensures Flow(c, s')
  {
  }

  lemma TakenLine(c: Config, s: State, s': State, line: string)
    requires ValidConfig(c) && Kept(c, s) && s.mode == Reading
    requires |s.kept| < |AllLines(c)| && line == AllLines(c)[|s.kept|]
    requires Pos(c, |s.kept| + 1) == Pos(c, |s.kept|) + |line| + 1
    requires s' == AfterLine(s, line)
    ensures Kept(c, s')
  {
    var j := |s.kept|;
    if j < |c.lines| {
      assert c.lines[..j + 1] == c.lines[..j] + [c.lines[j]];
    } else {
      assert c.lines[..j] == c.lines;
    }
  }

  /** A child that has gone has printed its last line, so end of file is never reached with the
      collector still waiting for it. */
  lemma EofComesAfterDone(c: Config, s: State)
    requires ValidConfig(c) && Inv(c, s) && s.mode == Reading && s.phase == Gone && s.filled == s.written
    ensures '\n' in Buffered(c, s)
  {
    var j := |s.kept|;
    LineAt(c, j);
    assert Buffered(c, s)[|AllLines(c)[j]|] == '\n';
  }

  lemma RecvKeepsFlow(c: Config, s: State, n: nat)
    requires ValidConfig(c) && Inv(c, s) && Enabled(c, s, Recv(n))
    ensures Flow(c, Apply(c, s, Recv(n)))
  {
    CountMonotone(c, s.recvd, s.recvd + n);
    PosMonotone(c, Count(c, s.recvd), Count(c, s.recvd + n));
  }

  lemma FinishKeepsFlow(c: Config, s: State)
    requires ValidConfig(c) && Inv(c, s) && Enabled(c, s, Finish)
    ensures Flow(c, Apply(c, s, Finish))
  {
    CountFull(c, s.recvd);
    OutputSplits(c, Count(c, s.recvd));
  }

  lemma WriteKeepsFlow(c: Config, s: State, n: nat)
    requires ValidConfig(c) && Inv(c, s) && Enabled(c, s, Write(n))
    ensures Flow(c, Apply(c, s, Write(n)))
  {
    CountMonotone(c, s.recvd, s.recvd);
    OutputSplits(c, Count(c, s.recvd));
  }

  lemma FlowPreserved(c: Config, s: State, step: Step)
    requires ValidConfig(c) && Inv(c, s) && Enabled(c, s, step) && !step.Take? && !step.SeeEof?
    ensures Flow(c, Apply(c, s, step))
  {
    match step
    case Recv(n) => RecvKeepsFlow(c, s, n);
    case Finish => FinishKeepsFlow(c, s);
    case Write(n) => WriteKeepsFlow(c, s, n);
    case _ =>
  }

  lemma InvPreserved(c: Config, s: State, step: Step)
    requires ValidConfig(c) && Inv(c, s) && Enabled(c, s, step)
    ensures Inv(c, Apply(c, s, step))
  {
    if step.Take? {
      TakeKeepsInv(c, s);
    } else if step.SeeEof? {
      EofComesAfterDone(c, s);
    } else {
      FlowPreserved(c, s, step);
    }
  }

  // ----- runs -----

  ghost predicate Leads(c: Config, s: State, path: seq<Step>, t: State)
    requires ValidConfig(c)
    decreases |path|
  {
    if path == [] then s == t
    else InRange(c, s) && Enabled(c, s, path[0]) && Leads(c, Apply(c, s, path[0]), path[1..], t)
  }

  ghost predicate Reachable(c: Config, s: State)
    requires ValidConfig(c)
  {
    exists path :: Leads(c, Init(), path, s)
  }

  lemma {:induction false} LeadsFurther(c: Config, s: State, path: seq<Step>, t: State, step: Step)
    requires ValidConfig(c) && Leads(c, s, path, t) && InRange(c, t) && Enabled(c, t, step)
    ensures Leads(c, s, path + [step], Apply(c, t, step))
    decreases |path|
  {
    if path == [] {
      assert [step][1..] == [];
    } else {
      assert (path + [step])[1..] == path[1..] + [step];
      LeadsFurther(c, Apply(c, s, path[0]), path[1..], t, step);
    }
  }

  lemma ReachStep(c: Config, s: State, step: Step)
    requires ValidConfig(c) && Reachable(c, s) && InRange(c, s) && Enabled(c, s, step)
    ensures Reachable(c, Apply(c, s, step))
  {
    var path :| Leads(c, Init(), path, s);
    LeadsFurther(c, Init(), path, s, step);
  }

  lemma {:induction false} InvAlong(c: Config, s: State, path: seq<Step>, t: State)
    requires ValidConfig(c) && Inv(c, s) && Leads(c, s, path, t)
    ensures Inv(c, t)
    decreases |path|
  {
    if path != [] {
      InvPreserved(c, s, path[0]);
      InvAlong(c, Apply(c, s, path[0]), path[1..], t);
    }
  }

  lemma ReachableInv(c: Config, s: State)
    requires ValidConfig(c) && Reachable(c, s)
    ensures Inv(c, s)
  {
    var path :| Leads(c, Init(), path, s);
    InitSatisfiesInv(c);
    InvAlong(c, Init(), path, s);
  }

  /** At every moment of every run, whether or not the collector gives up, the kept lines are a
      prefix of the lines the child has completely written. */
  lemma CollectedIsPrefix(c: Config, s: State)
    requires ValidConfig(c) && Reachable(c, s)
    ensures s.kept <= c.lines && Pos(c, |s.kept|) <= s.written
  {
    ReachableInv(c, s);
  }

  // ----- progress -----

  predicate Final(s: State) { s.mode == Stopped || s.mode == GaveUp }

  /** Some step is possible, other than giving up. */
  ghost predicate CanMove(c: Config, s: State)
    requires ValidConfig(c) && InRange(c, s)
  {
    exists step: Step :: step != GiveUp && Enabled(c, s, step)
  }

  /** With the collector running, an unfinished run of an exiting child is never stuck. */
  lemma NeverStuck(c: Config, s: State)
    requires ValidConfig(c) && Inv(c, s) && !Final(s)
    requires c.exits && (c.late ==> s.eof)
    ensures CanMove(c, s)
  {
    CountFull(c, s.recvd);
    if s.written < Queued(c, s) && s.written - s.filled < c.pipe {
      assert Enabled(c, s, Write(1));
    } else if s.mode == Selecting && s.filled < s.written {
      assert Enabled(c, s, Select);
    } else if s.mode == Reading && '\n' in Buffered(c, s) {
      assert Enabled(c, s, Take);
    } else if s.mode == Reading && s.filled < s.written {
      assert Enabled(c, s, Fill(1));
    } else {
      match s.phase
      case Closing => assert Enabled(c, s, Exit);
      case Gone => assert Enabled(c, s, if s.mode == Selecting then Select else SeeEof);
      case Serving => ServingMoves(c, s);
    }
  }

  lemma ServingMoves(c: Config, s: State)
    requires ValidConfig(c) && Inv(c, s) && s.phase == Serving && s.written == Queued(c, s)
    ensures CanMove(c, s) || (s.recvd == |Wire(c)| && s.eof && !c.exits)
  {
    CountFull(c, s.recvd);
    if s.recvd < s.sent {
      assert Enabled(c, s, Recv(1));
    } else if s.sent < |Wire(c)| {
      assert Enabled(c, s, Send(1));
    } else if !s.eof {
      assert Enabled(c, s, SendEof);
    } else if c.exits {
      assert Enabled(c, s, Finish);
    }
  }

  function ModeRank(m: Mode): nat {
    match m case Selecting => 2 case Reading => 1 case _ => 0
  }

  function PhaseRank(p: Phase): nat {
    match p case Serving => 2 case Closing => 1 case Gone => 0
  }

  /** What is left to do, most significant first. */
  function Left(c: Config, s: State): (nat, nat, nat, nat, nat, nat)
    requires ValidConfig(c) && InRange(c, s)
  {
    (|Wire(c)| - s.sent + (if s.eof then 0 else 1), |Wire(c)| - s.recvd + PhaseRank(s.phase),
     |Output(c)| - s.written, |Output(c)| - s.filled, |Output(c)| - s.taken, ModeRank(s.mode))
  }

  ghost predicate Less(a: (nat, nat, nat, nat, nat, nat), b: (nat, nat, nat, nat, nat, nat)) {
    || a.0 < b.0
    || (a.0 == b.0 && (|| a.1 < b.1
    || (a.1 == b.1 && (|| a.2 < b.2
    || (a.2 == b.2 && (|| a.3 < b.3
    || (a.3 == b.3 && (|| a.4 < b.4
    || (a.4 == b.4 && a.5 < b.5)))))))))
  }

  lemma EarlyStepDescends(c: Config, s: State, step: Step)
    requires ValidConfig(c) && InRange(c, s) && Enabled(c, s, step) && InRange(c, Apply(c, s, step))
    requires step.Send? || step.SendEof? || step.Recv? || step.Finish? || step.Exit?
    ensures Less(Left(c, Apply(c, s, step)), Left(c, s))
  {
  }

  lemma LateStepDescends(c: Config, s: State, step: Step)
    requires ValidConfig(c) && InRange(c, s) && Enabled(c, s, step) && InRange(c, Apply(c, s, step))
    requires step.Write? || step.Select? || step.Fill? || step.GiveUp?
    ensures Less(Left(c, Apply(c, s, step)), Left(c, s))
  {
  }

  lemma EveryStepDescends(c: Config, s: State, step: Step)
    requires ValidConfig(c) && Inv(c, s) && Enabled(c, s, step)
    ensures Inv(c, Apply(c, s, step)) && Less(Left(c, Apply(c, s, step)), Left(c, s))
  {
    InvPreserved(c, s, step);
    if step.Take? {
      TakeKeepsInv(c, s);
    } else if step.SeeEof? {
      EofComesAfterDone(c, s);
    } else if step.Write? || step.Select? || step.Fill? || step.GiveUp? {
      LateStepDescends(c, s, step);
    } else {
      EarlyStepDescends(c, s, step);
    }
  }

  /** A scheduler that only ever picks possible steps and never gives up. */
  ghost predicate Fair(c: Config, pick: (nat, State) -> Step)
    requires ValidConfig(c)
  {
    forall n, s :: Inv(c, s) && !Final(s) && CanMove(c, s) ==> pick(n, s) != GiveUp && Enabled(c, s, pick(n, s))
  }

  /** Run from s until nothing more can happen, letting the scheduler choose each step. */
  ghost function RunFrom(c: Config, pick: (nat, State) -> Step, n: nat, s: State): State
    requires ValidConfig(c) && Inv(c, s) && Fair(c, pick)
    decreases Left(c, s).0, Left(c, s).1, Left(c, s).2, Left(c, s).3, Left(c, s).4, Left(c, s).5
  {
    if Final(s) || !CanMove(c, s) then s
    else
      EveryStepDescends(c, s, pick(n, s));
      RunFrom(c, pick, n + 1, Apply(c, s, pick(n, s)))
  }

  /** However the steps interleave, the run ends and every line is collected. */
  lemma {:induction false} EverythingIsCollected(c: Config, pick: (nat, State) -> Step, n: nat, s: State)
    requires ValidConfig(c) && Inv(c, s) && Fair(c, pick) && c.exits && !c.late && s.mode != GaveUp
    ensures RunFrom(c, pick, n, s).mode == Stopped && RunFrom(c, pick, n, s).kept == c.lines
    decreases Left(c, s).0, Left(c, s).1, Left(c, s).2, Left(c, s).3, Left(c, s).4, Left(c, s).5
  {
    if !Final(s) {
      NeverStuck(c, s);
      EveryStepDescends(c, s, pick(n, s));
      EverythingIsCollected(c, pick, n + 1, Apply(c, s, pick(n, s)));
    }
  }
}
