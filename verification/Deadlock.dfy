/** What goes wrong around the concurrent collector: reading only after sending can deadlock, and
    lines can be stranded in the collector's private buffer when the child never exits. Both are
    characterised exactly. */
module Deadlock {
  import opened Headers
  import opened Framing
  import opened Text
  import opened Pipeline

  ghost predicate StuckAt(c: Config, s: State)
    requires ValidConfig(c)
  {
    Reachable(c, s) && InRange(c, s) && !Final(s) && !CanMove(c, s)
  }

  /** How much the child has to print for the first k bytes. */
  function PrintedFor(c: Config, k: nat): nat
    requires ValidConfig(c) && k <= |Wire(c)|
  {
    CountMonotone(c, k, k);
    Pos(c, Count(c, k))
  }

  lemma PrintedForMonotone(c: Config, i: nat, k: nat)
    requires ValidConfig(c) && i <= k <= |Wire(c)|
    ensures PrintedFor(c, i) <= PrintedFor(c, k) <= |Output(c)|
  {
    CountMonotone(c, i, k);
    PosMonotone(c, Count(c, i), Count(c, k));
    OutputSplits(c, Count(c, k));
  }

  // ----- reading after sending -----

  /** After k bytes the child has more to print than the pipe holds, and the bytes still to come
      are more than the socket holds. */
  predicate OverflowsAt(c: Config, k: nat)
    requires ValidConfig(c)
  {
    k <= |Wire(c)| && PrintedFor(c, k) > c.pipe && |Wire(c)| - k > c.socket
  }

  ghost predicate Overflows(c: Config)
    requires ValidConfig(c)
  {
    exists k :: OverflowsAt(c, k)
  }

  lemma StuckMeansOverflow(c: Config, s: State)
    requires ValidConfig(c) && c.exits && c.late && StuckAt(c, s)
    ensures Overflows(c)
  {
    ReachableInv(c, s);
    if s.eof {
      NeverStuck(c, s);
    } else {
      assert !Enabled(c, s, SendEof) && !Enabled(c, s, Send(1)) && !Enabled(c, s, Write(1));
      CountFull(c, s.recvd);
      if s.written == Queued(c, s) {
        ServingMoves(c, s);
        assert false;
      }
      assert OverflowsAt(c, s.recvd);
    }
  }

  /** No collector has started, and the child has consumed and printed everything sent so far. */
  function Unread(c: Config, i: nat): State
    requires ValidConfig(c) && i <= |Wire(c)|
  {
    Init().(sent := i, recvd := i, written := PrintedFor(c, i))
  }

  lemma {:induction false} UnreadReachable(c: Config, i: nat)
    requires ValidConfig(c) && i <= |Wire(c)| && PrintedFor(c, i) <= c.pipe
    ensures Reachable(c, Unread(c, i))
  {
    if i == 0 {
      assert Wire(c)[..0] == [] && AllLines(c)[..0] == [];
      assert Leads(c, Init(), [], Unread(c, 0));
    } else {
      PrintedForMonotone(c, i - 1, i);
      UnreadReachable(c, i - 1);
      ReceiveOne(c, i - 1);
      PrintSome(c, Unread(c, i - 1).(sent := i, recvd := i), PrintedFor(c, i));
    }
  }

  /** With nobody reading, the child prints up to n characters in all. */
  lemma PrintSome(c: Config, s: State, n: nat)
    requires ValidConfig(c) && InRange(c, s) && Reachable(c, s) && s.written <= n <= Queued(c, s)
    requires s.filled == 0 && n <= c.pipe
    ensures Reachable(c, s.(written := n))
  {
    if s.written < n {
      ReachStep(c, s, Write(n - s.written));
    }
  }

  lemma ReceiveOne(c: Config, i: nat)
    requires ValidConfig(c) && i < |Wire(c)| && PrintedFor(c, i) <= c.pipe && Reachable(c, Unread(c, i))
    ensures var s := Unread(c, i).(sent := i + 1, recvd := i + 1); InRange(c, s) && Reachable(c, s)
  {
    var s := Unread(c, i);
    PrintedForMonotone(c, i, i);
    CountFull(c, i);
    ReachStep(c, s, Send(1));
    ReachStep(c, s.(sent := i + 1), Recv(1));
  }

  /** The first moment at which the child has more to print than the pipe holds. */
  lemma {:induction false} FirstOverflow(c: Config, k: nat) returns (first: nat)
    requires ValidConfig(c) && OverflowsAt(c, k)
    ensures 0 < first && OverflowsAt(c, first) && PrintedFor(c, first - 1) <= c.pipe
  {
    PrintedForZero(c);
    if PrintedFor(c, k - 1) > c.pipe {
      first := FirstOverflow(c, k - 1);
    } else {
      first := k;
    }
  }

  /** The pipe is full and the child still has text; the socket is full and the producer still has
      bytes; nobody reads. */
  function Jam(c: Config, k: nat): State {
    Init().(sent := k + c.socket, recvd := k, written := c.pipe)
  }

  lemma JamReachable(c: Config, k: nat)
    requires ValidConfig(c) && c.late && 0 < k && OverflowsAt(c, k) && PrintedFor(c, k - 1) <= c.pipe
    ensures Reachable(c, Jam(c, k))
  {
    UnreadReachable(c, k - 1);
    ReceiveOne(c, k - 1);
    PrintedForMonotone(c, k - 1, k);
    var s := Unread(c, k - 1).(sent := k, recvd := k);
    PrintSome(c, s, c.pipe);
    ReachStep(c, s.(written := c.pipe), Send(c.socket));
  }

  lemma JamIsStuck(c: Config, k: nat)
    requires ValidConfig(c) && c.late && OverflowsAt(c, k) && Reachable(c, Jam(c, k))
    ensures StuckAt(c, Jam(c, k))
  {
    ReachableInv(c, Jam(c, k));
  }

  lemma OverflowMeansStuck(c: Config)
    requires ValidConfig(c) && c.late && Overflows(c)
    ensures exists s :: StuckAt(c, s)
  {
    var some :| OverflowsAt(c, some);
    var k := FirstOverflow(c, some);
    JamReachable(c, k);
    JamIsStuck(c, k);
  }

  lemma PrintedForZero(c: Config)
    requires ValidConfig(c)
    ensures PrintedFor(c, 0) == 0
  {
    assert Wire(c)[..0] == [] && AllLines(c)[..0] == [];
  }

  /** Reading after sending deadlocks on some schedule exactly when the frames overflow the
      buffers. */
  lemma ReadAfterSendDeadlocks(c: Config)
    requires ValidConfig(c) && c.exits && c.late
    ensures (exists s :: StuckAt(c, s)) <==> Overflows(c)
  {
    if exists s :: StuckAt(c, s) {
      var s :| StuckAt(c, s);
      StuckMeansOverflow(c, s);
    }
    if Overflows(c) {
      OverflowMeansStuck(c);
    }
  }

  // ----- a child that never exits -----

  lemma ReaderMoves(c: Config, s: State)
    requires ValidConfig(c) && Inv(c, s) && !Final(s) && !c.late && s.filled < s.written
    ensures CanMove(c, s)
  {
    assert Enabled(c, s, if s.mode == Selecting then Select else if '\n' in Buffered(c, s) then Take else Fill(1));
  }

  lemma LastReadMoves(c: Config, s: State)
    requires ValidConfig(c) && !c.exits && Inv(c, s) && s.mode == Reading
    requires s.taken < s.filled == |Output(c)|
    ensures CanMove(c, s)
  {
    assert AllLines(c) == c.lines;
    OutputSplits(c, |s.kept|);
    LineAt(c, |s.kept|);
    assert Buffered(c, s)[|c.lines[|s.kept|]|] == '\n';
    assert Enabled(c, s, Take);
  }

  /** When a child that waits forever has fallen quiet, it has printed everything; what is missing
      from the kept lines sits, complete, in the private buffer that `select` does not see. */
  lemma QuietMeansBuffered(c: Config, s: State)
    requires ValidConfig(c) && !c.exits && !c.late && StuckAt(c, s)
    ensures s.mode == Selecting && s.written == s.filled == |Output(c)|
    ensures s.kept <= c.lines && Buffered(c, s) == Printed(c.lines[|s.kept|..])
  {
    ReachableInv(c, s);
    QuietMeansPrinted(c, s);
    OutputSplits(c, |s.kept|);
    assert AllLines(c) == c.lines;
    assert Output(c)[s.taken..s.filled] == Output(c)[s.taken..];
    EmptyReadImpossible(c, s);
    if s.mode == Reading {
      LastReadMoves(c, s);
    }
  }

  lemma QuietMeansPrinted(c: Config, s: State)
    requires ValidConfig(c) && !c.exits && !c.late && Inv(c, s) && !Final(s) && !CanMove(c, s)
    ensures s.written == s.filled == |Output(c)|
  {
    if s.filled < s.written {
      ReaderMoves(c, s);
    }
    assert !Enabled(c, s, Write(1));
    ServingMoves(c, s);
    CountFull(c, s.recvd);
    OutputSplits(c, |c.lines|);
    assert AllLines(c) == c.lines;
  }

  /** While the collector is inside `readline` there is unread text. */
  lemma EmptyReadImpossible(c: Config, s: State)
    requires ValidConfig(c) && !c.exits && Reachable(c, s)
    ensures s.mode == Reading ==> s.taken < s.written
  {
    var path :| Leads(c, Init(), path, s);
    InitSatisfiesInv(c);
    UnreadAlong(c, Init(), path, s);
  }

  lemma {:induction false} UnreadAlong(c: Config, s: State, path: seq<Step>, t: State)
    requires ValidConfig(c) && !c.exits && Inv(c, s) && Leads(c, s, path, t)
    requires s.mode == Reading ==> s.taken < s.written
    ensures t.mode == Reading ==> t.taken < t.written
    decreases |path|
  {
    if path != [] {
      InvPreserved(c, s, path[0]);
      UnreadStep(c, s, path[0]);
      UnreadAlong(c, Apply(c, s, path[0]), path[1..], t);
    }
  }

  lemma UnreadStep(c: Config, s: State, step: Step)
    requires ValidConfig(c) && !c.exits && InRange(c, s) && Enabled(c, s, step)
    requires s.mode == Reading ==> s.taken < s.written
    ensures var t := Apply(c, s, step); t.mode == Reading ==> t.taken < t.written
  {
    match step
    case Select => case Take => case SeeEof => case GiveUp => case Write(_) => case _ =>
  }

  /** The last line and the newline before it fit into one refill of the private buffer. */
  predicate LastLineFitsOneFill(c: Config) {
    |c.lines| >= 2 && |c.lines[|c.lines| - 1]| + 2 <= c.pipe && |c.lines[|c.lines| - 1]| + 2 <= c.buffer
  }

  /** Once everything is in the private buffer, a second complete line there came in one refill. */
  predicate Together(c: Config, s: State) {
    s.filled == |Output(c)| && |c.lines| - |s.kept| >= (if s.mode == Reading then 2 else 1) ==> LastLineFitsOneFill(c)
  }

  lemma NewlineInBuffer(c: Config, s: State)
    requires ValidConfig(c) && Inv(c, s) && s.mode != Stopped && |s.kept| < |AllLines(c)|
    requires Pos(c, |s.kept|) + |AllLines(c)[|s.kept|]| < s.filled
    ensures '\n' in Buffered(c, s)
  {
    LineAt(c, |s.kept|);
    assert Buffered(c, s)[|AllLines(c)[|s.kept|]|] == '\n';
  }

  lemma FillTogether(c: Config, s: State, n: nat)
    requires ValidConfig(c) && !c.exits && Inv(c, s) && Enabled(c, s, Fill(n))
    ensures Together(c, Apply(c, s, Fill(n)))
  {
    var j, m := |s.kept|, |c.lines|;
    if s.filled + n == |Output(c)| && m - j >= 2 {
      Geometry(c, j);
      if Pos(c, j) + |c.lines[j]| < s.filled {
        NewlineInBuffer(c, s);
      }
    }
  }

  /** Where line j and the last line lie in the output of a child that never exits. */
  lemma Geometry(c: Config, j: nat)
    requires ValidConfig(c) && !c.exits && j + 2 <= |c.lines|
    ensures AllLines(c) == c.lines
    ensures Pos(c, j) + |c.lines[j]| + 1 == Pos(c, j + 1) <= Pos(c, |c.lines| - 1)
    ensures Pos(c, |c.lines| - 1) + |c.lines[|c.lines| - 1]| + 1 == |Output(c)|
  {
    assert AllLines(c) == c.lines;
    OutputSplits(c, j);
    OutputSplits(c, |c.lines| - 1);
    OutputSplits(c, |c.lines|);
    PosMonotone(c, j + 1, |c.lines| - 1);
  }

  ghost predicate Settled(c: Config, s: State)
    requires ValidConfig(c)
  {
    Inv(c, s) && Together(c, s) && (s.mode == Reading ==> s.taken < s.written)
  }

  lemma TogetherStep(c: Config, s: State, step: Step)
    requires ValidConfig(c) && !c.exits && Settled(c, s) && Enabled(c, s, step) && step != GiveUp
    ensures Settled(c, Apply(c, s, step))
  {
    InvPreserved(c, s, step);
    UnreadStep(c, s, step);
    if step.Fill? {
      FillTogether(c, s, step.n);
    } else if step.Take? {
      TakeConsumesALine(c, s);
      TakeTogether(c, s, AllLines(c)[|s.kept|]);
    } else {
      OtherTogether(c, s, step);
    }
  }

  lemma TakeTogether(c: Config, s: State, line: string)
    requires !c.exits && Together(c, s) && s.mode == Reading && Kept(c, AfterLine(s, line))
    ensures Together(c, AfterLine(s, line))
  {
  }

  lemma OtherTogether(c: Config, s: State, step: Step)
    requires ValidConfig(c) && !c.exits && InRange(c, s) && Together(c, s) && Enabled(c, s, step)
    requires !step.Fill? && !step.Take? && !step.GiveUp?
    ensures Together(c, Apply(c, s, step))
  {
    match step
    case Select => case SeeEof => case _ =>
  }

  lemma {:induction false} TogetherAlong(c: Config, s: State, path: seq<Step>, t: State)
    requires ValidConfig(c) && !c.exits && Settled(c, s) && Leads(c, s, path, t) && !Final(t)
    ensures Settled(c, t)
    decreases |path|
  {
    if path != [] {
      if path[0] == GiveUp {
        GaveUpForever(c, Apply(c, s, path[0]), path[1..], t);
      } else {
        TogetherStep(c, s, path[0]);
        TogetherAlong(c, Apply(c, s, path[0]), path[1..], t);
      }
    }
  }

  lemma {:induction false} GaveUpForever(c: Config, s: State, path: seq<Step>, t: State)
    requires ValidConfig(c) && s.mode == GaveUp && Leads(c, s, path, t)
    ensures t.mode == GaveUp
    decreases |path|
  {
    if path != [] {
      GaveUpForever(c, Apply(c, s, path[0]), path[1..], t);
    }
  }

  lemma StrandingNeedsOneFill(c: Config, s: State)
    requires ValidConfig(c) && !c.exits && !c.late && StuckAt(c, s) && s.kept != c.lines
    ensures LastLineFitsOneFill(c)
  {
    QuietMeansBuffered(c, s);
    var path :| Leads(c, Init(), path, s);
    InitSatisfiesInv(c);
    StartsSettled(c);
    TogetherAlong(c, Init(), path, s);
    assert c.lines[..|c.lines|] == c.lines;
  }

  lemma StartsSettled(c: Config)
    requires ValidConfig(c) && !c.exits
    ensures Settled(c, Init())
  {
    InitSatisfiesInv(c);
    if |c.lines| > 0 {
      OutputSplits(c, 0);
    }
  }

  // ----- a run that strands the last line -----

  /** The collector reads character by character as the child prints, so the private buffer never
      holds more than the current line. */
  predicate InStep(c: Config, s: State)
    requires ValidConfig(c)
  {
    && InRange(c, s) && s.phase == Serving && s.sent == s.recvd && !s.eof
    && s.filled == s.written && '\n' !in Buffered(c, s)
    && s.mode == (if s.taken < s.filled then Reading else Selecting)
  }

  lemma FeedByte(c: Config, s: State)
    requires ValidConfig(c) && Reachable(c, s) && Inv(c, s) && s.phase == Serving && s.sent == s.recvd
    requires s.written == Queued(c, s) < Pos(c, |c.lines|)
    ensures s.recvd < |Wire(c)|
    ensures var t := s.(sent := s.sent + 1, recvd := s.recvd + 1); Reachable(c, t) && Inv(c, t)
  {
    CountFull(c, s.recvd);
    assert Count(c, s.recvd) != |c.lines|;
    ReachStep(c, s, Send(1));
    var mid := s.(sent := s.sent + 1);
    ReachableInv(c, mid);
    ReachStep(c, mid, Recv(1));
    ReachableInv(c, mid.(recvd := s.recvd + 1));
  }

  lemma WriteAndSelect(c: Config, s: State) returns (t: State)
    requires ValidConfig(c) && !c.late && Reachable(c, s) && Inv(c, s) && InStep(c, s)
    requires s.written < Queued(c, s)
    ensures Reachable(c, t) && Inv(c, t) && t == s.(written := s.written + 1, mode := Reading)
  {
    ReachStep(c, s, Write(1));
    t := s.(written := s.written + 1);
    ReachableInv(c, t);
    if t.mode == Selecting {
      ReachStep(c, t, Select);
      t := t.(mode := Reading);
      ReachableInv(c, t);
    }
  }

  lemma TakeFreshLine(c: Config, s: State) returns (t: State)
    requires ValidConfig(c) && !c.exits && Reachable(c, s) && Inv(c, s) && s.mode == Reading && s.taken < s.filled
    requires '\n' !in Output(c)[s.taken..s.filled - 1] && Output(c)[s.filled - 1] == '\n'
    ensures Reachable(c, t) && Inv(c, t)
    ensures t == s.(taken := s.filled, mode := Selecting, kept := t.kept) && |t.kept| == |s.kept| + 1
  {
    NewlineIsLast(c, s);
    TakesItAll(c, s);
    ReachStep(c, s, Take);
    t := Apply(c, s, Take);
    ReachableInv(c, t);
  }

  lemma NewlineIsLast(c: Config, s: State)
    requires ValidConfig(c) && InRange(c, s) && s.taken < s.filled
    requires '\n' !in Output(c)[s.taken..s.filled - 1] && Output(c)[s.filled - 1] == '\n'
    ensures '\n' in Buffered(c, s) && IndexOf(Buffered(c, s), '\n') == s.filled - s.taken - 1
  {
    var front := Output(c)[s.taken..s.filled - 1];
    assert Buffered(c, s) == front + ['\n'];
    IndexOfLast(front, '\n');
  }

  lemma IndexOfLast(front: string, last: char)
    requires last !in front
    ensures last in front + [last] && IndexOf(front + [last], last) == |front|
  {
    PartitionAtFirst(front, last, "");
    assert front + [last] + "" == front + [last];
    assert (front + [last])[|front|] == last;
  }

  lemma TakesItAll(c: Config, s: State)
    requires ValidConfig(c) && !c.exits && Inv(c, s) && s.mode == Reading
    requires '\n' in Buffered(c, s) && IndexOf(Buffered(c, s), '\n') == s.filled - s.taken - 1
    ensures var t := Apply(c, s, Take);
            t == s.(taken := s.filled, mode := Selecting, kept := t.kept) && |t.kept| == |s.kept| + 1
  {
    assert AllLines(c) == c.lines;
    NextLine(c, s);
    TakeConsumesALine(c, s);
  }

  lemma FillOne(c: Config, s: State) returns (t: State)
    requires ValidConfig(c) && Reachable(c, s) && Inv(c, s) && s.mode == Reading && s.filled < s.written
    requires '\n' !in Buffered(c, s)
    ensures Reachable(c, t) && Inv(c, t) && t == s.(filled := s.filled + 1)
  {
    ReachStep(c, s, Fill(1));
    t := s.(filled := s.filled + 1);
    ReachableInv(c, t);
  }

  lemma PassCharacter(c: Config, s: State) returns (t: State)
    requires ValidConfig(c) && !c.exits && !c.late && Reachable(c, s) && Inv(c, s) && InStep(c, s)
    requires s.written < Queued(c, s)
    ensures Reachable(c, t) && Inv(c, t) && InStep(c, t)
    ensures t.written == s.written + 1 && t.recvd == s.recvd
  {
    t := WriteAndSelect(c, s);
    assert Buffered(c, t) == Buffered(c, s);
    t := FillOne(c, t);
    assert Buffered(c, t) == Buffered(c, s) + [Output(c)[s.filled]];
    if Output(c)[s.filled] == '\n' {
      t := TakeFreshLine(c, t);
      assert Buffered(c, t) == "";
    }
  }

  /** The pipeline can be brought, in step, to any point of the output. */
  lemma DriveTo(c: Config, w: nat) returns (s: State)
    requires ValidConfig(c) && !c.exits && !c.late && w <= |Output(c)|
    ensures Reachable(c, s) && Inv(c, s) && InStep(c, s) && s.written == w
  {
    s := Init();
    assert Leads(c, s, [], s);
    InitSatisfiesInv(c);
    assert AllLines(c) == c.lines;
    OutputSplits(c, |c.lines|);
    while s.written < w
      invariant Reachable(c, s) && Inv(c, s) && InStep(c, s) && s.written <= w
      decreases |Wire(c)| - s.recvd, w - s.written
    {
      if s.written < Queued(c, s) {
        s := PassCharacter(c, s);
      } else {
        FeedByte(c, s);
        s := s.(sent := s.sent + 1, recvd := s.recvd + 1);
      }
    }
  }

  /** The rest of the output reaches the pipe while the collector is held up. */
  lemma PrintRest(c: Config, s: State) returns (t: State)
    requires ValidConfig(c) && !c.exits && Reachable(c, s) && Inv(c, s) && s.phase == Serving && s.sent == s.recvd
    requires |Output(c)| - s.filled <= c.pipe
    ensures Reachable(c, t) && Inv(c, t) && t.written == |Output(c)|
    ensures t == s.(sent := |Wire(c)|, recvd := |Wire(c)|, written := |Output(c)|)
  {
    t := s;
    assert AllLines(c) == c.lines;
    OutputSplits(c, |c.lines|);
    while t.written < |Output(c)|
      invariant Reachable(c, t) && Inv(c, t) && t.phase == Serving
      invariant t == s.(sent := t.recvd, recvd := t.recvd, written := t.written)
      decreases |Wire(c)| - t.recvd, |Output(c)| - t.written
    {
      if t.written < Queued(c, t) {
        t := PrintOne(c, t);
      } else {
        FeedByte(c, t);
        t := t.(sent := t.sent + 1, recvd := t.recvd + 1);
      }
    }
    CountMonotone(c, t.recvd, t.recvd);
    CountFull(c, t.recvd);
    if Count(c, t.recvd) < |c.lines| {
      PosMonotone(c, Count(c, t.recvd), |c.lines|);
    }
  }

  lemma PrintOne(c: Config, s: State) returns (t: State)
    requires ValidConfig(c) && Reachable(c, s) && Inv(c, s) && s.written < Queued(c, s)
    requires s.written + 1 - s.filled <= c.pipe
    ensures Reachable(c, t) && Inv(c, t) && t == s.(written := s.written + 1)
  {
    ReachStep(c, s, Write(1));
    t := s.(written := s.written + 1);
    ReachableInv(c, t);
  }

  lemma PosOrder(c: Config, i: nat, k: nat)
    requires i <= |AllLines(c)| && k <= |AllLines(c)| && Pos(c, i) < Pos(c, k)
    ensures i < k
  {
    if k <= i {
      PosMonotone(c, k, i);
    }
  }

  /** Just before the last newline but one, the collector is inside the last line but one. */
  lemma BeforeLastLine(c: Config, s: State)
    requires ValidConfig(c) && !c.exits && Inv(c, s) && InStep(c, s) && |c.lines| >= 2
    requires s.written == Pos(c, |c.lines| - 1) - 1
    ensures s.mode == Reading && |s.kept| == |c.lines| - 2
    ensures |Output(c)| - s.filled == |c.lines[|c.lines| - 1]| + 2
  {
    var j, m := |s.kept|, |c.lines|;
    Geometry(c, m - 2);
    PosOrder(c, j, m - 1);
    if j < m - 2 {
      Geometry(c, j);
      PosMonotone(c, j + 1, m - 2);
      NewlineInBuffer(c, s);
    }
  }

  lemma DriveToLastLine(c: Config) returns (s: State)
    requires ValidConfig(c) && !c.exits && !c.late && |c.lines| >= 2
    ensures Reachable(c, s) && Inv(c, s) && InStep(c, s) && s.written == Pos(c, |c.lines| - 1) - 1
  {
    assert AllLines(c) == c.lines;
    OutputSplits(c, |c.lines| - 1);
    PosMonotone(c, 0, |c.lines| - 1);
    s := DriveTo(c, Pos(c, |c.lines| - 1) - 1);
  }

  lemma LastLineCanStrand(c: Config)
    requires ValidConfig(c) && !c.exits && !c.late && LastLineFitsOneFill(c)
    ensures exists s :: StuckAt(c, s) && s.kept != c.lines
  {
    var s := DriveToLastLine(c);
    BeforeLastLine(c, s);
    var t := PrintRest(c, s);
    BothInOneFill(c, t);
  }

  /** One refill brings two lines, one is taken, and select has nothing left to see. */
  lemma BothInOneFill(c: Config, s: State)
    requires ValidConfig(c) && !c.exits && Reachable(c, s) && Inv(c, s) && s.phase == Serving
    requires s.mode == Reading && |s.kept| == |c.lines| - 2 && '\n' !in Buffered(c, s) && !s.eof
    requires s.sent == s.recvd == |Wire(c)| && s.written == |Output(c)| && 1 <= |Output(c)| - s.filled <= c.buffer
    ensures exists t :: StuckAt(c, t) && t.kept != c.lines
  {
    ReachStep(c, s, Fill(|Output(c)| - s.filled));
    var t := s.(filled := |Output(c)|);
    ReachableInv(c, t);
    NewlineFollows(c, t);
    TakeConsumesALine(c, t);
    ReachStep(c, t, Take);
    EndOfInput(c, Apply(c, t, Take));
  }

  lemma EndOfInput(c: Config, s: State)
    requires ValidConfig(c) && !c.exits && Reachable(c, s) && s.phase == Serving && !s.eof
    requires InRange(c, s) && s.sent == s.recvd == |Wire(c)| && s.written == s.filled == |Output(c)|
    requires s.mode == Selecting && |s.kept| == |c.lines| - 1
    ensures exists t :: StuckAt(c, t) && t.kept != c.lines
  {
    ReachableInv(c, s);
    ReachStep(c, s, SendEof);
    var t := s.(eof := true);
    ReachableInv(c, t);
    CountFull(c, t.recvd);
    assert AllLines(c) == c.lines;
    OutputSplits(c, |c.lines|);
    assert StuckAt(c, t) && |t.kept| == |c.lines| - 1;
  }

  lemma NewlineFollows(c: Config, s: State)
    requires ValidConfig(c) && !c.exits && Inv(c, s) && s.mode == Reading
    requires |s.kept| < |c.lines| && s.filled == |Output(c)|
    ensures '\n' in Buffered(c, s)
  {
    assert AllLines(c) == c.lines;
    LineAt(c, |s.kept|);
    assert Buffered(c, s)[|c.lines[|s.kept|]|] == '\n';
  }

  /** With a child that never exits, some schedule leaves lines uncollected for ever exactly when
      the last line and the newline before it fit into one refill. */
  lemma StrandingIsPossibleIff(c: Config)
    requires ValidConfig(c) && !c.exits && !c.late
    ensures (exists s :: StuckAt(c, s) && s.kept != c.lines) <==> LastLineFitsOneFill(c)
  {
    if exists s :: StuckAt(c, s) && s.kept != c.lines {
      var s :| StuckAt(c, s) && s.kept != c.lines;
      StrandingNeedsOneFill(c, s);
    }
    if LastLineFitsOneFill(c) {
      LastLineCanStrand(c);
    }
  }
}
