/** The raw-IPC arm's frames through the interleaved pipeline: what the collector has kept decodes, at
    every moment, to the first of the frames sent, and in the end to all of them. */
module Arm {
  import opened Headers
  import opened Framing
  import opened Text
  import opened Gates
  import opened Delivery
  import Pipeline

  /** The line the peer prints on its way out. */
  function DoneLine(received: nat): string { "DONE received=" + Digits(received) }

  /** The pipeline that carries these frames: the collector runs alongside and the peer exits. */
  function ArmConfig(c: Codec, frames: seq<Frame>, arrival: nat -> int, expected: nat,
                     socket: nat, pipe: nat, buffer: nat): Pipeline.Config {
    Pipeline.Config(Payloads(c, frames), Lines(c, arrival, Payloads(c, frames)), DoneLine(|frames|), expected,
                    socket, pipe, buffer, true, false)
  }

  lemma EndsCleanly(line: string)
    requires line != "" && !IsSpace(line[|line| - 1]) && '\n' !in line
    ensures Pipeline.Clean(line) && StripRight(line) == line
  {
    StripRightPadding(line, "\n");
  }

  lemma DoneLineIsClean(received: nat)
    ensures Pipeline.Clean(DoneLine(received)) && Pipeline.DONE <= DoneLine(received)
  {
    var line := DoneLine(received);
    assert line[|line| - 1] == Digits(received)[|Digits(received)| - 1];
    forall i | 0 <= i < |line| ensures line[i] != '\n' {
      assert i >= 14 ==> line[i] == Digits(received)[i - 14];
    }
    EndsCleanly(line);
  }

  lemma ChunkLineIsClean(arrival: int, body: string)
    requires body != "" && NoSpace(body)
    ensures var line := ChunkLine(arrival, body);
            StripRight(line) == line && Pipeline.Clean(line) && !(Pipeline.DONE <= line)
  {
    DigitsAreNoSpace(Decimal(arrival));
    FlatLine("arrival_ns=" + Decimal(arrival), body);
    EndsCleanly(ChunkLine(arrival, body));
  }

  lemma FlatLine(stamp: string, body: string)
    requires NoSpace(stamp) && NoSpace(body) && body != ""
    ensures var line := PREFIX + (" " + (stamp + (" " + (BODY + "=" + body))));
            '\n' !in line && !IsSpace(line[|line| - 1]) && !(Pipeline.DONE <= line)
  {
    var tail := BODY + "=" + body;
    var line := PREFIX + (" " + (stamp + (" " + tail)));
    assert line[0] == 'U';
    assert body[|body| - 1] in body && line[|line| - 1] == body[|body| - 1];
    assert IsSpace('\n');
    assert '\n' !in stamp && '\n' !in tail;
  }

  lemma ArmConfigIsValid(c: Codec, frames: seq<Frame>, arrival: nat -> int, expected: nat,
                         socket: nat, pipe: nat, buffer: nat)
    requires AllSendable(c, frames) && AllAcceptable(Payloads(c, frames)) && |frames| <= expected
    requires socket >= 1 && pipe >= 1 && buffer >= 1
    ensures Pipeline.ValidConfig(ArmConfig(c, frames, arrival, expected, socket, pipe, buffer))
  {
    var lines := Lines(c, arrival, Payloads(c, frames));
    forall i | 0 <= i < |lines| ensures Pipeline.Clean(lines[i]) && !(Pipeline.DONE <= lines[i]) {
      assert Sendable(c, frames[i]);
      ChunkLineIsClean(arrival(i), c.armour(c.encode(frames[i])));
    }
    DoneLineIsClean(|frames|);
  }

  lemma KeptDecodes(c: Codec, frames: seq<Frame>, arrival: nat -> int, kept: seq<string>)
    requires AllSendable(c, frames) && kept <= Lines(c, arrival, Payloads(c, frames))
    ensures |kept| <= |frames| && Delivered(c, PREFIX, kept) == frames[..|kept|]
  {
    assert kept == Lines(c, arrival, Payloads(c, frames))[..|kept|];
    LinesReadBack(c, arrival, frames, |kept|);
  }

  /** In every reachable state, for all capacities, the kept lines decode to the first frames sent. */
  lemma CollectedFramesArePrefix(c: Codec, frames: seq<Frame>, arrival: nat -> int, expected: nat,
                                 socket: nat, pipe: nat, buffer: nat, s: Pipeline.State)
    requires AllSendable(c, frames) && AllAcceptable(Payloads(c, frames)) && |frames| <= expected
    requires socket >= 1 && pipe >= 1 && buffer >= 1
    ensures var config := ArmConfig(c, frames, arrival, expected, socket, pipe, buffer);
            && Pipeline.ValidConfig(config)
            && (Pipeline.Reachable(config, s) ==> Delivered(c, PREFIX, s.kept) <= frames)
  {
    var config := ArmConfig(c, frames, arrival, expected, socket, pipe, buffer);
    ArmConfigIsValid(c, frames, arrival, expected, socket, pipe, buffer);
    if Pipeline.Reachable(config, s) {
      Pipeline.CollectedIsPrefix(config, s);
      KeptDecodes(c, frames, arrival, s.kept);
    }
  }

  /** Every schedule that does not give up ends with the kept lines decoding to exactly the frames
      sent. */
  lemma EveryFrameIsCollected(c: Codec, frames: seq<Frame>, arrival: nat -> int, expected: nat,
                              socket: nat, pipe: nat, buffer: nat, pick: (nat, Pipeline.State) -> Pipeline.Step)
    requires AllSendable(c, frames) && AllAcceptable(Payloads(c, frames)) && |frames| <= expected
    requires socket >= 1 && pipe >= 1 && buffer >= 1
    ensures var config := ArmConfig(c, frames, arrival, expected, socket, pipe, buffer);
            && Pipeline.ValidConfig(config) && Pipeline.Inv(config, Pipeline.Init())
            && (Pipeline.Fair(config, pick) ==>
                  Delivered(c, PREFIX, Pipeline.RunFrom(config, pick, 0, Pipeline.Init()).kept) == frames)
  {
    var config := ArmConfig(c, frames, arrival, expected, socket, pipe, buffer);
    ArmConfigIsValid(c, frames, arrival, expected, socket, pipe, buffer);
    Pipeline.InitSatisfiesInv(config);
    if Pipeline.Fair(config, pick) {
      Pipeline.EverythingIsCollected(config, pick, 0, Pipeline.Init());
      KeptDecodes(c, frames, arrival, config.lines);
      assert frames[..|frames|] == frames;
    }
  }
}
