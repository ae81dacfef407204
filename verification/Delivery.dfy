/** One raw-IPC arm from text to verdict: segment, frame, send through a stream that is read in
    arbitrary pieces, decode, print, parse the printed lines, and count. */
module Delivery {
  import opened Sequences
  import opened Headers
  import opened Framing
  import opened Receiver
  import opened Text
  import opened Events
  import opened Gates

  /** The frame of event i, stamped at its send moment. */
  function EventFrame(stamp: nat -> int, hash: Hash, iterId: int, i: nat, bytes: seq<Byte>): Frame {
    Frame(stamp(i), i, iterId, bytes, HashChunk(hash, iterId, i, bytes))
  }

  /** What sending a frame takes: codecs that undo each other on it, and a length `struct.pack` accepts. */
  predicate Sendable(c: Codec, f: Frame) { RoundTrips(c, f) && Packable(c.encode(f)) }

  predicate AllSendable(c: Codec, frames: seq<Frame>) { forall i :: 0 <= i < |frames| ==> Sendable(c, frames[i]) }

  /** The frames of the replay loop: each event, re-stamped at its send moment. */
  function Stamped(events: seq<Event>, iterId: int, stamp: nat -> int): (r: seq<Frame>)
    ensures |r| == |events|
    ensures forall i :: 0 <= i < |r| ==>
              r[i] == Frame(stamp(i), events[i].chunkSeq, iterId, events[i].bytes, events[i].hash)
  {
    seq(|events|, i requires 0 <= i < |events| =>
      Frame(stamp(i), events[i].chunkSeq, iterId, events[i].bytes, events[i].hash))
  }

  function Payloads(c: Codec, frames: seq<Frame>): (r: seq<seq<Byte>>)
    ensures |r| == |frames| && forall i :: 0 <= i < |r| ==> r[i] == c.encode(frames[i])
  {
    seq(|frames|, i requires 0 <= i < |frames| => c.encode(frames[i]))
  }

  /** The lines the peer prints for what it decoded, as the collector keeps them. */
  function Lines(c: Codec, arrival: nat -> int, printed: seq<seq<Byte>>): (r: seq<string>)
    ensures |r| == |printed|
    ensures forall i :: 0 <= i < |r| ==> r[i] == StripRight(ChunkLine(arrival(i), c.armour(printed[i])))
  {
    seq(|printed|, i requires 0 <= i < |printed| => StripRight(ChunkLine(arrival(i), c.armour(printed[i]))))
  }

  lemma LineSurvives(c: Codec, arrival: int, f: Frame)
    requires RoundTrips(c, f)
    ensures FrameOf(c, PREFIX, StripRight(ChunkLine(arrival, c.armour(c.encode(f))))) == Some(f)
  {
    ChunkLineIsStripped(arrival, c.armour(c.encode(f)));
    ChunkLineReadsBack(c, arrival, f);
  }

  lemma ChunkLineIsStripped(arrival: int, body: string)
    requires body != "" && NoSpace(body)
    ensures StripRight(ChunkLine(arrival, body)) == ChunkLine(arrival, body)
  {
    var line := ChunkLine(arrival, body);
    assert line[|line| - 1] == body[|body| - 1] && body[|body| - 1] in body;
  }

  lemma LinesDecode(c: Codec, arrival: nat -> int, frames: seq<Frame>)
    requires AllSendable(c, frames)
    ensures var lines := Lines(c, arrival, Payloads(c, frames));
            forall i :: 0 <= i < |lines| ==> Decoder(c, PREFIX)(lines[i]) == Some(frames[i])
  {
    var lines := Lines(c, arrival, Payloads(c, frames));
    forall i | 0 <= i < |lines| ensures Decoder(c, PREFIX)(lines[i]) == Some(frames[i]) {
      assert Sendable(c, frames[i]);
      LineSurvives(c, arrival(i), frames[i]);
    }
  }

  lemma LinesReadBack(c: Codec, arrival: nat -> int, frames: seq<Frame>, n: nat)
    requires AllSendable(c, frames) && n <= |frames|
    ensures Delivered(c, PREFIX, Lines(c, arrival, Payloads(c, frames))[..n]) == frames[..n]
  {
    LinesDecode(c, arrival, frames);
    EveryLineDecodes(Decoder(c, PREFIX), Lines(c, arrival, Payloads(c, frames)), frames, n);
  }

  // ----- the verdict on an in-order prefix -----

  predicate Numbered(frames: seq<Frame>) { forall i :: 0 <= i < |frames| ==> frames[i].chunkSeq == i }

  lemma {:induction false} LastCopyNumbered(frames: seq<Frame>, i: nat)
    requires Numbered(frames)
    ensures LastCopy(frames, i) == if i < |frames| then Some(frames[i]) else None
  {
    if frames != [] {
      LastCopyNumbered(frames[..|frames| - 1], i);
    }
  }

  function Span(k: nat, n: nat): (s: set<int>)
    requires k <= n
    ensures |s| == n - k && forall i :: i in s <==> k <= i < n
    decreases n - k
  {
    if k == n then {} else {k} + Span(k + 1, n)
  }

  /** A prefix of the replayed frames, delivered in order, fails exactly on the seqs it lacks. */
  lemma PrefixVerdict(hash: Hash, events: seq<Event>, iterId: int, stamp: nat -> int, k: nat)
    requires WellFormed(events, iterId, hash) && k <= |events|
    ensures var got := Stamped(events, iterId, stamp)[..k];
            && Failing(Manifest(events), Rehashes(hash, got)) == Span(k, |events|)
            && Descents(Order(got)) == {}
  {
    var got := Stamped(events, iterId, stamp)[..k];
    forall i: int ensures i in Failing(Manifest(events), Rehashes(hash, got)) <==> i in Span(k, |events|) {
      if 0 <= i < |events| {
        OneSeqVerdict(hash, events, iterId, stamp, k, i);
      }
    }
  }

  lemma OneSeqVerdict(hash: Hash, events: seq<Event>, iterId: int, stamp: nat -> int, k: nat, i: nat)
    requires WellFormed(events, iterId, hash) && k <= |events| && i < |events|
    ensures var rehashes := Rehashes(hash, Stamped(events, iterId, stamp)[..k]);
            if i < k then i in rehashes && rehashes[i] == events[i].hash else i !in rehashes
  {
    var got := Stamped(events, iterId, stamp)[..k];
    LastCopyNumbered(got, i);
    RehashesKeepLastCopies(hash, got, i);
  }

  lemma PrefixCounts(hash: Hash, events: seq<Event>, iterId: int, stamp: nat -> int, k: nat)
    requires WellFormed(events, iterId, hash) && k <= |events|
    ensures var got := Stamped(events, iterId, stamp)[..k];
            |Failing(Manifest(events), Rehashes(hash, got))| == |events| - k && |Descents(Order(got))| == 0
  {
    PrefixVerdict(hash, events, iterId, stamp, k);
  }

  // ----- the arm -----

  /** How many payloads precede the first one over the cap. */
  function Accepted(payloads: seq<seq<Byte>>): (k: nat)
    ensures k <= |payloads| && AllAcceptable(payloads[..k])
    ensures k < |payloads| ==> !Acceptable(payloads[k])
  {
    if payloads == [] || !Acceptable(payloads[0]) then 0
    else
      var k := 1 + Accepted(payloads[1..]);
      assert payloads[..k] == [payloads[0]] + payloads[1..][..k - 1];
      k
  }

  lemma PeerDecodes(payloads: seq<seq<Byte>>)
    requires AllPackable(payloads)
    ensures Parse(EncodeAll(payloads)).frames == payloads[..Accepted(payloads)]
    ensures Accepted(payloads) == |payloads| <==> AllAcceptable(payloads)
  {
    DecodesIffAcceptable(payloads);
    var k := Accepted(payloads);
    if k == |payloads| {
      assert payloads[..k] == payloads;
    }
  }

  /** The peer's side: what it prints for a stream read in the given pieces; all of the stream's
      frames, or a prefix of them once as many as it expects are there. */
  method RunPeer(expected: nat, chunks: seq<seq<Byte>>) returns (printed: seq<seq<Byte>>)
    requires [] !in chunks
    ensures printed <= Parse(Join(chunks)).frames
    ensures |Parse(Join(chunks)).frames| <= expected ==> printed == Parse(Join(chunks)).frames
    ensures printed != Parse(Join(chunks)).frames ==> |printed| >= expected
  {
    var peer := new Peer(expected);
    ghost var k := peer.Serve(chunks);
    printed := peer.printed;
  }

  /** A way of slicing any stream into non-empty reads. */
  ghost predicate Slices(slice: seq<Byte> -> seq<seq<Byte>>) {
    forall s :: Join(slice(s)) == s && [] !in slice(s)
  }

  lemma PayloadsPackable(c: Codec, frames: seq<Frame>)
    requires AllSendable(c, frames)
    ensures AllPackable(Payloads(c, frames))
  {
    var payloads := Payloads(c, frames);
    forall p | p in payloads ensures Packable(p) {
      var i :| 0 <= i < |payloads| && payloads[i] == p;
      assert Sendable(c, frames[i]);
    }
  }

  /** From frames to the collector's lines: frame, send in pieces, decode, print. */
  method Carry(c: Codec, frames: seq<Frame>, arrival: nat -> int, slice: seq<Byte> -> seq<seq<Byte>>, expected: nat)
      returns (lines: seq<string>)
    requires |frames| <= expected && Slices(slice) && AllSendable(c, frames)
    ensures Delivered(c, PREFIX, lines) == frames[..Accepted(Payloads(c, frames))]
  {
    var payloads := Payloads(c, frames);
    PayloadsPackable(c, frames);
    PeerDecodes(payloads);
    var printed := RunPeer(expected, slice(EncodeAll(payloads)));
    lines := Lines(c, arrival, printed);
    PrefixReadsBack(c, arrival, frames, printed, Accepted(payloads));
  }

  lemma PrefixReadsBack(c: Codec, arrival: nat -> int, frames: seq<Frame>, printed: seq<seq<Byte>>, k: nat)
    requires AllSendable(c, frames) && k <= |frames| && printed == Payloads(c, frames)[..k]
    ensures Delivered(c, PREFIX, Lines(c, arrival, printed)) == frames[..k]
  {
    assert Lines(c, arrival, printed) == Lines(c, arrival, Payloads(c, frames))[..k];
    LinesReadBack(c, arrival, frames, k);
  }

  /** The orchestrator's side: parse the consumer lines and count. */
  method Judge(hash: Hash, c: Codec, events: seq<Event>, lines: seq<string>) returns (failures: nat, inversions: nat)
    ensures failures == |Failing(Manifest(events), Rehashes(hash, Delivered(c, PREFIX, lines)))|
    ensures inversions == |Descents(Order(Delivered(c, PREFIX, lines)))|
  {
    var rehashes := ParseDeliveredRehashes(c, hash, PREFIX, lines);
    failures := DeliveryIntegrityFailures(Manifest(events), rehashes);
    var order := ParseDeliveredOrder(c, PREFIX, lines);
    inversions := OrderingInversions(order);
  }

  /** On an in-order prefix: one failure for each event it lacks, and no inversion. */
  method JudgePrefix(hash: Hash, c: Codec, events: seq<Event>, lines: seq<string>,
                     ghost iterId: int, ghost stamp: nat -> int, ghost k: nat) returns (failures: nat, inversions: nat)
    requires WellFormed(events, iterId, hash) && k <= |events|
    requires Delivered(c, PREFIX, lines) == Stamped(events, iterId, stamp)[..k]
    ensures failures == |events| - k && inversions == 0
  {
    failures, inversions := Judge(hash, c, events, lines);
    PrefixCounts(hash, events, iterId, stamp, k);
  }

  lemma StampedAreSendable(raw: seq<Byte>, iterId: int, nTarget: nat, hash: Hash, c: Codec, stamp: nat -> int,
                           events: seq<Event>)
    requires WellFormed(events, iterId, hash) && Join(Chunks(events)) == raw && |events| <= nTarget
    requires forall i: nat, b :: i < nTarget && |b| <= |raw| ==> Sendable(c, EventFrame(stamp, hash, iterId, i, b))
    ensures AllSendable(c, Stamped(events, iterId, stamp))
  {
    var frames := Stamped(events, iterId, stamp);
    forall i: nat | i < |frames| ensures Sendable(c, frames[i]) {
      JoinPrefix(Chunks(events), i);
      assert frames[i] == EventFrame(stamp, hash, iterId, i, events[i].bytes);
    }
  }

  /** For every non-empty text, every target of at least one event, every way of slicing the byte
      stream into non-empty reads and all clock stamps: the segments concatenate to the text, the
      peer delivers them in order with no inversion, it misses exactly those from the first frame
      over the cap on, and so there is no integrity failure exactly when every frame fits. */
  method DeliverText(raw: seq<Byte>, iterId: int, nTarget: nat, hash: Hash, c: Codec,
                     stamp: nat -> int, arrival: nat -> int, slice: seq<Byte> -> seq<seq<Byte>>)
      returns (events: seq<Event>, received: seq<Frame>, failures: nat, inversions: nat)
    requires raw != [] && nTarget >= 1 && Slices(slice)
    requires forall i: nat, b :: i < nTarget && |b| <= |raw| ==> Sendable(c, EventFrame(stamp, hash, iterId, i, b))
    ensures WellFormed(events, iterId, hash) && Join(Chunks(events)) == raw
    ensures |events| <= nTarget && |events| <= |raw| && (|events| == nTarget || |events| == |raw|)
    ensures failures == |events| - Accepted(Payloads(c, Stamped(events, iterId, stamp)))
    ensures received == Stamped(events, iterId, stamp)[..|events| - failures]
    ensures failures == 0 <==> AllAcceptable(Payloads(c, Stamped(events, iterId, stamp)))
    ensures inversions == 0
  {
    var cut := SegmentText(raw, iterId, nTarget, hash);
    events := cut.value;
    var frames := Stamped(events, iterId, stamp);
    StampedAreSendable(raw, iterId, nTarget, hash, c, stamp, events);
    PayloadsPackable(c, frames);
    var lines := Carry(c, frames, arrival, slice, nTarget);
    received := Delivered(c, PREFIX, lines);
    ghost var k := Accepted(Payloads(c, frames));
    failures, inversions := JudgePrefix(hash, c, events, lines, iterId, stamp, k);
    PeerDecodes(Payloads(c, frames));
  }
}
