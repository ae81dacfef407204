/** The gates: consumer lines back to frames, re-hashed and ordered, judged by an integrity
    counter and an ordering counter; and what two zeros mean. */
module Gates {
  import opened Sequences
  import opened Headers
  import opened Framing
  import opened Text
  import opened Events

  datatype Frame = Frame(stamp: int, chunkSeq: int, iterId: int, bytes: seq<Byte>, hash: string)

  /** The JSON and base64 codecs. */
  datatype Codec = Codec(encode: Frame -> seq<Byte>, decode: seq<Byte> -> Option<Frame>,
                         armour: seq<Byte> -> string, unarmour: string -> Option<seq<Byte>>)

  /** The codecs undo each other on a frame, whose armoured JSON is a non-empty token. */
  predicate RoundTrips(c: Codec, f: Frame) {
    var payload := c.encode(f);
    var body := c.armour(payload);
    && c.decode(payload) == Some(f) && c.unarmour(body) == Some(payload)
    && body != "" && NoSpace(body)
  }

  // ----- one consumer line -----

  const BODY := "body_b64"
  const PREFIX := "UDS_CHUNK"

  /** The tokens as key and value. */
  function Pairs(tokens: seq<string>): (r: seq<(string, string)>)
    ensures |r| == |tokens| && forall i :: 0 <= i < |r| ==> r[i] == Partition(tokens[i], '=')
  {
    if tokens == [] then [] else Pairs(tokens[..|tokens| - 1]) + [Partition(tokens[|tokens| - 1], '=')]
  }

  /** The value of the last pair with the body key. */
  function LastBody(pairs: seq<(string, string)>): Option<string> {
    if pairs == [] then None
    else
      var (key, value) := pairs[|pairs| - 1];
      if key == BODY then Some(value) else LastBody(pairs[..|pairs| - 1])
  }

  /** Pair k is the last one with the key, and it has this value. */
  predicate LastBodyAt(pairs: seq<(string, string)>, k: int, value: string) {
    0 <= k < |pairs| && pairs[k] == (BODY, value) && forall j :: k < j < |pairs| ==> pairs[j].0 != BODY
  }

  lemma {:induction false} LastBodyIff(pairs: seq<(string, string)>, value: string)
    ensures LastBody(pairs) == Some(value) <==> exists k :: LastBodyAt(pairs, k, value)
  {
    if pairs != [] {
      var n := |pairs| - 1;
      var front := pairs[..n];
      LastBodyIff(front, value);
      if pairs[n].0 == BODY {
        assert pairs[n].1 == value ==> LastBodyAt(pairs, n, value);
      } else {
        forall k ensures LastBodyAt(pairs, k, value) <==> LastBodyAt(front, k, value) {
          assert forall j :: 0 <= j < n ==> front[j] == pairs[j];
        }
      }
    }
  }

  /** The pairs of `line.split()[1:]`. */
  function LinePairs(line: string): (r: seq<(string, string)>)
    ensures forall i :: 0 <= i < |r| ==> i + 1 < |Split(line)| && r[i] == Partition(Split(line)[i + 1], '=')
    ensures |r| + 1 == |Split(line)| || (r == [] && Split(line) == [])
  {
    var tokens := Split(line);
    Pairs(tokens[if tokens == [] then 0 else 1..])
  }

  /** The loop over `line.split()[1:]`. */
  method BodyToken(line: string) returns (body: Option<string>)
    ensures body == LastBody(LinePairs(line))
  {
    var tokens := Split(line);
    var rest := tokens[if tokens == [] then 0 else 1..];
    body := None;
    for i := 0 to |rest|
      invariant body == LastBody(Pairs(rest[..i]))
    {
      PairsStep(rest, i);
      var (key, value) := Partition(rest[i], '=');
      if key == BODY {
        body := Some(value);
      }
    }
    assert rest[..|rest|] == rest;
  }

  lemma PairsStep(tokens: seq<string>, i: nat)
    requires i < |tokens|
    ensures var (key, value) := Partition(tokens[i], '=');
            LastBody(Pairs(tokens[..i + 1])) == if key == BODY then Some(value) else LastBody(Pairs(tokens[..i]))
  {
    assert tokens[..i + 1][..i] == tokens[..i];
    var front, last := Pairs(tokens[..i]), Partition(tokens[i], '=');
    assert (front + [last])[..i] == front;
  }

  /** The frame a line delivers: None for a line without the prefix, without a body, or whose
      body does not decode. */
  function FrameOf(c: Codec, prefix: string, line: string): Option<Frame> {
    if !(prefix <= line) then None
    else
      match LastBody(LinePairs(line))
      case None => None
      case Some(body) =>
        match c.unarmour(body)
        case None => None
        case Some(raw) => c.decode(raw)
  }

  /** The body decodes to the frame. */
  predicate BodyHolds(c: Codec, body: string, f: Frame) {
    c.unarmour(body).Some? && c.decode(c.unarmour(body).value) == Some(f)
  }

  /** A line delivers a frame exactly when it starts with the prefix and, after its first token, the
      last token with the body key un-armours and decodes to that frame. */
  lemma DecodableIff(c: Codec, prefix: string, line: string, f: Frame)
    ensures FrameOf(c, prefix, line) == Some(f) <==>
            prefix <= line && exists k, body :: LastBodyAt(LinePairs(line), k, body) && BodyHolds(c, body, f)
  {
    var pairs := LinePairs(line);
    if LastBody(pairs).Some? {
      LastBodyIff(pairs, LastBody(pairs).value);
    }
    if k, body :| LastBodyAt(pairs, k, body) && BodyHolds(c, body, f) {
      LastBodyIff(pairs, body);
    }
  }

  /** What a decoder makes of the lines, in order; undecodable ones are skipped. */
  function Decoded(decoder: string -> Option<Frame>, lines: seq<string>): seq<Frame> {
    if lines == [] then []
    else
      var n := |lines| - 1;
      Decoded(decoder, lines[..n]) + (match decoder(lines[n]) case None => [] case Some(f) => [f])
  }

  lemma {:induction false} EveryLineDecodes(decoder: string -> Option<Frame>, lines: seq<string>, frames: seq<Frame>, n: nat)
    requires |lines| == |frames| && n <= |lines|
    requires forall i :: 0 <= i < |lines| ==> decoder(lines[i]) == Some(frames[i])
    ensures Decoded(decoder, lines[..n]) == frames[..n]
  {
    if n > 0 {
      EveryLineDecodes(decoder, lines, frames, n - 1);
      assert lines[..n][..n - 1] == lines[..n - 1] && frames[..n] == frames[..n - 1] + [frames[n - 1]];
    }
  }

  /** Every line contributes by itself: the frame it decodes to, or nothing. */
  lemma {:induction false} DecodedLineByLine(decoder: string -> Option<Frame>, a: seq<string>, line: string, b: seq<string>)
    ensures Decoded(decoder, a + [line] + b) ==
            Decoded(decoder, a) + (match decoder(line) case None => [] case Some(f) => [f]) + Decoded(decoder, b)
    decreases |b|
  {
    if b == [] {
      assert a + [line] + b == a + [line] && (a + [line])[..|a|] == a;
    } else {
      DecodedLineByLine(decoder, a, line, b[..|b| - 1]);
      AppendLast(a + [line], b);
    }
  }

  function Decoder(c: Codec, prefix: string): string -> Option<Frame> { line => FrameOf(c, prefix, line) }

  /** The decodable frames in line order. */
  function Delivered(c: Codec, prefix: string, lines: seq<string>): seq<Frame> { Decoded(Decoder(c, prefix), lines) }

  lemma DecodedStep(decoder: string -> Option<Frame>, lines: seq<string>, i: nat)
    requires i < |lines|
    ensures Decoded(decoder, lines[..i + 1]) ==
            Decoded(decoder, lines[..i]) + (match decoder(lines[i]) case None => [] case Some(f) => [f])
  {
    assert lines[..i + 1][..i] == lines[..i];
  }

  lemma DeliveredStep(c: Codec, prefix: string, lines: seq<string>, i: nat)
    requires i < |lines|
    ensures Delivered(c, prefix, lines[..i + 1]) ==
            Delivered(c, prefix, lines[..i])
            + (if FrameOf(c, prefix, lines[i]).Some? then [FrameOf(c, prefix, lines[i]).value] else [])
  {
    DecodedStep(Decoder(c, prefix), lines, i);
  }

  /** What the peer prints for one frame. */
  function ChunkLine(arrival: int, body: string): string {
    PREFIX + (" " + (("arrival_ns=" + Decimal(arrival)) + (" " + (BODY + "=" + body))))
  }

  /** A printed line reads back as the frame it carries, base64 padding included. */
  lemma ChunkLineReadsBack(c: Codec, arrival: int, f: Frame)
    requires RoundTrips(c, f)
    ensures FrameOf(c, PREFIX, ChunkLine(arrival, c.armour(c.encode(f)))) == Some(f)
  {
    BodyOfLine(arrival, c.armour(c.encode(f)));
  }

  lemma BodyOfLine(arrival: int, body: string)
    requires NoSpace(body)
    ensures LastBody(LinePairs(ChunkLine(arrival, body))) == Some(body)
  {
    var stamp, last := "arrival_ns=" + Decimal(arrival), BODY + "=" + body;
    DigitsAreNoSpace(Decimal(arrival));
    ThreeTokens(PREFIX, stamp, last);
    assert [PREFIX, stamp, last][1..] == [stamp, last];
    PartitionAtFirst(BODY, '=', body);
    assert BODY + ['='] + body == last;
    PairsStep([stamp, last], 1);
    assert [stamp, last][..2] == [stamp, last];
  }

  lemma ThreeTokens(x: string, y: string, z: string)
    requires x != "" && y != "" && z != "" && NoSpace(x) && NoSpace(y) && NoSpace(z)
    ensures Split(x + (" " + (y + (" " + z)))) == [x, y, z]
  {
    SplitToken(z, "");
    assert z + "" == z;
    SplitSpace(z);
    SplitToken(y, " " + z);
    SplitSpace(y + (" " + z));
    SplitToken(x, " " + (y + (" " + z)));
  }

  lemma SplitSpace(s: string)
    ensures Split(" " + s) == Split(s)
  {
    assert (" " + s)[1..] == s;
  }

  lemma DigitsAreNoSpace(s: string)
    requires DecimalText(s)
    ensures NoSpace(s)
  {
  }

  // ----- the three parsers and counters -----

  function HashOf(hash: Hash, f: Frame): string { HashChunk(hash, f.iterId, f.chunkSeq, f.bytes) }

  function Rehashes(hash: Hash, frames: seq<Frame>): map<int, string> {
    if frames == [] then map[]
    else
      var f := frames[|frames| - 1];
      Rehashes(hash, frames[..|frames| - 1])[f.chunkSeq := HashOf(hash, f)]
  }

  lemma RehashesStep(c: Codec, hash: Hash, prefix: string, lines: seq<string>, i: nat)
    requires i < |lines|
    ensures var f, before := FrameOf(c, prefix, lines[i]), Rehashes(hash, Delivered(c, prefix, lines[..i]));
            Rehashes(hash, Delivered(c, prefix, lines[..i + 1])) ==
            if f.None? then before else before[f.value.chunkSeq := HashOf(hash, f.value)]
  {
    DeliveredStep(c, prefix, lines, i);
    var f, frames := FrameOf(c, prefix, lines[i]), Delivered(c, prefix, lines[..i]);
    if f.Some? {
      assert (frames + [f.value])[..|frames|] == frames;
    } else {
      assert frames + [] == frames;
    }
  }

  function Order(frames: seq<Frame>): (r: seq<int>)
    ensures |r| == |frames| && forall i :: 0 <= i < |r| ==> r[i] == frames[i].chunkSeq
  {
    seq(|frames|, i requires 0 <= i < |frames| => frames[i].chunkSeq)
  }

  method DecodeLine(c: Codec, prefix: string, line: string) returns (frame: Option<Frame>)
    ensures frame == FrameOf(c, prefix, line)
  {
    if !(prefix <= line) { return None; }
    var body := BodyToken(line);
    if body.None? { return None; }
    var raw := c.unarmour(body.value);
    if raw.None? { return None; }
    return c.decode(raw.value);
  }

  method ParseDeliveredRehashes(c: Codec, hash: Hash, prefix: string, lines: seq<string>)
      returns (result: map<int, string>)
    ensures result == Rehashes(hash, Delivered(c, prefix, lines))
  {
    result := map[];
    for i := 0 to |lines|
      invariant result == Rehashes(hash, Delivered(c, prefix, lines[..i]))
    {
      RehashesStep(c, hash, prefix, lines, i);
      var frame := DecodeLine(c, prefix, lines[i]);
      if frame.Some? {
        result := result[frame.value.chunkSeq := HashOf(hash, frame.value)];
      }
    }
    assert lines[..|lines|] == lines;
  }

  method ParseDeliveredOrder(c: Codec, prefix: string, lines: seq<string>) returns (order: seq<int>)
    ensures order == Order(Delivered(c, prefix, lines))
  {
    order := [];
    for i := 0 to |lines|
      invariant order == Order(Delivered(c, prefix, lines[..i]))
    {
      DeliveredStep(c, prefix, lines, i);
      var frame := DecodeLine(c, prefix, lines[i]);
      if frame.Some? {
        order := order + [frame.value.chunkSeq];
      }
    }
    assert lines[..|lines|] == lines;
  }

  predicate Descent(order: seq<int>, i: int) { 1 <= i < |order| && order[i] < order[i - 1] }

  function Descents(order: seq<int>): set<int> {
    set i | 1 <= i < |order| && Descent(order, i)
  }

  method OrderingInversions(order: seq<int>) returns (inversions: nat)
    ensures inversions == |Descents(order)|
  {
    inversions := 0;
    ghost var seen: set<int> := {};
    var i := 1;
    while i < |order|
      invariant 1 <= i && (order != [] ==> i <= |order|)
      invariant seen == set k | 1 <= k < i && Descent(order, k)
      invariant inversions == |seen|
    {
      if order[i] < order[i - 1] {
        assert Descent(order, i);
        inversions := inversions + 1;
        seen := seen + {i};
      }
      i := i + 1;
    }
    assert seen == Descents(order);
  }

  function Failing<K>(source: map<K, string>, delivered: map<K, string>): set<K> {
    set k | k in source && (k !in delivered || delivered[k] != source[k])
  }

  /** The loop over the source manifest, in whatever order the dictionary yields its keys. */
  method DeliveryIntegrityFailures<K(==)>(source: map<K, string>, delivered: map<K, string>) returns (failures: nat)
    ensures failures == |Failing(source, delivered)|
  {
    failures := 0;
    var left := source.Keys;
    ghost var bad: set<K> := {};
    while left != {}
      invariant left <= source.Keys
      invariant bad == Failing(source, delivered) - left
      invariant failures == |bad|
      decreases left
    {
      var k :| k in left;
      if k !in delivered || delivered[k] != source[k] {
        failures := failures + 1;
        assert k !in bad;
        bad := bad + {k};
      }
      left := left - {k};
    }
    assert bad == Failing(source, delivered);
  }

  // ----- what a zero count means -----

  predicate Ascending(order: seq<int>) { forall i, j :: 0 <= i < j < |order| ==> order[i] <= order[j] }

  lemma {:induction false} ZeroDescentsIffAscending(order: seq<int>)
    ensures |Descents(order)| == 0 <==> Ascending(order)
  {
    if |Descents(order)| == 0 {
      assert forall k :: 1 <= k < |order| ==> k !in Descents(order);
      forall i, j | 0 <= i < j < |order| ensures order[i] <= order[j] {
        StepsAscend(order, i, j);
      }
    } else {
      var k :| k in Descents(order);
      assert order[k] < order[k - 1];
    }
  }

  lemma {:induction false} StepsAscend(order: seq<int>, i: nat, j: nat)
    requires i <= j < |order| && forall k :: 1 <= k < |order| ==> k !in Descents(order)
    ensures order[i] <= order[j]
    decreases j - i
  {
    if i < j {
      assert j !in Descents(order);
      StepsAscend(order, i, j - 1);
    }
  }

  /** The last delivered copy of a sequence number. */
  function LastCopy(frames: seq<Frame>, k: int): (r: Option<Frame>)
    ensures r.Some? <==> k in Order(frames)
    ensures r.Some? ==> r.value.chunkSeq == k && r.value in frames
  {
    if frames == [] then None
    else
      var n := |frames| - 1;
      assert frames == frames[..n] + [frames[n]] && Order(frames) == Order(frames[..n]) + [frames[n].chunkSeq];
      if frames[n].chunkSeq == k then Some(frames[n]) else LastCopy(frames[..n], k)
  }

  /** Frame i is the last one with the sequence number. */
  predicate LastCopyAt(frames: seq<Frame>, k: int, i: int) {
    0 <= i < |frames| && frames[i].chunkSeq == k && forall j :: i < j < |frames| ==> frames[j].chunkSeq != k
  }

  lemma {:induction false} LastCopyIsLast(frames: seq<Frame>, k: int, i: int)
    requires LastCopyAt(frames, k, i)
    ensures LastCopy(frames, k) == Some(frames[i])
  {
    var n := |frames| - 1;
    if i < n {
      assert frames[n].chunkSeq != k;
      LastCopyIsLast(frames[..n], k, i);
    }
  }

  /** Re-hashing keeps exactly the last copy of every delivered sequence number. */
  lemma {:induction false} RehashesKeepLastCopies(hash: Hash, frames: seq<Frame>, k: int)
    ensures k in Rehashes(hash, frames) <==> LastCopy(frames, k).Some?
    ensures k in Rehashes(hash, frames) ==> Rehashes(hash, frames)[k] == HashOf(hash, LastCopy(frames, k).value)
  {
    if frames != [] {
      RehashesKeepLastCopies(hash, frames[..|frames| - 1], k);
    }
  }

  /** The source manifest of one iteration. */
  function Manifest(events: seq<Event>): map<int, string> {
    map i | 0 <= i < |events| :: events[i].hash
  }

  /** The source content and the delivered content do not collide under the digest. */
  ghost predicate NoCollision(hash: Hash, events: seq<Event>, iterId: int, frames: seq<Frame>) {
    forall i, f :: 0 <= i < |events| && f in frames ==>
      HashChunk(hash, iterId, i, events[i].bytes) == HashOf(hash, f) ==>
        Preimage(iterId, i, events[i].bytes) == Preimage(f.iterId, f.chunkSeq, f.bytes)
  }

  /** Every source sequence number arrived, and its last copy carries the source bytes under the
      source iteration. */
  ghost predicate Intact(events: seq<Event>, iterId: int, frames: seq<Frame>) {
    forall i :: 0 <= i < |events| ==>
      && LastCopy(frames, i).Some?
      && LastCopy(frames, i).value.bytes == events[i].bytes
      && LastCopy(frames, i).value.iterId == iterId
  }

  /** Zero integrity failures means intact delivery, unless the digest collides on the content
      actually compared. */
  lemma ZeroFailuresIffIntact(hash: Hash, events: seq<Event>, iterId: int, frames: seq<Frame>)
    requires WellFormed(events, iterId, hash) && NoCollision(hash, events, iterId, frames)
    ensures |Failing(Manifest(events), Rehashes(hash, frames))| == 0 <==> Intact(events, iterId, frames)
  {
    var failing := Failing(Manifest(events), Rehashes(hash, frames));
    forall i | 0 <= i < |events|
      ensures i !in failing <==>
              LastCopy(frames, i).Some? && LastCopy(frames, i).value.bytes == events[i].bytes
              && LastCopy(frames, i).value.iterId == iterId
    {
      RehashesKeepLastCopies(hash, frames, i);
      if i !in failing {
        var f := LastCopy(frames, i).value;
        PreimageInjective(iterId, i, events[i].bytes, f.iterId, f.chunkSeq, f.bytes);
      }
    }
    if Intact(events, iterId, frames) {
      assert failing == {};
    }
  }

  // ----- both counters together -----

  /** Drop adjacent repeats. */
  function Collapse(order: seq<int>): seq<int> {
    var n := |order|;
    if n == 0 then []
    else if n > 1 && order[n - 1] == order[n - 2] then Collapse(order[..n - 1])
    else Collapse(order[..n - 1]) + [order[n - 1]]
  }

  function Iota(n: nat): (r: seq<int>)
    ensures |r| == n && forall i :: 0 <= i < n ==> r[i] == i
  {
    seq(n, i => i)
  }

  ghost predicate Covers(order: seq<int>, n: nat) { forall k :: k in order <==> 0 <= k < n }

  /** Ascending and covering 0..n-1 is the same as being 0, 1, .., n-1 up to adjacent repeats. */
  lemma {:induction false} AscendingCoverIffCollapses(order: seq<int>, n: nat)
    ensures Ascending(order) && Covers(order, n) <==> Collapse(order) == Iota(n)
    decreases |order|
  {
    var m := |order|;
    if m == 0 {
      assert 0 !in order;
    } else if m > 1 && order[m - 1] == order[m - 2] {
      AscendingCoverIffCollapses(order[..m - 1], n);
      RepeatIsHarmless(order, n);
    } else if n == 0 {
      assert order[0] in order;
    } else {
      AscendingCoverIffCollapses(order[..m - 1], n - 1);
      FreshLast(order, n);
      assert Iota(n) == Iota(n - 1) + [n - 1];
      assert Iota(n)[..n - 1] == Iota(n - 1);
    }
  }

  lemma RepeatIsHarmless(order: seq<int>, n: nat)
    requires |order| > 1 && order[|order| - 1] == order[|order| - 2]
    ensures var front := order[..|order| - 1];
            Ascending(front) && Covers(front, n) <==> Ascending(order) && Covers(order, n)
  {
    var m := |order|;
    var front := order[..m - 1];
    assert order == front + [order[m - 1]];
    assert front[m - 2] == order[m - 1];
    assert forall k :: k in order <==> k in front;
    assert Ascending(front) ==> Ascending(order);
  }

  lemma FreshLast(order: seq<int>, n: nat)
    requires n > 0 && |order| > 0 && (|order| > 1 ==> order[|order| - 1] != order[|order| - 2])
    ensures var m := |order|;
            Ascending(order) && Covers(order, n) <==>
            Ascending(order[..m - 1]) && Covers(order[..m - 1], n - 1) && order[m - 1] == n - 1
  {
    var m := |order|;
    if Ascending(order) && Covers(order, n) {
      DropLast(order, n);
    }
    if Ascending(order[..m - 1]) && Covers(order[..m - 1], n - 1) && order[m - 1] == n - 1 {
      AddLast(order[..m - 1], n);
      assert order == order[..m - 1] + [n - 1];
    }
  }

  lemma LastIsLargest(order: seq<int>, n: nat)
    requires n > 0 && |order| > 0 && Ascending(order) && Covers(order, n)
    ensures order[|order| - 1] == n - 1
  {
    assert n - 1 in order && order[|order| - 1] in order;
    var i :| 0 <= i < |order| && order[i] == n - 1;
    assert order[i] <= order[|order| - 1];
  }

  lemma FrontIsBelow(order: seq<int>, k: int)
    requires |order| > 1 && Ascending(order) && order[|order| - 1] != order[|order| - 2] && k in order[..|order| - 1]
    ensures k < order[|order| - 1]
  {
    var m := |order|;
    var j :| 0 <= j < m - 1 && order[j] == k;
    assert order[j] <= order[m - 2] <= order[m - 1];
  }

  lemma DropLast(order: seq<int>, n: nat)
    requires n > 0 && |order| > 0 && (|order| > 1 ==> order[|order| - 1] != order[|order| - 2])
    requires Ascending(order) && Covers(order, n)
    ensures Ascending(order[..|order| - 1]) && Covers(order[..|order| - 1], n - 1) && order[|order| - 1] == n - 1
  {
    var m := |order|;
    var front := order[..m - 1];
    LastIsLargest(order, n);
    assert order == front + [n - 1];
    forall k ensures k in front <==> 0 <= k < n - 1 {
      assert k in order <==> k in front || k == n - 1;
      if k in front {
        FrontIsBelow(order, k);
      }
    }
  }

  lemma AddLast(front: seq<int>, n: nat)
    requires n > 0 && Ascending(front) && Covers(front, n - 1)
    ensures Ascending(front + [n - 1]) && Covers(front + [n - 1], n)
  {
    var order := front + [n - 1];
    assert forall k :: k in order <==> k in front || k == n - 1;
    forall i, j | 0 <= i < j < |order| ensures order[i] <= order[j] {
      assert order[i] == front[i] && front[i] in front;
    }
  }

  /** The verdict: for deliveries drawn from the source sequence numbers, both counters are zero
      exactly when the seqs arrived as 0..n-1 up to adjacent repeats and the last copy of each
      carries the source bytes. */
  lemma GatesAreSound(hash: Hash, events: seq<Event>, iterId: int, frames: seq<Frame>)
    requires WellFormed(events, iterId, hash) && NoCollision(hash, events, iterId, frames)
    requires forall f :: f in frames ==> 0 <= f.chunkSeq < |events|
    ensures |Failing(Manifest(events), Rehashes(hash, frames))| == 0 && |Descents(Order(frames))| == 0
       <==> Collapse(Order(frames)) == Iota(|events|) && Intact(events, iterId, frames)
  {
    ZeroFailuresIffIntact(hash, events, iterId, frames);
    ZeroDescentsIffAscending(Order(frames));
    AscendingCoverIffCollapses(Order(frames), |events|);
    if Intact(events, iterId, frames) {
      forall k ensures k in Order(frames) <==> 0 <= k < |events| {
        if k in Order(frames) {
          var i :| 0 <= i < |frames| && Order(frames)[i] == k;
          assert frames[i] in frames;
        }
        if 0 <= k < |events| {
          assert LastCopy(frames, k).Some?;
        }
      }
    }
  }
}
