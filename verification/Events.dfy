/** One generated text, cut into hashed events. */
module Events {
  import opened Sequences
  import opened Headers
  import opened Framing
  import opened Numbers
  import opened Text

  /** SHA-256 as an arbitrary function from bytes to hex digests. */
  type Hash = seq<Byte> -> string

  datatype Event = Event(chunkSeq: int, bytes: seq<Byte>, hash: string)

  // ----- the hash pre-image -----

  const BAR: Byte := 124

  /** The bytes of a decimal. */
  function Ascii(s: string): (r: seq<Byte>)
    requires DecimalText(s)
    ensures |r| == |s| && BAR !in r
    ensures forall k :: 0 <= k < |s| ==> r[k] == s[k] as int
  {
    if s == "" then [] else [s[0] as int] + Ascii(s[1..])
  }

  /** What is fed to the digest: decimal iteration id, bar, decimal sequence number, bar,
      payload. */
  function Preimage(iterId: int, chunkSeq: int, bytes: seq<Byte>): seq<Byte> {
    Ascii(Decimal(iterId)) + [BAR] + (Ascii(Decimal(chunkSeq)) + [BAR] + bytes)
  }

  function HashChunk(hash: Hash, iterId: int, chunkSeq: int, bytes: seq<Byte>): string {
    hash(Preimage(iterId, chunkSeq, bytes))
  }

  lemma {:induction false} AsciiInjective(s: string, t: string)
    requires DecimalText(s) && DecimalText(t)
    requires Ascii(s) == Ascii(t)
    ensures s == t
  {
    assert |s| == |Ascii(s)| == |Ascii(t)| == |t|;
    if s != "" {
      assert Ascii(s)[0] == s[0] as int && Ascii(t)[0] == t[0] as int;
      assert Ascii(s)[1..] == Ascii(s[1..]) && Ascii(t)[1..] == Ascii(t[1..]);
      AsciiInjective(s[1..], t[1..]);
    }
  }

  /** Byte for byte: what the digest is fed is the iteration id, a bar, the sequence number, a bar, and the payload, in this order. */
  lemma PreimageLayout(hash: Hash, iterId: int, chunkSeq: int, bytes: seq<Byte>)
    ensures var p, i, s := Preimage(iterId, chunkSeq, bytes), Decimal(iterId), Decimal(chunkSeq);
            && HashChunk(hash, iterId, chunkSeq, bytes) == hash(p)
            && |p| == |i| + 1 + |s| + 1 + |bytes|
            && (forall k :: 0 <= k < |i| ==> p[k] == i[k] as int)
            && p[|i|] == 124
            && (forall k :: 0 <= k < |s| ==> p[|i| + 1 + k] == s[k] as int)
            && p[|i| + 1 + |s|] == 124
            && p[|i| + 1 + |s| + 1..] == bytes
  {
    var i, s := Ascii(Decimal(iterId)), Ascii(Decimal(chunkSeq));
    var tail := s + [BAR] + bytes;
    assert Preimage(iterId, chunkSeq, bytes) == i + [BAR] + tail;
    assert forall k :: 0 <= k < |s| ==> tail[k] == s[k];
  }

  /** The first bar ends the first field, whatever follows. */
  lemma FieldEndsAtBar(a: seq<Byte>, x: seq<Byte>, b: seq<Byte>, y: seq<Byte>)
    requires BAR !in a && BAR !in b
    requires a + [BAR] + x == b + [BAR] + y
    ensures a == b && x == y
  {
    var s := a + [BAR] + x;
    assert s[|a|] == BAR && s[|b|] == BAR;
    assert forall k :: 0 <= k < |a| ==> s[k] == a[k];
    assert forall k :: 0 <= k < |b| ==> s[k] == b[k];
    assert |a| == |b|;
    assert a == s[..|a|] && b == s[..|b|];
    assert x == s[|a| + 1..] && y == s[|b| + 1..];
  }

  /** Different (iteration, sequence, bytes) triples never feed the digest the same bytes. */
  lemma PreimageInjective(i: int, s: int, x: seq<Byte>, j: int, t: int, y: seq<Byte>)
    requires Preimage(i, s, x) == Preimage(j, t, y)
    ensures i == j && s == t && x == y
  {
    FieldEndsAtBar(Ascii(Decimal(i)), Ascii(Decimal(s)) + [BAR] + x, Ascii(Decimal(j)), Ascii(Decimal(t)) + [BAR] + y);
    FieldEndsAtBar(Ascii(Decimal(s)), x, Ascii(Decimal(t)), y);
    AsciiInjective(Decimal(i), Decimal(j));
    AsciiInjective(Decimal(s), Decimal(t));
    DecimalInjective(i, j);
    DecimalInjective(s, t);
  }

  // ----- segmentation -----

  function Chunks(events: seq<Event>): (r: seq<seq<Byte>>)
    ensures |r| == |events| && forall i :: 0 <= i < |r| ==> r[i] == events[i].bytes
  {
    seq(|events|, i requires 0 <= i < |events| => events[i].bytes)
  }

  /** The events of one iteration: numbered from zero and hashed over their own content. */
  predicate WellFormed(events: seq<Event>, iterId: int, hash: Hash) {
    forall i :: 0 <= i < |events| ==>
      events[i].chunkSeq == i && events[i].hash == HashChunk(hash, iterId, i, events[i].bytes)
  }

  /** The length of segment i when `total` bytes go into n segments: the surplus bytes go one
      each to the last segments. */
  function SegmentLength(total: nat, n: nat, i: nat): nat
    requires n > 0
  {
    total / n + (if i >= n - total % n then 1 else 0)
  }

  /** Where segment i starts. */
  function SegmentStart(total: nat, n: nat, i: nat): int
    requires n > 0
  {
    i * (total / n) + (if i > n - total % n then i - (n - total % n) else 0)
  }

  lemma SegmentsTile(total: nat, n: nat, i: nat)
    requires n > 0 && i < n
    ensures 0 <= SegmentStart(total, n, i)
    ensures SegmentStart(total, n, i) + SegmentLength(total, n, i) == SegmentStart(total, n, i + 1) <= total
    ensures SegmentStart(total, n, n) == total
  {
    Rows(total / n, n, i);
  }

  lemma Rows(base: nat, n: nat, i: nat)
    requires i < n
    ensures 0 <= i * base && (i + 1) * base == i * base + base && (i + 1) * base <= n * base
  {
    var rest := n - i - 1;
    NoLess(i, base);
    NoLess(rest, base);
    assert (i + 1 + rest) * base == (i + 1) * base + rest * base;
  }

  lemma NoLess(k: nat, base: nat)
    ensures k * base >= 0 && (k + 1) * base == k * base + base
  {
  }

  /** No segment is empty, any two differ in length by at most one byte, and the longer ones
      come last. */
  lemma SegmentsAreEven(total: nat, n: nat, i: nat, j: nat)
    requires 0 < n <= total && i <= j < n
    ensures 1 <= SegmentLength(total, n, i) <= SegmentLength(total, n, j) <= SegmentLength(total, n, i) + 1
  {
    assert total / n >= 1;
  }

  /** The first i events of the cut into n. */
  ghost predicate CutSoFar(raw: seq<Byte>, n: nat, events: seq<Event>, i: nat)
    requires n > 0
  {
    && |events| == i && 0 <= SegmentStart(|raw|, n, i) <= |raw|
    && Join(Chunks(events)) == raw[..SegmentStart(|raw|, n, i)]
    && forall k :: 0 <= k < i ==> |events[k].bytes| == SegmentLength(|raw|, n, k)
  }

  lemma CutOneMore(raw: seq<Byte>, n: nat, events: seq<Event>, i: nat, event: Event)
    requires 0 <= i < n && CutSoFar(raw, n, events, i)
    requires 0 <= SegmentStart(|raw|, n, i) <= SegmentStart(|raw|, n, i) + SegmentLength(|raw|, n, i) <= |raw|
    requires event.bytes == raw[SegmentStart(|raw|, n, i)..SegmentStart(|raw|, n, i) + SegmentLength(|raw|, n, i)]
    ensures CutSoFar(raw, n, events + [event], i + 1)
  {
    SegmentsTile(|raw|, n, i);
    var at, len := SegmentStart(|raw|, n, i), SegmentLength(|raw|, n, i);
    assert Chunks(events + [event]) == Chunks(events) + [event.bytes];
    JoinAppend(Chunks(events), [event.bytes]);
    JoinSingle(event.bytes);
    assert raw[..at + len] == raw[..at] + event.bytes;
  }

  /** Cut the UTF-8 bytes of a text into at most `nTarget` contiguous events. A target of zero
      is a division by zero when there is text (None); a negative one yields no events. */
  method SegmentText(raw: seq<Byte>, iterId: int, nTarget: int, hash: Hash) returns (r: Option<seq<Event>>)
    ensures r.None? <==> raw != [] && nTarget == 0
    ensures raw == [] || nTarget < 0 ==> r == Some([])
    ensures raw != [] && nTarget > 0 ==>
              && |r.value| <= nTarget && |r.value| <= |raw| && (|r.value| == nTarget || |r.value| == |raw|)
              && WellFormed(r.value, iterId, hash)
              && Join(Chunks(r.value)) == raw
              && (forall i :: 0 <= i < |r.value| ==>
                    |r.value[i].bytes| == SegmentLength(|raw|, |r.value|, i))
  {
    var total := |raw|;
    if total == 0 { return Some([]); }
    if nTarget == 0 { return None; }
    if nTarget < 0 { return Some([]); }
    var n := Min(nTarget, total);
    var base, remainder := total / n, total % n;
    var events: seq<Event> := [];
    var cursor := 0;
    for i := 0 to n
      invariant CutSoFar(raw, n, events, i) && cursor == SegmentStart(total, n, i)
      invariant WellFormed(events, iterId, hash)
    {
      SegmentsTile(total, n, i);
      var segLen := base + (if i >= n - remainder then 1 else 0);
      var bytes := raw[cursor..cursor + segLen];
      var event := Event(i, bytes, HashChunk(hash, iterId, i, bytes));
      CutOneMore(raw, n, events, i, event);
      cursor := cursor + segLen;
      events := events + [event];
    }
    SegmentsTile(total, n, n - 1);
    assert raw[..total] == raw;
    return Some(events);
  }
}
