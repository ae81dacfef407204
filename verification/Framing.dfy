/** The length-prefixed wire between the producer and the sibling peer: the encoder that
    prefixes each payload with a four-byte big-endian length, and the peer's incremental
    decoder, which sees the byte stream in reads of arbitrary size. */
module Framing {
  import opened Headers
  import opened Sequences

  /** The peer refuses any frame longer than 16 MiB. */
  const FRAME_CAP := 16 * 1024 * 1024

  // ----- the encoder -----

  /** Payloads `struct.pack` accepts. */
  predicate Packable(payload: seq<Byte>) { |payload| < 0x1_0000_0000 }

  /** Payloads the peer accepts: up to 16 MiB. */
  predicate Acceptable(payload: seq<Byte>) { |payload| <= 16_777_216 }

  predicate AllPackable(payloads: seq<seq<Byte>>) { forall p :: p in payloads ==> Packable(p) }

  predicate AllAcceptable(payloads: seq<seq<Byte>>) { forall p :: p in payloads ==> Acceptable(p) }

  function Encode(payload: seq<Byte>): (r: seq<Byte>)
    requires Packable(payload)
    ensures |r| == HEADER + |payload|
  {
    Header(|payload|) + payload
  }

  function EncodeAll(payloads: seq<seq<Byte>>): seq<Byte>
    requires AllPackable(payloads)
  {
    if payloads == [] then [] else Encode(payloads[0]) + EncodeAll(payloads[1..])
  }

  lemma {:induction false} EncodeAllAppend(a: seq<seq<Byte>>, b: seq<seq<Byte>>)
    requires AllPackable(a) && AllPackable(b)
    ensures AllPackable(a + b) && EncodeAll(a + b) == EncodeAll(a) + EncodeAll(b)
  {
    if a == [] {
      assert a + b == b;
    } else {
      assert (a + b)[1..] == a[1..] + b;
      EncodeAllAppend(a[1..], b);
    }
  }

  // ----- what a byte stream decodes to -----

  /** The complete frames of a stream, the bytes after them, and whether the decoder
      stopped because the next header announces more than the cap. */
  datatype Parsed = Parsed(frames: seq<seq<Byte>>, rest: seq<Byte>, tooLarge: bool)

  function Prepend(frames: seq<seq<Byte>>, p: Parsed): Parsed {
    Parsed(frames + p.frames, p.rest, p.tooLarge)
  }

  predicate Oversized(s: seq<Byte>) { |s| >= HEADER && Length(s[..HEADER]) > FRAME_CAP }

  predicate StartsWithFrame(s: seq<Byte>) {
    |s| >= HEADER && Length(s[..HEADER]) <= FRAME_CAP && |s| >= HEADER + Length(s[..HEADER])
  }

  function FrameSize(s: seq<Byte>): nat
    requires StartsWithFrame(s)
  {
    HEADER + Length(s[..HEADER])
  }

  function Parse(s: seq<Byte>): Parsed
    decreases |s|
  {
    if StartsWithFrame(s) then
      Prepend([s[HEADER..FrameSize(s)]], Parse(s[FrameSize(s)..]))
    else
      Parsed([], s, Oversized(s))
  }

  lemma EncodedHead(payload: seq<Byte>, rest: seq<Byte>)
    requires Packable(payload)
    ensures var s := Encode(payload) + rest;
            && s[..HEADER] == Header(|payload|)
            && s[HEADER..HEADER + |payload|] == payload && s[HEADER + |payload|..] == rest
  {
    assert (Encode(payload) + rest)[..HEADER] == Header(|payload|);
  }

  lemma FrameSplits(s: seq<Byte>)
    requires StartsWithFrame(s)
    ensures var n := FrameSize(s); Acceptable(s[HEADER..n]) && Encode(s[HEADER..n]) + s[n..] == s
  {
    HeaderOfLength(s[..HEADER]);
    assert s == s[..HEADER] + s[HEADER..FrameSize(s)] + s[FrameSize(s)..];
  }

  /** Nothing is lost or invented: what was decoded, encoded again, followed by the pending
      bytes, is the stream; and the pending bytes hold no complete frame. */
  lemma {:induction false} ParseAccountsForEveryByte(s: seq<Byte>)
    ensures var p := Parse(s);
            && AllAcceptable(p.frames)
            && EncodeAll(p.frames) + p.rest == s
            && !StartsWithFrame(p.rest)
            && p.tooLarge == Oversized(p.rest)
    decreases |s|
  {
    if StartsWithFrame(s) {
      var n := FrameSize(s);
      var tail := Parse(s[n..]);
      ParseAccountsForEveryByte(s[n..]);
      FrameSplits(s);
      var body := s[HEADER..n];
      JoinEncoded(body, tail.frames, tail.rest);
    }
  }

  lemma JoinEncoded(payload: seq<Byte>, more: seq<seq<Byte>>, rest: seq<Byte>)
    requires Packable(payload) && AllPackable(more)
    ensures AllPackable([payload] + more)
    ensures EncodeAll([payload] + more) + rest == Encode(payload) + (EncodeAll(more) + rest)
  {
    assert ([payload] + more)[1..] == more;
  }

  lemma PrependTwice(a: seq<seq<Byte>>, b: seq<seq<Byte>>, p: Parsed)
    ensures Prepend(a, Prepend(b, p)) == Prepend(a + b, p)
  {
    assert a + (b + p.frames) == (a + b) + p.frames;
  }

  lemma ParseStep(all: seq<Byte>, done: seq<seq<Byte>>, pending: seq<Byte>)
    requires StartsWithFrame(pending) && Parse(all) == Prepend(done, Parse(pending))
    ensures var n := FrameSize(pending);
            Parse(all) == Prepend(done + [pending[HEADER..n]], Parse(pending[n..]))
  {
    var n := FrameSize(pending);
    PrependTwice(done, [pending[HEADER..n]], Parse(pending[n..]));
  }

  lemma ParseNoMore(all: seq<Byte>, done: seq<seq<Byte>>, pending: seq<Byte>)
    requires !StartsWithFrame(pending) && Parse(all) == Prepend(done, Parse(pending))
    ensures Parse(all) == Parsed(done, pending, Oversized(pending))
  {
    assert done + [] == done;
  }

  /** Bytes that arrive later only extend the result: decoding a + b is decoding a and then
      resuming on what a left pending. */
  lemma {:induction false} ParseResumes(a: seq<Byte>, b: seq<Byte>)
    ensures var p := Parse(a);
            Parse(a + b) == if p.tooLarge then Parsed(p.frames, p.rest + b, true)
                            else Prepend(p.frames, Parse(p.rest + b))
    decreases |a|
  {
    if StartsWithFrame(a) {
      var n := FrameSize(a);
      assert (a + b)[..HEADER] == a[..HEADER];
      assert (a + b)[HEADER..n] == a[HEADER..n];
      assert (a + b)[n..] == a[n..] + b;
      ParseResumes(a[n..], b);
      var t := Parse(a[n..]);
      if !t.tooLarge {
        PrependTwice([a[HEADER..n]], t.frames, Parse(t.rest + b));
      }
    } else if Oversized(a) {
      assert (a + b)[..HEADER] == a[..HEADER];
    } else {
      assert [] + Parse(a + b).frames == Parse(a + b).frames;
    }
  }

  /** The decoder undoes the encoder, whatever incomplete tail follows: a torn frame yields
      nothing. */
  lemma {:induction false} ParseEncoded(payloads: seq<seq<Byte>>, tail: seq<Byte>)
    requires AllAcceptable(payloads)
    requires !StartsWithFrame(tail)
    ensures AllPackable(payloads)
    ensures Parse(EncodeAll(payloads) + tail) == Parsed(payloads, tail, Oversized(tail))
  {
    if payloads == [] {
      assert EncodeAll(payloads) + tail == tail;
    } else {
      ParseEncoded(payloads[1..], tail);
      assert payloads[0] in payloads;
      assert payloads == [payloads[0]] + payloads[1..];
      JoinEncoded(payloads[0], payloads[1..], tail);
      ParseHead(payloads[0], EncodeAll(payloads[1..]) + tail);
    }
  }

  lemma ParseHead(payload: seq<Byte>, more: seq<Byte>)
    requires Acceptable(payload)
    ensures Parse(Encode(payload) + more) == Prepend([payload], Parse(more))
  {
    LengthOfHeader(|payload|);
    EncodedHead(payload, more);
  }

  /** A proper prefix of an encoded frame is not a frame. */
  lemma TornFrame(payload: seq<Byte>, k: nat)
    requires Acceptable(payload) && k < HEADER + |payload|
    ensures !StartsWithFrame(Encode(payload)[..k]) && !Oversized(Encode(payload)[..k])
  {
    if k >= HEADER {
      LengthOfHeader(|payload|);
      assert Encode(payload)[..k][..HEADER] == Header(|payload|);
    }
  }

  lemma {:induction false} ParseStopsAtOversized(payloads: seq<seq<Byte>>, k: nat)
    requires AllPackable(payloads) && k < |payloads|
    requires AllAcceptable(payloads[..k]) && !Acceptable(payloads[k])
    ensures var p := Parse(EncodeAll(payloads)); p.frames == payloads[..k] && p.tooLarge
  {
    var tail := EncodeAll(payloads[k..]);
    EncodeAllAppend(payloads[..k], payloads[k..]);
    assert payloads == payloads[..k] + payloads[k..];
    EncodedHead(payloads[k], EncodeAll(payloads[k..][1..]));
    ParseEncoded(payloads[..k], tail);
  }

  /** The whole stream comes back exactly when no payload exceeds the cap; otherwise the
      decoder delivers the payloads before the first oversized one and stops there. */
  lemma DecodesIffAcceptable(payloads: seq<seq<Byte>>)
    requires AllPackable(payloads)
    ensures Parse(EncodeAll(payloads)) == Parsed(payloads, [], false) <==> AllAcceptable(payloads)
    ensures forall k :: 0 <= k < |payloads| && AllAcceptable(payloads[..k]) && !Acceptable(payloads[k])
              ==> Parse(EncodeAll(payloads)).frames == payloads[..k] && Parse(EncodeAll(payloads)).tooLarge
  {
    if AllAcceptable(payloads) {
      ParseEncoded(payloads, []);
      assert EncodeAll(payloads) + [] == EncodeAll(payloads);
    } else {
      ParseAccountsForEveryByte(EncodeAll(payloads));
    }
    forall k | 0 <= k < |payloads| && AllAcceptable(payloads[..k]) && !Acceptable(payloads[k])
      ensures Parse(EncodeAll(payloads)).frames == payloads[..k] && Parse(EncodeAll(payloads)).tooLarge
    {
      ParseStopsAtOversized(payloads, k);
    }
  }
}
