/** The peer's receive loop: reads of arbitrary size, frames taken off the front as they complete. */
module Receiver {
  import opened Headers
  import opened Sequences
  import opened Framing

  /** The inner loop: take complete frames off the front until a header or payload is cut
      short, or a header is over the cap. */
  method TakeFrames(bytes: seq<Byte>) returns (frames: seq<seq<Byte>>, pending: seq<Byte>, tooLarge: bool)
    ensures Parse(bytes) == Parsed(frames, pending, tooLarge)
  {
    frames, pending, tooLarge := [], bytes, false;
    while |pending| >= HEADER
      invariant Parse(bytes) == Prepend(frames, Parse(pending))
      decreases |pending|
    {
      var length := Length(pending[..HEADER]);
      if length > FRAME_CAP {
        tooLarge := true;
        break;
      }
      if |pending| < HEADER + length {
        break;
      }
      ParseStep(bytes, frames, pending);
      frames := frames + [pending[HEADER..HEADER + length]];
      pending := pending[HEADER + length..];
    }
    ParseNoMore(bytes, frames, pending);
  }

  /** What is decoded from the first k reads is a prefix of what all of them hold, and if they fail
      the rest adds no frame, as it adds none once there are as many. */
  lemma LaterReadsOnlyExtend(chunks: seq<seq<Byte>>, k: nat)
    requires k <= |chunks|
    ensures var p, all := Parse(Join(chunks[..k])), Parse(Join(chunks));
            p.frames <= all.frames
            && (k == |chunks| || p.tooLarge || |all.frames| <= |p.frames| ==> all.frames == p.frames)
  {
    assert k == |chunks| ==> chunks[..k] == chunks;
    assert chunks == chunks[..k] + chunks[k..];
    JoinAppend(chunks[..k], chunks[k..]);
    ParseResumes(Join(chunks[..k]), Join(chunks[k..]));
  }

  /** The peer process: the bytes it has not framed yet, the payloads it has printed, and
      how many. */
  class Peer {
    const expected: nat
    var pending: seq<Byte>
    var received: nat
    var printed: seq<seq<Byte>>
    var failed: bool

    /** Everything read so far. */
    ghost var read: seq<Byte>

    ghost predicate Valid()
      reads this
    {
      received == |printed| && Parse(read) == Parsed(printed, pending, failed)
    }

    constructor (expected: nat)
      ensures Valid() && this.expected == expected
      ensures read == [] && printed == [] && !failed
    {
      this.expected := expected;
      pending, received, printed, failed, read := [], 0, [], false, [];
    }

    /** One `recv`: append the chunk and print every frame it completes. An oversized header
        ends the process with an error. */
    method Feed(chunk: seq<Byte>)
      requires Valid() && !failed
      modifies this
      ensures Valid() && read == old(read) + chunk
    {
      ParseResumes(read, chunk);
      read := read + chunk;
      var frames, rest, tooLarge := TakeFrames(pending + chunk);
      printed := printed + frames;
      received := received + |frames|;
      pending, failed := rest, tooLarge;
    }

    /** The outer loop. `chunks` are the non-empty results of `recv` up to end of stream. The
        count is compared with `expected` only between reads, so a read that completes several
        frames can take `received` past `expected`. */
    method Serve(chunks: seq<seq<Byte>>) returns (ghost k: nat)
      requires Valid() && read == []
      requires forall r :: r in chunks ==> r != []
      modifies this
      ensures Valid() && k <= |chunks| && read == Join(chunks[..k])
      ensures k == |chunks| || failed || received >= expected
      ensures k > 0 ==> |Parse(Join(chunks[..k - 1])).frames| < expected && !Parse(Join(chunks[..k - 1])).tooLarge
      ensures printed <= Parse(Join(chunks)).frames
      ensures |Parse(Join(chunks)).frames| <= expected ==> printed == Parse(Join(chunks)).frames
      ensures printed != Parse(Join(chunks)).frames ==> |printed| >= expected
    {
      k := 0;
      var i := 0;
      assert chunks[..0] == [];
      while received < expected && i < |chunks|
        invariant 0 <= i == k <= |chunks|
        invariant Valid() && !failed
        invariant read == Join(chunks[..i])
        invariant i > 0 ==> |Parse(Join(chunks[..i - 1])).frames| < expected && !Parse(Join(chunks[..i - 1])).tooLarge
        decreases |chunks| - i
      {
        JoinPrefix(chunks, i);
        Feed(chunks[i]);
        i, k := i + 1, k + 1;
        if failed { break; }
      }
      LaterReadsOnlyExtend(chunks, k);
    }
  }
}
