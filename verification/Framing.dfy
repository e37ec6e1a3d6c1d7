/** relay/framing.py: length-prefixed frames carved out of a byte stream that
    arrives in arbitrary chunks. */
module Framing {
  import opened Common

  type Byte = x: int | 0 <= x < 256
  type Bytes = seq<Byte>

  const HEADER := 4

  // The four-byte big-endian signed length.
  function Length(s: Bytes): (n: int)
    requires |s| >= HEADER
    ensures n < 0x8000_0000
  {
    var u := s[0] as int * 0x100_0000 + s[1] as int * 0x1_0000 + s[2] as int * 0x100 + s[3] as int;
    if u >= 0x8000_0000 then u - 0x1_0000_0000 else u
  }

  // What reading a buffer yields: the frames cut, the bytes kept, and whether
  // reading stopped at a length that is negative or over the limit.
  datatype Reading = Reading(frames: seq<Bytes>, rest: Bytes, bad: bool)

  function Read(max: int, s: Bytes): (r: Reading)
    ensures |r.rest| <= |s|
    decreases |s|
  {
    if |s| < HEADER then Reading([], s, false)
    else
      var n := Length(s);
      if n < 0 || n > max then Reading([], s, true)
      else if |s| - HEADER < n then Reading([], s, false)
      else
        Prepend(s[HEADER..HEADER + n], Read(max, s[HEADER + n..]))
  }

  function Prepend(frame: Bytes, r: Reading): Reading {
    r.(frames := [frame] + r.frames)
  }

  // `q` read after `r`.
  function Then(r: Reading, q: Reading): Reading {
    Reading(r.frames + q.frames, q.rest, q.bad)
  }

  class FrameReader {
    const maxSize: int
    var buffer: Bytes

    constructor (maxSize: int)
      requires maxSize >= 1
      ensures this.maxSize == maxSize && buffer == []
    {
      this.maxSize := maxSize;
      buffer := [];
    }

    /** The source's `feed`. A bad length raises with the frames cut earlier in
        the same call already gone from the buffer. */
    method Feed(chunk: Bytes) returns (r: Result<seq<Bytes>>)
      modifies this
      ensures var reading := Read(maxSize, old(buffer) + chunk);
        && buffer == reading.rest
        && r == if reading.bad then Err(Invalid) else Ok(reading.frames)
      ensures r.Err? <==> HoldsBadLength(maxSize, buffer)
      ensures r.Ok? <==> AwaitsMore(maxSize, buffer)
    {
      StopsBadIff(maxSize, buffer + chunk);
      buffer := buffer + chunk;
      ghost var whole := Read(maxSize, buffer);
      var frames: seq<Bytes> := [];
      while true
        invariant whole == Then(Reading(frames, [], false), Read(maxSize, buffer))
        decreases |buffer|
      {
        if |buffer| < HEADER {
          break;
        }
        var length := Length(buffer);
        if length < 0 {
          return Err(Invalid);
        }
        if length > maxSize {
          return Err(Invalid);
        }
        if |buffer| - HEADER < length {
          break;
        }
        CutStep(frames, buffer[HEADER..HEADER + length], Read(maxSize, buffer[HEADER + length..]));
        frames := frames + [buffer[HEADER..HEADER + length]];
        buffer := buffer[HEADER + length..];
      }
      assert frames + [] == frames;
      return Ok(frames);
    }
  }

  lemma CutStep(frames: seq<Bytes>, f: Bytes, r: Reading)
    ensures Then(Reading(frames, [], false), Prepend(f, r)) == Then(Reading(frames + [f], [], false), r)
  {
  }

  // ---- when reading stops, and why

  // A whole header is there and its length is negative or over the limit.
  predicate HoldsBadLength(max: int, s: Bytes) {
    |s| >= HEADER && (Length(s) < 0 || Length(s) > max)
  }

  // Less than a header is there, or less than the frame it announces.
  predicate AwaitsMore(max: int, s: Bytes) {
    |s| < HEADER || (0 <= Length(s) <= max && |s| < HEADER + Length(s))
  }

  /** Reading stops bad exactly in front of a length that is negative or over the
      limit, and otherwise exactly for want of bytes. */
  lemma {:induction false} StopsBadIff(max: int, s: Bytes)
    ensures var r := Read(max, s);
      && (r.bad <==> HoldsBadLength(max, r.rest))
      && (!r.bad <==> AwaitsMore(max, r.rest))
    decreases |s|
  {
    if |s| >= HEADER && 0 <= Length(s) <= max && Length(s) <= |s| - HEADER {
      StopsBadIff(max, s[HEADER + Length(s)..]);
    }
  }

  /** What a feed that does not raise leaves buffered is less than a header and one
      frame of the largest size. */
  lemma BufferIsBounded(max: nat, s: Bytes)
    requires !Read(max, s).bad
    ensures |Read(max, s).rest| < HEADER + if max > 0 then max else 1
  {
    StopsBadIff(max, s);
  }

  /** The length is the four bytes read with the most significant first, in two's
      complement: negative exactly when the first byte has its top bit set. */
  lemma LengthIsSigned(s: Bytes)
    requires |s| >= HEADER
    ensures -0x8000_0000 <= Length(s) < 0x8000_0000
    ensures Length(s) < 0 <==> s[0] >= 128
    ensures Length(s) + (if s[0] >= 128 then 0x1_0000_0000 else 0) ==
            0x100_0000 * s[0] as int + 0x1_0000 * s[1] as int + 0x100 * s[2] as int + s[3] as int
  {
  }

  // ---- chunking

  lemma HeadOfLonger(s: Bytes, t: Bytes)
    requires |s| >= HEADER
    ensures Length(s + t) == Length(s)
    ensures 0 <= Length(s) <= |s| - HEADER ==>
      && (s + t)[HEADER..HEADER + Length(s)] == s[HEADER..HEADER + Length(s)]
      && (s + t)[HEADER + Length(s)..] == s[HEADER + Length(s)..] + t
  {
  }

  lemma ReadCuts(max: int, s: Bytes)
    requires |s| >= HEADER && 0 <= Length(s) <= max && Length(s) <= |s| - HEADER
    ensures Read(max, s) == Prepend(s[HEADER..HEADER + Length(s)], Read(max, s[HEADER + Length(s)..]))
  {
  }

  predicate HoldsFrame(max: int, s: Bytes) {
    |s| >= HEADER && 0 <= Length(s) <= max && Length(s) <= |s| - HEADER
  }

  // Reading `t` after `s` continues where reading `s` stopped.
  ghost predicate Continues(max: int, s: Bytes, t: Bytes) {
    var r := Read(max, s);
    Read(max, s + t) == if r.bad then Reading(r.frames, r.rest + t, true) else Then(r, Read(max, r.rest + t))
  }

  lemma ContinuesPastFrame(max: int, s: Bytes, t: Bytes)
    requires HoldsFrame(max, s) && Continues(max, s[HEADER + Length(s)..], t)
    ensures Continues(max, s, t)
  {
    var f, tail := s[HEADER..HEADER + Length(s)], s[HEADER + Length(s)..];
    var r := Read(max, tail);
    HeadOfLonger(s, t);
    ReadCuts(max, s);
    ReadCuts(max, s + t);
    PrependThen(f, r, Read(max, r.rest + t));
  }

  lemma ContinuesWithoutFrame(max: int, s: Bytes, t: Bytes)
    requires !HoldsFrame(max, s)
    ensures Continues(max, s, t)
  {
    if |s| >= HEADER { HeadOfLonger(s, t); }
  }

  /** Reading more bytes continues from the kept ones; a bad length stays bad. */
  lemma {:induction false} ReadContinues(max: int, s: Bytes, t: Bytes)
    ensures var r := Read(max, s);
      Read(max, s + t) ==
        if r.bad then Reading(r.frames, r.rest + t, true) else Then(r, Read(max, r.rest + t))
    decreases |s|
  {
    if HoldsFrame(max, s) {
      ReadContinues(max, s[HEADER + Length(s)..], t);
      ContinuesPastFrame(max, s, t);
    } else {
      ContinuesWithoutFrame(max, s, t);
    }
  }

  lemma PrependThen(f: Bytes, r: Reading, q: Reading)
    ensures Prepend(f, Then(r, q)) == Then(Prepend(f, r), q)
  {
  }

  // The outcome of feeding chunks until one raises: the frames returned, the
  // buffer, the frames the raising call had cut, and the chunks never fed.
  datatype Outcome = Outcome(frames: seq<Bytes>, buffer: Bytes, failed: bool, lost: seq<Bytes>, unfed: seq<Bytes>)

  function FeedAll(max: int, buffer: Bytes, chunks: seq<Bytes>): Outcome
    decreases |chunks|
  {
    if chunks == [] then Outcome([], buffer, false, [], [])
    else
      var r := Read(max, buffer + chunks[0]);
      if r.bad then Outcome([], r.rest, true, r.frames, chunks[1..])
      else
        var o := FeedAll(max, r.rest, chunks[1..]);
        o.(frames := r.frames + o.frames)
  }

  function Joined(chunks: seq<Bytes>): Bytes {
    if chunks == [] then [] else chunks[0] + Joined(chunks[1..])
  }

  // Nothing to cut and nothing wrong yet: every buffer a successful feed leaves.
  ghost predicate Settled(max: int, buffer: Bytes) {
    Read(max, buffer) == Reading([], buffer, false)
  }

  lemma {:induction false} RestIsSettled(max: int, s: Bytes)
    requires !Read(max, s).bad
    ensures Settled(max, Read(max, s).rest)
    decreases |s|
  {
    if |s| >= HEADER && Length(s) <= |s| - HEADER { RestIsSettled(max, s[HEADER + Length(s)..]); }
  }

  // The outcome accounts for the reading of the whole stream: the same frames,
  // of which a raising call loses those it had cut itself, and the same leftover.
  ghost predicate Accounts(o: Outcome, whole: Reading) {
    && o.failed == whole.bad
    && o.frames + o.lost == whole.frames
    && o.buffer + Joined(o.unfed) == whole.rest
    && (!o.failed ==> o.lost == [] && o.unfed == [])
  }

  lemma AccountsThen(o: Outcome, r: Reading, q: Reading)
    requires Accounts(o, q)
    ensures Accounts(o.(frames := r.frames + o.frames), Then(r, q))
  {
  }

  /** Framing does not depend on chunking. However a stream is cut, feeding it
      piece by piece yields the frames and leftover of feeding it whole; and if it
      holds a bad length, the same frames are cut before it, of which the call
      that raises loses those it had cut itself. */
  lemma {:induction false} ChunkingIsIrrelevant(max: int, buffer: Bytes, chunks: seq<Bytes>)
    requires Settled(max, buffer)
    ensures Accounts(FeedAll(max, buffer, chunks), Read(max, buffer + Joined(chunks)))
    decreases |chunks|
  {
    if chunks == [] {
      assert buffer + Joined(chunks) == buffer;
    } else {
      var first, more := buffer + chunks[0], Joined(chunks[1..]);
      var r := Read(max, first);
      assert buffer + Joined(chunks) == first + more;
      ReadContinues(max, first, more);
      if !r.bad {
        RestIsSettled(max, first);
        ChunkingIsIrrelevant(max, r.rest, chunks[1..]);
        AccountsThen(FeedAll(max, r.rest, chunks[1..]), r, Read(max, r.rest + more));
      }
    }
  }

  /** A stream without a bad length is framed alike however it is cut. */
  lemma GoodStreamsFrameAlike(max: int, xs: seq<Bytes>, ys: seq<Bytes>)
    requires Joined(xs) == Joined(ys)
    requires !Read(max, Joined(xs)).bad
    ensures FeedAll(max, [], xs) == FeedAll(max, [], ys)
  {
    ChunkingIsIrrelevant(max, [], xs);
    ChunkingIsIrrelevant(max, [], ys);
    assert [] + Joined(xs) == Joined(xs);
    var o, p := FeedAll(max, [], xs), FeedAll(max, [], ys);
    assert o.frames + [] == o.frames && o.buffer + [] == o.buffer;
    assert p.frames + [] == p.frames && p.buffer + [] == p.buffer;
  }

  lemma {:induction false} BadRestStaysBad(max: int, s: Bytes)
    requires Read(max, s).bad
    ensures Read(max, Read(max, s).rest) == Reading([], Read(max, s).rest, true)
    decreases |s|
  {
    var n := Length(s);
    if 0 <= n <= max { BadRestStaysBad(max, s[HEADER + n..]); }
  }

  /** Once a length has been refused, every later feed is refused too, returns
      nothing and only adds to the buffer. */
  lemma {:induction false} RefusalIsPermanent(max: int, s: Bytes, chunk: Bytes)
    requires Read(max, s).bad
    ensures Read(max, Read(max, s).rest + chunk) == Reading([], Read(max, s).rest + chunk, true)
  {
    BadRestStaysBad(max, s);
    ReadContinues(max, Read(max, s).rest, chunk);
  }

  // ---- encoding

  function Header(n: nat): (h: Bytes)
    requires n < 0x8000_0000
    ensures |h| == HEADER
  {
    [(n / 0x100_0000) as Byte, (n / 0x1_0000 % 256) as Byte, (n / 0x100 % 256) as Byte, (n % 256) as Byte]
  }

  lemma HeaderRoundTrip(n: nat, payload: Bytes)
    requires n < 0x8000_0000
    ensures Length(Header(n) + payload) == n
  {
    var a, b, c := n / 0x100, n / 0x1_0000, n / 0x100_0000;
    assert n == 0x100 * a + n % 0x100;
    assert b == a / 0x100 && a == 0x100 * b + a % 0x100;
    assert c == b / 0x100 && b == 0x100 * c + b % 0x100;
  }

  lemma LengthDetermines(s: Bytes)
    requires |s| >= HEADER && Length(s) >= 0
    ensures Header(Length(s)) == s[..HEADER]
  {
    BytesOf(s[0], s[1], s[2], s[3]);
  }

  lemma BytesOf(a: Byte, b: Byte, c: Byte, d: Byte)
    ensures var n := 0x100_0000 * a as int + 0x1_0000 * b as int + 0x100 * c as int + d as int;
      n / 0x100_0000 == a && n / 0x1_0000 % 0x100 == b && n / 0x100 % 0x100 == c && n % 0x100 == d
  {
    var n := 0x100_0000 * a as int + 0x1_0000 * b as int + 0x100 * c as int + d as int;
    assert n / 0x100 == 0x1_0000 * a as int + 0x100 * b as int + c as int;
    assert n / 0x1_0000 == 0x100 * a as int + b as int;
  }

  function Encode(frame: Bytes): Bytes
    requires |frame| < 0x8000_0000
  {
    Header(|frame|) + frame
  }

  ghost predicate Encodable(frames: seq<Bytes>) {
    forall i :: 0 <= i < |frames| ==> |frames[i]| < 0x8000_0000
  }

  function EncodeAll(frames: seq<Bytes>): Bytes
    requires Encodable(frames)
  {
    if frames == [] then [] else Encode(frames[0]) + EncodeAll(frames[1..])
  }

  /** Framing undoes encoding: length-prefixed frames read back as themselves,
      with nothing left over, whatever follows still being read after them. */
  lemma {:induction false} ReadUndoesEncode(max: int, frames: seq<Bytes>)
    requires Encodable(frames)
    requires forall i :: 0 <= i < |frames| ==> |frames[i]| <= max
    ensures Read(max, EncodeAll(frames)) == Reading(frames, [], false)
  {
    if frames != [] {
      var f, tail := frames[0], EncodeAll(frames[1..]);
      var s := EncodeAll(frames);
      assert s == Header(|f|) + (f + tail);
      HeaderRoundTrip(|f|, f + tail);
      assert s[HEADER..HEADER + |f|] == f;
      assert s[HEADER + |f|..] == tail;
      ReadUndoesEncode(max, frames[1..]);
    }
  }

  /** And encoding undoes framing: no byte of a stream is lost or invented. */
  lemma {:induction false} EncodeUndoesRead(max: int, s: Bytes)
    ensures Encodable(Read(max, s).frames)
    ensures EncodeAll(Read(max, s).frames) + Read(max, s).rest == s
    decreases |s|
  {
    if |s| >= HEADER && 0 <= Length(s) <= max && Length(s) <= |s| - HEADER {
      var f, tail := s[HEADER..HEADER + Length(s)], s[HEADER + Length(s)..];
      EncodeUndoesRead(max, tail);
      EncodePrepends(f, Read(max, tail));
      assert Read(max, s) == Prepend(f, Read(max, tail));
      FrameIsEncoded(s);
    } else {
      assert Read(max, s).frames == [] && Read(max, s).rest == s;
      assert EncodeAll([]) + s == s;
    }
  }

  lemma FrameIsEncoded(s: Bytes)
    requires |s| >= HEADER && 0 <= Length(s) <= |s| - HEADER
    ensures Header(Length(s)) + s[HEADER..HEADER + Length(s)] + s[HEADER + Length(s)..] == s
  {
    LengthDetermines(s);
    assert s == s[..HEADER] + s[HEADER..HEADER + Length(s)] + s[HEADER + Length(s)..];
  }

  lemma EncodePrepends(f: Bytes, r: Reading)
    requires |f| < 0x8000_0000 && Encodable(r.frames)
    ensures var p := Prepend(f, r);
      Encodable(p.frames) && EncodeAll(p.frames) + p.rest == Header(|f|) + f + (EncodeAll(r.frames) + r.rest)
  {
  }

  /** So any chunking of an encoded sequence of frames delivers those frames. */
  lemma ChunkedRoundTrip(max: int, frames: seq<Bytes>, chunks: seq<Bytes>)
    requires Encodable(frames)
    requires forall i :: 0 <= i < |frames| ==> |frames[i]| <= max
    requires Joined(chunks) == EncodeAll(frames)
    ensures FeedAll(max, [], chunks) == Outcome(frames, [], false, [], [])
  {
    ReadUndoesEncode(max, frames);
    ChunkingIsIrrelevant(max, [], chunks);
    assert [] + Joined(chunks) == EncodeAll(frames);
  }

  // ---- exactly when the chunking shows

  lemma {:induction false} FramesWithinMax(max: int, s: Bytes)
    ensures forall i :: 0 <= i < |Read(max, s).frames| ==> |Read(max, s).frames[i]| <= max
    decreases |s|
  {
    if |s| >= HEADER && 0 <= Length(s) <= max && Length(s) <= |s| - HEADER {
      FramesWithinMax(max, s[HEADER + Length(s)..]);
    }
  }

  // The stream cut where its good frames end.
  function CutAtBad(max: int, s: Bytes): seq<Bytes> {
    EncodeUndoesRead(max, s);
    [EncodeAll(Read(max, s).frames), Read(max, s).rest]
  }

  lemma JoinedOne(x: Bytes)
    ensures Joined([x]) == x
  {
    assert Joined([x]) == x + Joined([]);
  }

  /** The raising call loses what it cut: fed whole, a stream with a bad length
      returns no frame and all those before it are lost. Cut where its good frames
      end, the same stream returns them all and loses none. */
  lemma LossDependsOnChunking(max: int, s: Bytes)
    requires Read(max, s).bad
    ensures Joined([s]) == s && Joined(CutAtBad(max, s)) == s
    ensures var r := Read(max, s);
      && FeedAll(max, [], [s]) == Outcome([], r.rest, true, r.frames, [])
      && FeedAll(max, [], CutAtBad(max, s)) == Outcome(r.frames, r.rest, true, [], [])
  {
    var r := Read(max, s);
    JoinedOne(s);
    assert [] + s == s && [s][1..] == [];
    EncodeUndoesRead(max, s);
    FramesWithinMax(max, s);
    ReadUndoesEncode(max, r.frames);
    BadRestStaysBad(max, s);
    var good, cut := EncodeAll(r.frames), CutAtBad(max, s);
    assert cut[1..] == [r.rest] && [r.rest][1..] == [];
    JoinedOne(r.rest);
    assert [] + good == good && [] + r.rest == r.rest;
    assert FeedAll(max, [], [r.rest]) == Outcome([], r.rest, true, [], []);
    assert r.frames + [] == r.frames;
  }

  // However it is cut, the stream returns the same frames.
  ghost predicate ChunkingNeverShows(max: int, s: Bytes) {
    forall xs, ys :: Joined(xs) == s && Joined(ys) == s ==> FeedAll(max, [], xs).frames == FeedAll(max, [], ys).frames
  }

  /** The chunking of a stream never shows in the frames returned exactly when the
      stream holds no bad length, or holds one before any frame is complete. */
  lemma ChunkingNeverShowsIff(max: int, s: Bytes)
    ensures ChunkingNeverShows(max, s) <==> !Read(max, s).bad || Read(max, s).frames == []
  {
    var r := Read(max, s);
    if r.bad {
      LossDependsOnChunking(max, s);
    }
    if !r.bad || r.frames == [] {
      forall xs | Joined(xs) == s ensures FeedAll(max, [], xs).frames == r.frames {
        FramesOfChunking(max, s, xs);
      }
    }
  }

  lemma FramesOfChunking(max: int, s: Bytes, xs: seq<Bytes>)
    requires Joined(xs) == s
    requires !Read(max, s).bad || Read(max, s).frames == []
    ensures FeedAll(max, [], xs).frames == Read(max, s).frames
  {
    ChunkingIsIrrelevant(max, [], xs);
    assert [] + s == s;
    var o := FeedAll(max, [], xs);
    assert o.frames + [] == o.frames;
  }
}
