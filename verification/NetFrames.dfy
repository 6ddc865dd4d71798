/**
 The message stream between two peers (src/net.cpp, src/protocol.h): headers of 24 bytes that give the
 size of the data behind them.
 */
module NetFrames {
  type Byte = b: nat | b < 256

  const HEADER_SIZE: nat := 24
  const MESSAGE_SIZE_OFFSET: nat := 16
  const MAX_SIZE: nat := 0x02000000
  const MAX_PROTOCOL_MESSAGE_LENGTH: nat := 16_000_000

  /** A message, or the beginning of one. */
  datatype Frame = Frame(header: seq<Byte>, data: seq<Byte>)

  /** The size in a header, lowest byte first. */
  function SizeIn(header: seq<Byte>): nat
    requires |header| == HEADER_SIZE
  {
    var o := MESSAGE_SIZE_OFFSET;
    var b0: nat, b1: nat, b2: nat, b3: nat := header[o], header[o + 1], header[o + 2], header[o + 3];
    b0 + 0x100 * b1 + 0x10000 * b2 + 0x1000000 * b3
  }

  /** The size is at offset 16, four bytes, the lowest first. */
  lemma SizeIs(header: seq<Byte>)
    requires |header| == 24
    ensures SizeIn(header) == (header[16] as nat) + 256 * (header[17] as nat) + 65536 * (header[18] as nat) + 16777216 * (header[19] as nat)
  {
  }

  predicate IsComplete(f: Frame) {
    |f.header| == HEADER_SIZE && |f.data| == SizeIn(f.header)
  }

  function Bytes(f: Frame): seq<Byte> {
    f.header + f.data
  }

  function AllBytes(fs: seq<Frame>): seq<Byte> {
    if fs == [] then [] else Bytes(fs[0]) + AllBytes(fs[1..])
  }

  // ---------------------------------------------------------------- the meaning of a stream

  /** The frames of a stream, up to the first that is too large. */
  datatype Parsed = Parsed(frames: seq<Frame>, ok: bool)

  function Parse(s: seq<Byte>): (r: Parsed)
    ensures s != [] ==> r.frames != []
    decreases |s|
  {
    if s == [] then Parsed([], true)
    else if |s| < HEADER_SIZE then Parsed([Frame(s, [])], true)
    else
      var header := s[..HEADER_SIZE];
      var n := SizeIn(header);
      if n > MAX_PROTOCOL_MESSAGE_LENGTH then Parsed([Frame(header, [])], false)
      else if |s| <= HEADER_SIZE + n then Parsed([Frame(header, s[HEADER_SIZE..])], true)
      else
        var rest := Parse(s[HEADER_SIZE + n..]);
        Parsed([Frame(header, s[HEADER_SIZE..HEADER_SIZE + n])] + rest.frames, rest.ok)
  }

  /** A header with a size above 16000000 is refused, and only such a one; nothing behind it is read. */
  lemma RefusedIff(s: seq<Byte>)
    requires |s| >= 24
    ensures SizeIn(s[..24]) > 16000000 <==> !Parse(s).ok && |Parse(s).frames| == 1
    ensures SizeIn(s[..24]) > 16000000 ==> Parse(s).frames[0].data == []
  {
    hide SizeIn;
  }

  function After(fs: seq<Frame>, r: Parsed): Parsed {
    Parsed(fs + r.frames, r.ok)
  }

  /** What becomes of frames when more bytes come: an incomplete last one is taken up again. */
  function Feed(fs: seq<Frame>, s: seq<Byte>): Parsed {
    if fs == [] || IsComplete(fs[|fs| - 1]) then After(fs, Parse(s))
    else After(fs[..|fs| - 1], Parse(Bytes(fs[|fs| - 1]) + s))
  }

  /** A message still to be completed: part of a header, or a header that is not too large and part of its data. */
  predicate IsPartial(f: Frame) {
    if |f.header| < HEADER_SIZE then f.header != [] && f.data == []
    else |f.header| == HEADER_SIZE && |f.data| <= SizeIn(f.header) <= MAX_PROTOCOL_MESSAGE_LENGTH
  }

  /** Complete messages, and at most one that is not. */
  predicate AreFrames(fs: seq<Frame>) {
    forall i | 0 <= i < |fs| :: IsPartial(fs[i]) && (i < |fs| - 1 ==> IsComplete(fs[i]))
  }

  lemma {:induction false} ParsedFrames(s: seq<Byte>)
    requires Parse(s).ok
    ensures AreFrames(Parse(s).frames)
    decreases |s|
  {
    if |s| >= HEADER_SIZE {
      var n := SizeIn(s[..HEADER_SIZE]);
      if n <= MAX_PROTOCOL_MESSAGE_LENGTH && |s| > HEADER_SIZE + n {
        ParsedFrames(s[HEADER_SIZE + n..]);
      }
    }
  }

  /** A single frame is read as itself. */
  lemma ParsePartial(f: Frame)
    requires IsPartial(f)
    ensures Parse(Bytes(f)) == Parsed([f], true)
  {
    var s := Bytes(f);
    if |f.header| < HEADER_SIZE {
      assert s == f.header;
    } else {
      assert s[..HEADER_SIZE] == f.header && s[HEADER_SIZE..] == f.data;
    }
  }

  /** A complete one is read before what comes behind it. */
  lemma ParseComplete(f: Frame, s: seq<Byte>)
    requires IsPartial(f) && IsComplete(f)
    ensures Parse(Bytes(f) + s) == After([f], Parse(s))
  {
    var t := Bytes(f) + s;
    var n := HEADER_SIZE + |f.data|;
    assert t[..HEADER_SIZE] == f.header && t[HEADER_SIZE..n] == f.data && t[n..] == s;
    if s == [] {
      assert t[HEADER_SIZE..] == f.data;
    }
  }

  lemma FeedNothing(fs: seq<Frame>)
    requires AreFrames(fs)
    ensures Feed(fs, []) == Parsed(fs, true)
  {
    hide IsComplete;
    if fs != [] && !IsComplete(fs[|fs| - 1]) {
      var f := fs[|fs| - 1];
      assert Bytes(f) + [] == Bytes(f);
      ParsePartial(f);
      assert fs == fs[..|fs| - 1] + [f];
    }
  }

  /** Complete messages in front do not matter for the rest. */
  lemma FeedAfter(fs: seq<Frame>, gs: seq<Frame>, s: seq<Byte>)
    requires forall i | 0 <= i < |fs| :: IsComplete(fs[i])
    ensures Feed(fs + gs, s) == After(fs, Feed(gs, s))
  {
    hide IsComplete, Parse;
    if gs == [] {
      assert fs + gs == fs;
    } else {
      assert (fs + gs)[|fs + gs| - 1] == gs[|gs| - 1];
      assert (fs + gs)[..|fs + gs| - 1] == fs + gs[..|gs| - 1];
    }
  }

  /** How a stream is cut does not matter: feeding on goes on with the parse. */
  lemma {:induction false} FeedParse(s: seq<Byte>, t: seq<Byte>)
    requires Parse(s).ok
    ensures Feed(Parse(s).frames, t) == Parse(s + t)
    decreases |s|
  {
    if s == [] {
      assert s + t == t;
    } else if |s| < HEADER_SIZE {
      assert Bytes(Frame(s, [])) == s;
    } else {
      FeedParseLong(s, t);
    }
  }

  /** The first frame of a long enough stream. */
  lemma ParseFirst(s: seq<Byte>, f: Frame, u: seq<Byte>)
    requires IsComplete(f) && u != [] && s == Bytes(f) + u
    ensures Parse(s).ok ==> IsPartial(f)
    ensures IsPartial(f) ==> Parse(s) == After([f], Parse(u))
  {
    assert s[..HEADER_SIZE] == f.header;
    if IsPartial(f) {
      ParseComplete(f, u);
    }
  }

  lemma {:induction false} FeedParseLong(s: seq<Byte>, t: seq<Byte>)
    requires Parse(s).ok && |s| >= HEADER_SIZE
    ensures Feed(Parse(s).frames, t) == Parse(s + t)
    decreases |s|, 0
  {
    hide SizeIn, Feed;
    var n := HEADER_SIZE + SizeIn(s[..HEADER_SIZE]);
    if |s| <= n {
      FeedParseShort(s, t);
    } else {
      var f := Frame(s[..HEADER_SIZE], s[HEADER_SIZE..n]);
      var u := s[n..];
      assert s == Bytes(f) + u;
      ParseFirst(s, f, u);
      FeedParse(u, t);
      FeedAfter([f], Parse(u).frames, t);
      assert s + t == Bytes(f) + (u + t);
      ParseComplete(f, u + t);
    }
  }

  lemma FeedParseShort(s: seq<Byte>, t: seq<Byte>)
    requires Parse(s).ok && HEADER_SIZE <= |s| <= HEADER_SIZE + SizeIn(s[..HEADER_SIZE])
    ensures Feed(Parse(s).frames, t) == Parse(s + t)
  {
    hide SizeIn;
    var f := Frame(s[..HEADER_SIZE], s[HEADER_SIZE..]);
    assert s == Bytes(f);
    if IsComplete(f) {
      ParseComplete(f, t);
    }
  }

  /** Chunk after chunk, until one is refused. */
  function FeedAll(fs: seq<Frame>, chunks: seq<seq<Byte>>): Parsed
    decreases |chunks|
  {
    if chunks == [] then Parsed(fs, true) else
      var r := Feed(fs, chunks[0]);
      if r.ok then FeedAll(r.frames, chunks[1..]) else r
  }

  function Joined(chunks: seq<seq<Byte>>): seq<Byte> {
    if chunks == [] then [] else chunks[0] + Joined(chunks[1..])
  }

  /** A refused stream stays refused, and nothing behind matters. */
  lemma {:induction false} Refused(s: seq<Byte>, t: seq<Byte>)
    requires !Parse(s).ok
    ensures Parse(s + t) == Parse(s)
    decreases |s|
  {
    var n := SizeIn(s[..HEADER_SIZE]);
    assert (s + t)[..HEADER_SIZE] == s[..HEADER_SIZE];
    if n <= MAX_PROTOCOL_MESSAGE_LENGTH {
      var m := HEADER_SIZE + n;
      assert (s + t)[HEADER_SIZE..m] == s[HEADER_SIZE..m] && (s + t)[m..] == s[m..] + t;
      Refused(s[m..], t);
    }
  }

  /** Every way of cutting a stream gives the same frames and the same verdict. */
  lemma {:induction false} CutAnywhere(s: seq<Byte>, chunks: seq<seq<Byte>>)
    requires Parse(s).ok
    ensures FeedAll(Parse(s).frames, chunks) == Parse(s + Joined(chunks))
    decreases |chunks|
  {
    if chunks == [] {
      assert s + Joined(chunks) == s;
    } else {
      var t := s + chunks[0];
      FeedParse(s, chunks[0]);
      assert s + Joined(chunks) == t + Joined(chunks[1..]);
      if Parse(t).ok {
        CutAnywhere(t, chunks[1..]);
      } else {
        Refused(t, Joined(chunks[1..]));
      }
    }
  }

  // ---------------------------------------------------------------- one read

  /** Bytes that only make the last frame longer. */
  lemma FeedMore(fs: seq<Frame>, f: Frame, g: Frame, s: seq<Byte>, k: nat)
    requires !IsComplete(f) && k <= |s| && Bytes(g) == Bytes(f) + s[..k] && (IsComplete(g) ==> IsPartial(g))
    ensures Feed(fs + [f], s) == Feed(fs + [g], s[k..])
  {
    hide Parse, IsComplete, IsPartial;
    assert (fs + [f])[..|fs|] == fs && (fs + [g])[..|fs|] == fs;
    assert Bytes(f) + s == Bytes(g) + s[k..] by { assert s == s[..k] + s[k..]; }
    if IsComplete(g) {
      ParseComplete(g, s[k..]);
      assert fs + [g] + Parse(s[k..]).frames == fs + ([g] + Parse(s[k..]).frames);
    }
  }

  /** Bytes for a new frame. */
  lemma FeedNew(fs: seq<Frame>, s: seq<Byte>)
    requires fs == [] || IsComplete(fs[|fs| - 1])
    ensures Feed(fs, s) == Feed(fs + [Frame([], [])], s)
  {
    hide Parse;
    assert (fs + [Frame([], [])])[..|fs|] == fs;
    assert Bytes(Frame([], [])) + s == s;
  }

  /** A header that asks for too much. */
  lemma FeedTooLarge(fs: seq<Frame>, f: Frame, s: seq<Byte>)
    requires |f.header| == HEADER_SIZE && f.data == [] && SizeIn(f.header) > MAX_PROTOCOL_MESSAGE_LENGTH
    ensures Feed(fs + [f], s) == Parsed(fs + [f], false)
  {
    assert (fs + [f])[..|fs|] == fs;
    assert (Bytes(f) + s)[..HEADER_SIZE] == f.header;
  }
}
