/**
 Receiving messages (src/net.cpp, src/net.h): bytes are absorbed as they come, into the message at the
 back of a list.
 */
module NetReceive {
  import opened NetFrames

  const AHEAD: nat := 256 * 1024

  class NetMessage {
    var inData: bool
    var hdrbuf: seq<Byte>
    var nHdrPos: nat
    var nMessageSize: nat
    var vRecv: seq<Byte>
    var nDataPos: nat

    ghost predicate Valid()
      reads this
    {
      && |hdrbuf| == HEADER_SIZE && nHdrPos <= HEADER_SIZE && nDataPos <= |vRecv|
      && (if inData then nHdrPos == HEADER_SIZE && nMessageSize == SizeIn(hdrbuf) && |vRecv| <= nMessageSize
          else vRecv == [] && (nHdrPos == HEADER_SIZE ==> SizeIn(hdrbuf) > MAX_SIZE))
    }

    /** What has been received of it. */
    ghost function Value(): (f: Frame)
      reads this
    {
      if Valid() then Frame(hdrbuf[..nHdrPos], vRecv[..nDataPos]) else Frame([], [])
    }

    constructor ()
      ensures Valid() && Value() == Frame([], []) && !inData && nHdrPos == 0
    {
      inData, nHdrPos, nDataPos, vRecv := false, 0, 0, [];
      hdrbuf := seq(HEADER_SIZE, _ => 0);
      nMessageSize := 0xffffffff;
    }

    predicate Complete()
      reads this
    {
      inData && nMessageSize == nDataPos
    }

    lemma CompleteIs()
      requires Valid()
      ensures Complete() <==> IsComplete(Value())
      ensures Complete() ==> vRecv == Value().data
    {
      if nHdrPos == HEADER_SIZE {
        assert hdrbuf[..nHdrPos] == hdrbuf;
      }
      if Complete() {
        assert vRecv[..nDataPos] == vRecv;
      }
    }

    method ReadHeader(pch: seq<Byte>) returns (handled: int)
      requires Valid() && !inData && nHdrPos < HEADER_SIZE
      modifies this
      ensures Valid()
      ensures var was := old(Value());
        var k := if |pch| < HEADER_SIZE - |was.header| then |pch| else HEADER_SIZE - |was.header|;
        && Value() == Frame(was.header + pch[..k], [])
        && (handled == if nHdrPos == HEADER_SIZE && SizeIn(hdrbuf) > 0x02000000 then -1 else k)
        && (inData <==> handled >= 0 && nHdrPos == HEADER_SIZE)
    {
      var nRemaining := HEADER_SIZE - nHdrPos;
      var nCopy := if |pch| < nRemaining then |pch| else nRemaining;
      ghost var was := hdrbuf[..nHdrPos];
      hdrbuf := hdrbuf[..nHdrPos] + pch[..nCopy] + hdrbuf[nHdrPos + nCopy..];
      nHdrPos := nHdrPos + nCopy;
      assert hdrbuf[..nHdrPos] == was + pch[..nCopy];
      if nHdrPos < HEADER_SIZE {
        return nCopy;
      }
      nMessageSize := SizeIn(hdrbuf);
      if nMessageSize > MAX_SIZE {
        return -1;
      }
      inData := true;
      return nCopy;
    }

    method ReadData(pch: seq<Byte>) returns (handled: int)
      requires Valid() && inData
      modifies this
      ensures Valid() && inData
      ensures var was := old(Value());
        var k := if |pch| < nMessageSize - |was.data| then |pch| else nMessageSize - |was.data|;
        nMessageSize == old(nMessageSize) && handled == k && Value() == Frame(was.header, was.data + pch[..k])
    {
      var nRemaining := nMessageSize - nDataPos;
      var nCopy := if |pch| < nRemaining then |pch| else nRemaining;
      ghost var was := vRecv[..nDataPos];
      if |vRecv| < nDataPos + nCopy {
        var wanted := nDataPos + nCopy + AHEAD;
        var size := if nMessageSize < wanted then nMessageSize else wanted;
        vRecv := vRecv + seq(size - |vRecv|, _ => 0);
      }
      vRecv := vRecv[..nDataPos] + pch[..nCopy] + vRecv[nDataPos + nCopy..];
      nDataPos := nDataPos + nCopy;
      assert vRecv[..nDataPos] == was + pch[..nCopy];
      return nCopy;
    }
  }

  /** A message that bytes may still be absorbed into. */
  ghost predicate IsOpen(m: NetMessage)
    reads m
  {
    && m.Valid() && !m.Complete()
    && (if m.inData then m.nMessageSize <= MAX_PROTOCOL_MESSAGE_LENGTH else m.nHdrPos < HEADER_SIZE)
  }

  lemma OpenIs(m: NetMessage)
    requires m.Valid() && !m.Complete() && IsPartial(m.Value())
    ensures IsOpen(m)
  {
    if m.nHdrPos == HEADER_SIZE {
      assert m.hdrbuf[..m.nHdrPos] == m.hdrbuf;
    }
  }

  lemma OpenNew(m: NetMessage)
    requires m.Valid() && !m.inData && m.nHdrPos == 0
    ensures IsOpen(m)
  {
  }

  /** Absorbs some of the bytes; refuses a message that is too large once its header is there. */
  method Absorb(m: NetMessage, pch: seq<Byte>) returns (ok: bool, handled: nat, ghost took: nat)
    requires IsOpen(m) && pch != []
    modifies m
    ensures m.Valid() && 0 < took <= |pch| && Bytes(m.Value()) == Bytes(old(m.Value())) + pch[..took]
    ensures ok ==> handled == took && IsPartial(m.Value())
    ensures !ok ==> TooLarge(m.Value())
  {
    ghost var was := m.Value();
    var n: int;
    if !m.inData {
      took := if |pch| < HEADER_SIZE - m.nHdrPos then |pch| else HEADER_SIZE - m.nHdrPos;
      n := m.ReadHeader(pch);
      HeaderGrows(was, m.Value(), pch, took);
    } else {
      n := m.ReadData(pch);
      took := n;
      assert was.header + (was.data + pch[..n]) == was.header + was.data + pch[..n];
    }
    if m.nHdrPos == HEADER_SIZE {
      assert m.hdrbuf[..m.nHdrPos] == m.hdrbuf;
    }
    if n < 0 {
      return false, 0, took;
    }
    if m.inData && m.nMessageSize > MAX_PROTOCOL_MESSAGE_LENGTH {
      return false, 0, took;
    }
    return true, n, took;
  }

  predicate TooLarge(f: Frame) {
    |f.header| == HEADER_SIZE && f.data == [] && SizeIn(f.header) > MAX_PROTOCOL_MESSAGE_LENGTH
  }

  lemma HeaderGrows(f: Frame, g: Frame, s: seq<Byte>, k: nat)
    requires f.data == [] && k <= |s| && g == Frame(f.header + s[..k], [])
    ensures Bytes(g) == Bytes(f) + s[..k]
  {
  }

  ghost predicate AllValid(ms: seq<NetMessage>)
    reads ms
  {
    && (forall i, j | 0 <= i < j < |ms| :: ms[i] != ms[j])
    && (forall i | 0 <= i < |ms| :: ms[i].Valid())
  }

  lemma ValidBack(ms: seq<NetMessage>, m: NetMessage)
    requires AllValid(ms) && m.Valid() && m !in ms
    ensures AllValid(ms + [m])
  {
    hide NetMessage.Valid;
  }

  ghost function Frames(ms: seq<NetMessage>): (fs: seq<Frame>)
    reads ms
    ensures |fs| == |ms| && forall i | 0 <= i < |ms| :: fs[i] == ms[i].Value()
  {
    if ms == [] then [] else Frames(ms[..|ms| - 1]) + [ms[|ms| - 1].Value()]
  }

  lemma FramesJoin(ms: seq<NetMessage>, ns: seq<NetMessage>)
    ensures Frames(ms + ns) == Frames(ms) + Frames(ns)
  {
  }

  class Node {
    var vRecvMsg: seq<NetMessage>
    var vProcessMsg: seq<NetMessage>
    var nProcessQueueSize: nat
    var fPauseRecv: bool
    const nReceiveFloodSize: nat

    constructor (floodSize: nat)
      ensures Valid() && vRecvMsg == [] && vProcessMsg == [] && nProcessQueueSize == 0 && !fPauseRecv && nReceiveFloodSize == floodSize
    {
      vRecvMsg, vProcessMsg, nProcessQueueSize, fPauseRecv := [], [], 0, false;
      nReceiveFloodSize := floodSize;
    }

    /** Every message has its own object, those passed on are complete, and at most the last of the others is not. */
    ghost predicate Valid()
      reads this, vRecvMsg, vProcessMsg
    {
      AllValid(vProcessMsg + vRecvMsg) && AllDone(Frames(vProcessMsg)) && Lined(Frames(vRecvMsg))
    }

    /** All that has come, in order. */
    ghost function AllFrames(): seq<Frame>
      reads this, vRecvMsg, vProcessMsg
    {
      Frames(vProcessMsg) + Frames(vRecvMsg)
    }

    /** Gets the message at the back, if it is not complete, or puts a new one there. */
    method Current(ghost pch: seq<Byte>) returns (msg: NetMessage, ghost fs: seq<Frame>)
      requires AllValid(vRecvMsg) && AreFrames(Frames(vRecvMsg))
      modifies this`vRecvMsg
      ensures AllValid(vRecvMsg) && (vRecvMsg == old(vRecvMsg) || (fresh(msg) && vRecvMsg == old(vRecvMsg) + [msg]))
      ensures vRecvMsg != [] && msg == vRecvMsg[|vRecvMsg| - 1] && IsOpen(msg) && !IsComplete(msg.Value())
      ensures var front := vRecvMsg[..|vRecvMsg| - 1]; AllValid(front) && msg !in front && Frames(front) == fs && AllDone(fs)
      ensures Feed(fs + [msg.Value()], pch) == Feed(old(Frames(vRecvMsg)), pch)
      ensures Finished(old(Frames(vRecvMsg))) == |fs|
    {
      hide Parse, Feed, IsComplete, SizeIn, IsPartial, Bytes, NetMessage.Valid, NetMessage.Value;
      ghost var was := Frames(vRecvMsg);
      if vRecvMsg == [] || vRecvMsg[|vRecvMsg| - 1].Complete() {
        if vRecvMsg != [] {
          vRecvMsg[|vRecvMsg| - 1].CompleteIs();
        }
        ghost var front := vRecvMsg;
        msg := new NetMessage();
        fs := was;
        vRecvMsg := vRecvMsg + [msg];
        assert vRecvMsg[..|vRecvMsg| - 1] == front;
        msg.CompleteIs();
        OpenNew(msg);
        FeedNew(was, pch);
      } else {
        msg := vRecvMsg[|vRecvMsg| - 1];
        fs := Frames(vRecvMsg[..|vRecvMsg| - 1]);
        msg.CompleteIs();
        OpenIs(msg);
      }
    }

    /** Absorbs one piece into the current message. */
    method AbsorbOne(pch: seq<Byte>) returns (ok: bool, handled: nat, done: bool)
      requires AllValid(vRecvMsg) && AreFrames(Frames(vRecvMsg)) && pch != []
      modifies this`vRecvMsg, vRecvMsg
      ensures AllValid(vRecvMsg) && forall i | 0 <= i < |vRecvMsg| :: vRecvMsg[i] in old(vRecvMsg) || fresh(vRecvMsg[i])
      ensures ok ==> AreFrames(Frames(vRecvMsg)) && 0 < handled <= |pch|
      ensures ok ==> Feed(old(Frames(vRecvMsg)), pch) == Feed(Frames(vRecvMsg), pch[handled..])
      ensures ok ==> Finished(Frames(vRecvMsg)) == Finished(old(Frames(vRecvMsg))) + (if done then 1 else 0)
      ensures !ok ==> Lined(Frames(vRecvMsg)) && Feed(old(Frames(vRecvMsg)), pch) == Parsed(Frames(vRecvMsg), false)
    {
      hide Parse, Feed, IsComplete, SizeIn, IsPartial, Bytes, IsOpen, AllDone, NetMessage.Valid, NetMessage.Value, AreFrames, AllValid, Lined, Finished;
      ghost var fs, took;
      var msg;
      msg, fs := Current(pch);
      ghost var front, f := vRecvMsg[..|vRecvMsg| - 1], msg.Value();
      ok, handled, took := Absorb(msg, pch);
      assert vRecvMsg[..|vRecvMsg| - 1] == front;
      assert Frames(front) == fs;
      assert vRecvMsg == front + [msg];
      ValidBack(front, msg);
      assert Frames(vRecvMsg) == fs + [msg.Value()];
      Continue(fs, f, msg.Value(), pch, took, ok);
      done := msg.Complete();
      msg.CompleteIs();
      FinishedIs(fs, f);
      FinishedIs(fs, msg.Value());
    }

    /** Absorbs everything, and says whether a message was completed. */
    method ReceiveMsgBytes(pch: seq<Byte>) returns (ok: bool, complete: bool)
      requires AllValid(vRecvMsg) && AreFrames(Frames(vRecvMsg))
      modifies this`vRecvMsg, vRecvMsg
      ensures AllValid(vRecvMsg) && forall i | 0 <= i < |vRecvMsg| :: vRecvMsg[i] in old(vRecvMsg) || fresh(vRecvMsg[i])
      ensures Feed(old(Frames(vRecvMsg)), pch) == Parsed(Frames(vRecvMsg), ok)
      ensures !ok ==> Lined(Frames(vRecvMsg))
      ensures ok ==> AreFrames(Frames(vRecvMsg)) && (complete <==> Finished(Frames(vRecvMsg)) > Finished(old(Frames(vRecvMsg))))
    {
      hide Feed, AllValid, AreFrames, Finished, Frames, Lined;
      ok, complete := true, false;
      var at := 0;
      assert pch[0..] == pch;
      while at < |pch|
        invariant at <= |pch| && AllValid(vRecvMsg) && AreFrames(Frames(vRecvMsg))
        invariant forall i | 0 <= i < |vRecvMsg| :: vRecvMsg[i] in old(vRecvMsg) || fresh(vRecvMsg[i])
        invariant Feed(Frames(vRecvMsg), pch[at..]) == Feed(old(Frames(vRecvMsg)), pch)
        invariant Finished(Frames(vRecvMsg)) >= Finished(old(Frames(vRecvMsg)))
        invariant complete <==> Finished(Frames(vRecvMsg)) > Finished(old(Frames(vRecvMsg)))
        decreases |pch| - at
      {
        var handled, done;
        ok, handled, done := AbsorbOne(pch[at..]);
        if !ok {
          return false, complete;
        }
        assert pch[at..][handled..] == pch[at + handled..];
        at := at + handled;
        if done {
          complete := true;
        }
      }
      assert pch[at..] == [];
      FeedNothing(Frames(vRecvMsg));
    }

    /** How many messages at the front are complete, and their size. */
    method CountComplete() returns (k: nat, size: nat)
      requires AllValid(vRecvMsg) && Lined(Frames(vRecvMsg))
      ensures k == Finished(Frames(vRecvMsg)) <= |vRecvMsg| && size == |AllBytes(Frames(vRecvMsg[..k]))|
    {
      hide IsComplete, Bytes, NetMessage.Valid, NetMessage.Value, AllValid, Lined, Frames, AllBytes, Finished;
      k, size := 0, 0;
      assert vRecvMsg[..0] == [];
      NoFrames();
      while k < |vRecvMsg| && vRecvMsg[k].Complete()
        invariant k <= |vRecvMsg| && size == |AllBytes(Frames(vRecvMsg[..k]))|
        invariant forall i | 0 <= i < k :: vRecvMsg[i].Complete()
      {
        MoreBytes(vRecvMsg, k);
        size := size + |vRecvMsg[k].vRecv| + HEADER_SIZE;
        k := k + 1;
      }
      FinishedAt(vRecvMsg, k);
    }

    /** Hands the complete messages at the front on to be processed. */
    method PassOn() returns (ghost moved: seq<NetMessage>)
      requires Valid()
      modifies this
      ensures Valid() && AllFrames() == old(AllFrames())
      ensures vProcessMsg == old(vProcessMsg) + moved && old(vRecvMsg) == moved + vRecvMsg
      ensures |moved| == Finished(old(Frames(vRecvMsg)))
      ensures nProcessQueueSize == old(nProcessQueueSize) + |AllBytes(Frames(moved))|
      ensures fPauseRecv <==> nProcessQueueSize > nReceiveFloodSize
    {
      hide IsComplete, Bytes, NetMessage.Valid, NetMessage.Value, AllBytes, AllValid, Lined, AllDone, Frames;
      ValidTail(vProcessMsg, vRecvMsg);
      var k, nSizeAdded := CountComplete();
      ghost var a, b, c := vProcessMsg, vRecvMsg[..k], vRecvMsg[k..];
      assert vRecvMsg == b + c;
      Regroup(a, b, c);
      ghost var fb, passed, left := Frames(b), Frames(a + b), Frames(c);
      vProcessMsg, vRecvMsg := vProcessMsg + vRecvMsg[..k], vRecvMsg[k..];
      nProcessQueueSize, fPauseRecv := nProcessQueueSize + nSizeAdded, nProcessQueueSize + nSizeAdded > nReceiveFloodSize;
      moved := b;
      assert Frames(a + b) == passed && Frames(c) == left && Frames(b) == fb && AllValid((a + b) + c);
    }

    /** What the socket loop does with the bytes of one read. */
    method Receive(pch: seq<Byte>) returns (ok: bool)
      requires Valid() && AreFrames(Frames(vRecvMsg))
      modifies this, vRecvMsg
      ensures Valid() && (forall i | 0 <= i < |vRecvMsg| :: vRecvMsg[i] in old(vRecvMsg) || fresh(vRecvMsg[i]))
      ensures Feed(old(AllFrames()), pch) == Parsed(AllFrames(), ok)
      ensures ok ==> AreFrames(Frames(vRecvMsg))
    {
      hide Feed, AllValid, AreFrames, AllDone, Lined, Frames, Finished, AllBytes;
      ghost var a, b, fa := vProcessMsg, vRecvMsg, Frames(vProcessMsg);
      ValidTail(a, b);
      FeedBehind(fa, Frames(b), pch);
      var complete;
      ok, complete := ReceiveMsgBytes(pch);
      assert AllValid(a) && Frames(a) == fa;
      ValidJoin(a, vRecvMsg);
      if ok {
        LinedUp(Frames(vRecvMsg));
      }
      if complete {
        ghost var mid := vRecvMsg;
        ghost var moved := PassOn();
        assert forall i | 0 <= i < |vRecvMsg| :: vRecvMsg[i] == mid[|moved| + i];
        if ok {
          FramesTail(moved, vRecvMsg);
        }
      }
    }
  }

  lemma ValidTail(ms: seq<NetMessage>, ns: seq<NetMessage>)
    requires AllValid(ms + ns)
    ensures AllValid(ms) && AllValid(ns) && forall i | 0 <= i < |ms| :: ms[i] !in ns
  {
    hide NetMessage.Valid;
    var all := ms + ns;
    assert forall i | 0 <= i < |ms| :: all[i] == ms[i];
    assert forall i | 0 <= i < |ns| :: all[|ms| + i] == ns[i];
    forall i, j | 0 <= i < j < |ns| ensures ns[i] != ns[j] {
      assert all[|ms| + i] != all[|ms| + j];
    }
  }

  lemma ValidJoin(ms: seq<NetMessage>, ns: seq<NetMessage>)
    requires AllValid(ms) && AllValid(ns) && forall i | 0 <= i < |ns| :: ns[i] !in ms
    ensures AllValid(ms + ns)
  {
    hide NetMessage.Valid;
  }

  /** Complete messages in front do not take part. */
  lemma FeedBehind(a: seq<Frame>, b: seq<Frame>, s: seq<Byte>)
    requires AllDone(a)
    ensures Feed(a + b, s) == After(a, Feed(b, s))
  {
    hide Feed, IsComplete, IsPartial;
    FeedAfter(a, b, s);
  }

  lemma FramesTail(ms: seq<NetMessage>, ns: seq<NetMessage>)
    requires AreFrames(Frames(ms + ns))
    ensures AreFrames(Frames(ns))
  {
    hide *;
    FramesJoin(ms, ns);
    AreFramesTail(Frames(ms), Frames(ns));
  }

  lemma AreFramesTail(a: seq<Frame>, b: seq<Frame>)
    requires AreFrames(a + b)
    ensures AreFrames(b)
  {
    hide IsComplete, IsPartial;
    assert forall i | 0 <= i < |b| :: (a + b)[|a| + i] == b[i];
  }

  /** Complete messages change from one list to the other. */
  lemma Regroup(a: seq<NetMessage>, b: seq<NetMessage>, c: seq<NetMessage>)
    requires AllDone(Frames(a)) && Lined(Frames(b + c)) && |b| == Finished(Frames(b + c))
    ensures a + (b + c) == (a + b) + c
    ensures AllDone(Frames(a + b)) && Lined(Frames(c)) && Frames(a) + Frames(b + c) == Frames(a + b) + Frames(c)
  {
    hide *;
    FramesJoin(b, c);
    FramesJoin(a, b);
    RegroupFrames(Frames(a), Frames(b), Frames(c));
    assert a + (b + c) == (a + b) + c;
  }

  lemma RegroupFrames(a: seq<Frame>, b: seq<Frame>, c: seq<Frame>)
    requires AllDone(a) && Lined(b + c) && |b| == Finished(b + c)
    ensures AllDone(a + b) && Lined(c) && a + (b + c) == (a + b) + c
  {
    hide IsComplete, IsPartial;
    forall i | 0 <= i < |b| ensures IsPartial(b[i]) && IsComplete(b[i]) {
      assert (b + c)[i] == b[i];
    }
    forall i | 0 <= i < |c| ensures (IsComplete(c[i]) ==> IsPartial(c[i])) && (i < |c| - 1 ==> IsComplete(c[i])) {
      assert (b + c)[|b| + i] == c[i];
    }
  }

  lemma MoreBytes(ms: seq<NetMessage>, k: nat)
    requires AllValid(ms) && k < |ms| && ms[k].Complete()
    ensures |AllBytes(Frames(ms[..k + 1]))| == |AllBytes(Frames(ms[..k]))| + |ms[k].vRecv| + HEADER_SIZE
  {
    hide AllBytes, NetMessage.Value, NetMessage.Valid, Bytes;
    assert ms[..k + 1][..k] == ms[..k];
    AllBytesBack(Frames(ms[..k]), ms[k].Value());
    CompleteSize(ms[k]);
  }

  lemma FinishedAt(ms: seq<NetMessage>, k: nat)
    requires AllValid(ms) && Lined(Frames(ms)) && k <= |ms|
    requires (forall i | 0 <= i < k :: ms[i].Complete()) && (k < |ms| ==> !ms[k].Complete())
    ensures k == Finished(Frames(ms))
  {
    hide NetMessage.Value, NetMessage.Valid, IsComplete, IsPartial;
    if k < |ms| {
      ms[k].CompleteIs();
      assert !IsComplete(Frames(ms)[k]);
    } else if k > 0 {
      ms[k - 1].CompleteIs();
    }
  }

  lemma NoFrames()
    ensures Frames([]) == [] && AllBytes([]) == []
  {
  }

  /** A whole connection: what has come is the parse of the stream, however it was cut. */
  method Connection(floodSize: nat, chunks: seq<seq<Byte>>) returns (node: Node, ok: bool)
    ensures fresh(node) && node.Valid() && Parsed(node.AllFrames(), ok) == Parse(Joined(chunks))
  {
    hide Feed, AreFrames, Parse, Node.Valid, Node.AllFrames;
    node := new Node(floodSize);
    NodeStart(node);
    ok := true;
    var at := 0;
    ghost var was := node.AllFrames();
    assert chunks[0..] == chunks;
    while at < |chunks| && ok
      invariant at <= |chunks| && node.Valid() && (ok ==> AreFrames(Frames(node.vRecvMsg)))
      invariant fresh(node) && forall i | 0 <= i < |node.vRecvMsg| :: fresh(node.vRecvMsg[i])
      invariant (if ok then FeedAll(node.AllFrames(), chunks[at..]) else Parsed(node.AllFrames(), false)) == FeedAll(was, chunks)
    {
      assert chunks[at..][1..] == chunks[at + 1..];
      ok := node.Receive(chunks[at]);
      at := at + 1;
    }
    assert ok ==> chunks[at..] == [];
    StreamStart(chunks);
  }

  lemma NodeStart(node: Node)
    requires node.vRecvMsg == [] && node.vProcessMsg == []
    ensures node.AllFrames() == [] && AreFrames(Frames(node.vRecvMsg))
  {
  }

  lemma StreamStart(chunks: seq<seq<Byte>>)
    ensures FeedAll([], chunks) == Parse(Joined(chunks))
  {
    hide Feed, FeedAll, Joined;
    CutAnywhere([], chunks);
    assert [] + Joined(chunks) == Joined(chunks);
  }

  lemma LinedUp(fs: seq<Frame>)
    requires AreFrames(fs)
    ensures Lined(fs)
  {
  }

  lemma CompleteSize(m: NetMessage)
    requires m.Valid() && m.Complete()
    ensures |Bytes(m.Value())| == |m.vRecv| + HEADER_SIZE
  {
  }

  lemma {:induction false} AllBytesBack(fs: seq<Frame>, f: Frame)
    ensures AllBytes(fs + [f]) == AllBytes(fs) + Bytes(f)
  {
    if fs == [] {
      assert AllBytes([f]) == Bytes(f) + AllBytes([]);
    } else {
      AllBytesBack(fs[1..], f);
      assert (fs + [f])[1..] == fs[1..] + [f];
    }
  }

  /** How many are complete. */
  ghost function Finished(fs: seq<Frame>): nat {
    if fs == [] then 0 else if IsComplete(fs[|fs| - 1]) then |fs| else |fs| - 1
  }

  lemma FinishedIs(fs: seq<Frame>, f: Frame)
    requires AllDone(fs)
    ensures Finished(fs) == |fs| && Finished(fs + [f]) == |fs| + if IsComplete(f) then 1 else 0
  {
  }

  /** Complete messages, but for the last. */
  ghost predicate Lined(fs: seq<Frame>) {
    forall i | 0 <= i < |fs| :: (IsComplete(fs[i]) ==> IsPartial(fs[i])) && (i < |fs| - 1 ==> IsComplete(fs[i]))
  }

  /** All complete. */
  ghost predicate AllDone(fs: seq<Frame>) {
    forall i | 0 <= i < |fs| :: IsPartial(fs[i]) && IsComplete(fs[i])
  }

  lemma Continue(fs: seq<Frame>, f: Frame, g: Frame, s: seq<Byte>, k: nat, ok: bool)
    requires AllDone(fs) && !IsComplete(f) && k <= |s| && Bytes(g) == Bytes(f) + s[..k]
    requires if ok then IsPartial(g) else TooLarge(g)
    ensures ok ==> AreFrames(fs + [g]) && Feed(fs + [f], s) == Feed(fs + [g], s[k..])
    ensures !ok ==> Lined(fs + [g]) && Feed(fs + [f], s) == Parsed(fs + [g], false)
  {
    hide Parse, Feed, Bytes;
    FeedMore(fs, f, g, s, k);
    if !ok {
      FeedTooLarge(fs, g, s[k..]);
    }
  }
}
