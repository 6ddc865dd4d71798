/**
 Sending messages (src/net.cpp): a queue of byte vectors, the first of which may be sent in part.
 */
module NetSend {
  import opened NetFrames
  import opened NetReceive

  function Total(q: seq<seq<Byte>>): nat {
    if q == [] then 0 else |q[0]| + Total(q[1..])
  }

  lemma {:induction false} TotalJoin(p: seq<seq<Byte>>, q: seq<seq<Byte>>)
    ensures Total(p + q) == Total(p) + Total(q) && Joined(p + q) == Joined(p) + Joined(q)
  {
    if p == [] {
      assert p + q == q;
    } else {
      assert (p + q)[1..] == p[1..] + q;
      TotalJoin(p[1..], q);
    }
  }

  ghost predicate NoneEmpty(q: seq<seq<Byte>>) {
    forall i | 0 <= i < |q| :: q[i] != []
  }

  /** What is left of a queue when some of its first vector is gone. */
  ghost function Rest(q: seq<seq<Byte>>, offset: nat): seq<Byte> {
    if offset <= |Joined(q)| then Joined(q)[offset..] else []
  }

  class SendQueue {
    var vSendMsg: seq<seq<Byte>>
    var nSendSize: nat
    var nSendOffset: nat
    var fPauseSend: bool
    const nSendBufferMaxSize: nat

    constructor (maxSize: nat)
      ensures Valid() && Unsent() == []
    {
      vSendMsg, nSendSize, nSendOffset, fPauseSend := [], 0, 0, false;
      nSendBufferMaxSize := maxSize;
    }

    /** The size counts every queued vector in full, and the peer is paused exactly while it is too large. */
    ghost predicate Valid()
      reads this
    {
      IsHeld(vSendMsg, nSendSize, nSendOffset) && (fPauseSend <==> nSendSize > nSendBufferMaxSize)
    }

    ghost function Unsent(): seq<Byte>
      reads this
    {
      Rest(vSendMsg, nSendOffset)
    }

    /** Sends what the socket takes: `sends` are the answers of the calls to `send`, until there is no socket. */
    method SocketSendData(sends: seq<int>) returns (nSentSize: nat, wire: seq<Byte>)
      requires Valid()
      modifies this
      ensures Valid() && wire + Unsent() == old(Unsent()) && nSentSize == |wire|
      ensures (exists n | 0 <= n <= |old(vSendMsg)| :: vSendMsg == old(vSendMsg)[n..])
      ensures SocketTakes(old(vSendMsg), sends) ==> vSendMsg == []
    {
      hide Rest, IsHeld, SocketTakes;
      var it := 0;
      nSentSize, wire := 0, [];
      assert vSendMsg[0..] == vSendMsg;
      assert [] + old(Unsent()) == old(Unsent());
      while it < |vSendMsg|
        invariant it <= |vSendMsg| && vSendMsg == old(vSendMsg) && nSentSize == |wire|
        invariant IsHeld(vSendMsg[it..], nSendSize, nSendOffset) && (fPauseSend <==> nSendSize > nSendBufferMaxSize)
        invariant wire + Rest(vSendMsg[it..], nSendOffset) == old(Unsent())
      {
        var data := vSendMsg[it];
        ghost var q := vSendMsg[it..];
        assert q[0] == data && q[1..] == vSendMsg[it + 1..];
        HeldFront(q, nSendSize, nSendOffset);
        assert |data| > nSendOffset;
        NotTaken(vSendMsg, sends, it);
        if it >= |sends| {
          break;
        }
        var nBytes := if sends[it] < |data| - nSendOffset then sends[it] else |data| - nSendOffset;
        if nBytes <= 0 {
          break;
        }
        HeldMore(q, nSendSize, nSendOffset, nBytes);
        ghost var more := data[nSendOffset..nSendOffset + nBytes];
        assert wire + (more + Rest(q, nSendOffset + nBytes)) == wire + more + Rest(q, nSendOffset + nBytes);
        wire := wire + data[nSendOffset..nSendOffset + nBytes];
        nSendOffset := nSendOffset + nBytes;
        nSentSize := nSentSize + nBytes;
        if nSendOffset != |data| {
          break;
        }
        nSendOffset := 0;
        nSendSize := nSendSize - |data|;
        fPauseSend := nSendSize > nSendBufferMaxSize;
        it := it + 1;
      }
      if it == |vSendMsg| {
        HeldNothing(nSendSize, nSendOffset);
        assert vSendMsg[it..] == [];
        assert nSendOffset == 0;
        assert nSendSize == 0;
      }
      vSendMsg := vSendMsg[it..];
    }

    /** Puts a header and the data, if there is any, behind the queue. */
    method PushMessage(start: seq<Byte>, command: seq<Byte>, checksum: seq<Byte>, data: seq<Byte>, sends: seq<int>)
      returns (nBytesSent: nat, wire: seq<Byte>)
      requires Valid() && |start| == 4 && |command| == 12 && |checksum| == 4 && |data| < 0x100000000
      modifies this
      ensures Valid() && nBytesSent == |wire|
      ensures wire + Unsent() == old(Unsent()) + Bytes(Message(start, command, checksum, data))
      ensures old(vSendMsg) != [] ==> wire == []
    {
      hide Rest, IsHeld, Header;
      var header := Header(start, command, |data|, checksum);
      var optimisticSend := vSendMsg == [];
      nSendSize := nSendSize + |header| + |data|;
      if nSendSize > nSendBufferMaxSize {
        fPauseSend := true;
      }
      HeldPush(vSendMsg, old(nSendSize), nSendOffset, header, data);
      vSendMsg := vSendMsg + [header];
      if |data| != 0 {
        vSendMsg := vSendMsg + [data];
      }
      nBytesSent, wire := 0, [];
      assert old(Unsent()) + header + data == old(Unsent()) + (header + data);
      if optimisticSend {
        nBytesSent, wire := SocketSendData(sends);
      }
    }
  }

  /** A queue with its size, the first vector sent up to an offset. */
  ghost predicate IsHeld(q: seq<seq<Byte>>, size: nat, offset: nat) {
    size == Total(q) && NoneEmpty(q) && if q == [] then offset == 0 else offset < |q[0]|
  }

  /** The socket takes every vector in one call. */
  predicate SocketTakes(q: seq<seq<Byte>>, sends: seq<int>) {
    |sends| >= |q| && forall i | 0 <= i < |q| :: sends[i] >= |q[i]|
  }

  lemma NotTaken(q: seq<seq<Byte>>, sends: seq<int>, i: nat)
    requires i < |q|
    ensures i >= |sends| || sends[i] < |q[i]| ==> !SocketTakes(q, sends)
  {
  }

  lemma HeldNothing(size: nat, offset: nat)
    ensures IsHeld([], size, offset) ==> size == 0 && offset == 0
  {
  }

  lemma HeldFront(q: seq<seq<Byte>>, size: nat, offset: nat)
    requires q != [] && IsHeld(q, size, offset)
    ensures offset < |q[0]| <= size
  {
  }

  /** Some more bytes of the first vector; the last of them end it. */
  lemma HeldMore(q: seq<seq<Byte>>, size: nat, offset: nat, n: nat)
    requires q != [] && IsHeld(q, size, offset) && n <= |q[0]| - offset
    ensures Rest(q, offset) == q[0][offset..offset + n] + Rest(q, offset + n)
    ensures offset + n < |q[0]| ==> IsHeld(q, size, offset + n)
    ensures offset + n == |q[0]| ==> IsHeld(q[1..], size - |q[0]|, 0) && Rest(q, offset + n) == Rest(q[1..], 0)
  {
  }

  lemma HeldPush(q: seq<seq<Byte>>, size: nat, offset: nat, header: seq<Byte>, data: seq<Byte>)
    requires IsHeld(q, size, offset) && header != []
    ensures var p := if data == [] then q + [header] else q + [header] + [data];
      IsHeld(p, size + |header| + |data|, offset) && Rest(p, offset) == Rest(q, offset) + header + data
  {
    var tail := if data == [] then [header] else [header] + [data];
    assert q + [header] + [data] == q + ([header] + [data]);
    TailIs(header, data);
    TotalJoin(q, tail);
    assert offset <= |Joined(q)|;
    assert (Joined(q) + (header + data))[offset..] == Joined(q)[offset..] + header + data;
    assert NoneEmpty(q + tail);
  }

  lemma TailIs(header: seq<Byte>, data: seq<Byte>)
    ensures var tail := if data == [] then [header] else [header] + [data];
      Total(tail) == |header| + |data| && Joined(tail) == header + data
  {
    assert Total([data]) == |data| && Joined([data]) == data;
    assert ([header] + [data])[1..] == [data];
  }

  // ---------------------------------------------------------------- from one end to the other

  function LittleEndian(n: nat): (s: seq<Byte>)
    requires n < 0x100000000
    ensures |s| == 4
  {
    [n % 0x100, n / 0x100 % 0x100, n / 0x10000 % 0x100, n / 0x1000000]
  }

  /** A message header, with the size of the data in its place. */
  function Header(start: seq<Byte>, command: seq<Byte>, size: nat, checksum: seq<Byte>): (h: seq<Byte>)
    requires |start| == 4 && |command| == 12 && |checksum| == 4 && size < 0x100000000
    ensures |h| == HEADER_SIZE
  {
    start + command + LittleEndian(size) + checksum
  }

  lemma LittleEndianIs(n: nat)
    requires n < 0x100000000
    ensures var s := LittleEndian(n); (s[0] as nat) + 0x100 * (s[1] as nat) + 0x10000 * (s[2] as nat) + 0x1000000 * (s[3] as nat) == n
  {
  }

  lemma HeaderSize(start: seq<Byte>, command: seq<Byte>, size: nat, checksum: seq<Byte>)
    requires |start| == 4 && |command| == 12 && |checksum| == 4 && size < 0x100000000
    ensures SizeIn(Header(start, command, size, checksum)) == size
  {
    hide LittleEndian;
    LittleEndianIs(size);
    var h := Header(start, command, size, checksum);
    assert h[16] == LittleEndian(size)[0] && h[17] == LittleEndian(size)[1] && h[18] == LittleEndian(size)[2] && h[19] == LittleEndian(size)[3];
  }

  /** Start, command, size with its lowest byte first, checksum. */
  lemma HeaderIs(start: seq<Byte>, command: seq<Byte>, size: nat, checksum: seq<Byte>)
    requires |start| == 4 && |command| == 12 && |checksum| == 4 && size < 0x100000000
    ensures var h := Header(start, command, size, checksum);
      && h[..4] == start && h[4..16] == command && h[20..] == checksum
      && (h[16] as nat) == size % 256 && (h[17] as nat) == size / 256 % 256
      && (h[18] as nat) == size / 65536 % 256 && (h[19] as nat) == size / 16777216
  {
    var h, s := Header(start, command, size, checksum), LittleEndian(size);
    assert h[16] == s[0] && h[17] == s[1] && h[18] == s[2] && h[19] == s[3];
  }

  function Message(start: seq<Byte>, command: seq<Byte>, checksum: seq<Byte>, data: seq<Byte>): Frame
    requires |start| == 4 && |command| == 12 && |checksum| == 4 && |data| < 0x100000000
  {
    Frame(Header(start, command, |data|, checksum), data)
  }

  lemma MessageIs(start: seq<Byte>, command: seq<Byte>, checksum: seq<Byte>, data: seq<Byte>)
    requires |start| == 4 && |command| == 12 && |checksum| == 4 && |data| <= MAX_PROTOCOL_MESSAGE_LENGTH
    ensures AllDone([Message(start, command, checksum, data)])
  {
    hide Header, SizeIn;
    HeaderSize(start, command, |data|, checksum);
  }

  /** Messages one after the other are read as they are. */
  lemma {:induction false} ParseMessages(fs: seq<Frame>)
    requires AllDone(fs)
    ensures Parse(AllBytes(fs)) == Parsed(fs, true)
  {
    hide IsComplete, IsPartial;
    if fs != [] {
      ParseMessages(fs[1..]);
      ParseComplete(fs[0], AllBytes(fs[1..]));
    }
  }

  /** More bytes do not change the complete messages. */
  lemma FeedKeeps(gs: seq<Frame>, t: seq<Byte>)
    requires AreFrames(gs)
    ensures Finished(gs) <= |gs| && gs[..Finished(gs)] <= Feed(gs, t).frames
  {
    hide IsComplete, IsPartial, Parse;
  }

  /** Whatever part of the messages has arrived is read as those messages, in order and unchanged. */
  lemma Delivered(fs: seq<Frame>, wire: seq<Byte>, rest: seq<Byte>)
    requires AllDone(fs) && wire + rest == AllBytes(fs)
    ensures var r := Parse(wire); r.ok && Finished(r.frames) <= |r.frames| && r.frames[..Finished(r.frames)] <= fs
    ensures rest == [] ==> Parse(wire).frames == fs
  {
    hide IsComplete, IsPartial, Parse, Feed, Finished, AreFrames;
    ParseMessages(fs);
    if !Parse(wire).ok {
      Refused(wire, rest);
    }
    ParsedFrames(wire);
    FeedParse(wire, rest);
    FeedKeeps(Parse(wire).frames, rest);
    if rest == [] {
      assert wire + rest == wire;
    }
  }

  // ---------------------------------------------------------------- whole transfers

  /** What the sender does: push a message, or send some more; with the answers of the socket. */
  datatype Action =
    | Push(start: seq<Byte>, command: seq<Byte>, checksum: seq<Byte>, data: seq<Byte>, sends: seq<int>)
    | Send(sends: seq<int>)

  predicate Legal(schedule: seq<Action>) {
    forall i | 0 <= i < |schedule| && schedule[i].Push? ::
      && |schedule[i].start| == 4 && |schedule[i].command| == 12 && |schedule[i].checksum| == 4
      && |schedule[i].data| <= MAX_PROTOCOL_MESSAGE_LENGTH
  }

  /** The messages pushed, in order. */
  function Pushed(schedule: seq<Action>): seq<Frame>
    requires Legal(schedule)
  {
    if schedule == [] then [] else
      var n := |schedule| - 1;
      Pushed(schedule[..n]) + match schedule[n]
        case Push(start, command, checksum, data, _) => [Message(start, command, checksum, data)]
        case Send(_) => []
  }

  lemma {:induction false} PushedDone(schedule: seq<Action>)
    requires Legal(schedule)
    ensures AllDone(Pushed(schedule))
  {
    hide Message;
    if schedule != [] {
      var n := |schedule| - 1;
      PushedDone(schedule[..n]);
      match schedule[n]
      case Push(start, command, checksum, data, _) => MessageIs(start, command, checksum, data);
      case Send(_) =>
    }
  }

  /** One action more: what is on the wire or queued grows by the message, if one is pushed. */
  lemma PushedMore(schedule: seq<Action>, i: nat)
    requires Legal(schedule) && i < |schedule|
    ensures AllBytes(Pushed(schedule[..i + 1])) == AllBytes(Pushed(schedule[..i])) + match schedule[i]
      case Push(start, command, checksum, data, _) => Bytes(Message(start, command, checksum, data))
      case Send(_) => []
  {
    hide Bytes, Message;
    assert schedule[..i + 1][..i] == schedule[..i];
    match schedule[i]
    case Push(start, command, checksum, data, _) =>
      AllBytesBack(Pushed(schedule[..i]), Message(start, command, checksum, data));
    case Send(_) =>
      assert Pushed(schedule[..i + 1]) == Pushed(schedule[..i]);
  }

  /** For any schedule and any answers of the socket: the wire and the queue are the messages. */
  method Sender(maxSize: nat, schedule: seq<Action>) returns (queue: SendQueue, wire: seq<Byte>)
    requires Legal(schedule)
    ensures fresh(queue) && queue.Valid() && wire + queue.Unsent() == AllBytes(Pushed(schedule))
  {
    hide SendQueue.Valid, SendQueue.Unsent, Message, Pushed, Bytes, Legal;
    queue := new SendQueue(maxSize);
    wire := [];
    NothingPushed(schedule);
    for i := 0 to |schedule|
      invariant fresh(queue) && queue.Valid() && wire + queue.Unsent() == AllBytes(Pushed(schedule[..i]))
    {
      PushedMore(schedule, i);
      ghost var held := queue.Unsent();
      var n, more;
      match schedule[i] {
        case Push(start, command, checksum, data, sends) =>
          LegalAt(schedule, i);
          n, more := queue.PushMessage(start, command, checksum, data, sends);
          Onto(wire, held, more, queue.Unsent(), Bytes(Message(start, command, checksum, data)));
        case Send(sends) =>
          n, more := queue.SocketSendData(sends);
          Onto(wire, held, more, queue.Unsent(), []);
      }
      wire := wire + more;
    }
    assert schedule[..|schedule|] == schedule;
  }

  lemma NothingPushed(schedule: seq<Action>)
    requires Legal(schedule)
    ensures forall i | 0 <= i <= |schedule| :: Legal(schedule[..i])
    ensures Pushed(schedule[..0]) == []
  {
  }

  lemma LegalAt(schedule: seq<Action>, i: nat)
    requires Legal(schedule) && i < |schedule| && schedule[i].Push?
    ensures |schedule[i].start| == 4 && |schedule[i].command| == 12 && |schedule[i].checksum| == 4
    ensures |schedule[i].data| < 0x100000000
  {
  }

  lemma Onto(wire: seq<Byte>, held: seq<Byte>, more: seq<Byte>, left: seq<Byte>, message: seq<Byte>)
    requires more + left == held + message
    ensures (wire + more) + left == (wire + held) + message
  {
    assert (wire + more) + left == wire + (more + left);
    assert (wire + held) + message == wire + (held + message);
  }

  /** From one end to the other: whatever is pushed and sent, and however the wire is cut, the
      receiver accepts it, and its complete messages are those pushed, in order and unchanged, as
      far as they have come; all of them once nothing is left in the queue. */
  method Transfer(maxSize: nat, floodSize: nat, schedule: seq<Action>, cut: seq<Byte> -> seq<seq<Byte>>)
    returns (queue: SendQueue, node: Node, ok: bool)
    requires Legal(schedule) && forall w :: Joined(cut(w)) == w
    ensures queue.Valid() && node.Valid() && ok
    ensures var gs := node.AllFrames(); Finished(gs) <= |gs| && gs[..Finished(gs)] <= Pushed(schedule)
    ensures queue.Unsent() == [] ==> node.AllFrames() == Pushed(schedule)
  {
    hide SendQueue.Valid, SendQueue.Unsent, Node.Valid, Node.AllFrames, Pushed, Legal, Parse, AllBytes, Finished, AllDone;
    var wire;
    queue, wire := Sender(maxSize, schedule);
    node, ok := Connection(floodSize, cut(wire));
    PushedDone(schedule);
    Delivered(Pushed(schedule), wire, queue.Unsent());
  }
}
