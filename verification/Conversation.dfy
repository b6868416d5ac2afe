/** The two sides together: what one socket has on record is what the other side reads. */
module Conversation {
  import opened Octets
  import opened Frames
  import opened Messages
  import opened Runs
  import opened Transport
  import opened WebSockets
  import W = WireProtocol

  datatype Reading = Unreadable | Reading(frames: seq<Frame>, rest: Bytes)

  /** read_message, n times in a row. */
  function ReadFrames(side: Side, s: Bytes, n: nat): Reading
    decreases n
  {
    if n == 0 then Reading([], s)
    else
      match ReadFrame(side, s)
      case Fault(_) => Unreadable
      case Read(f, size) =>
        match ReadFrames(side, s[size..], n - 1)
        case Unreadable => Unreadable
        case Reading(more, rest) => Reading([f] + more, rest)
  }

  lemma {:induction false} ReadOneMore(side: Side, s: Bytes, n: nat, fs: seq<Frame>, rest: Bytes)
    requires ReadFrames(side, s, n) == Reading(fs, rest) && ReadFrame(side, rest).Read?
    ensures var last := ReadFrame(side, rest);
            ReadFrames(side, s, n + 1) == Reading(fs + [last.frame], rest[last.size..])
    decreases n
  {
    hide ReadFrame;
    if n == 0 {
      var last := ReadFrame(side, rest);
      assert ReadFrames(side, rest[last.size..], 0) == Reading([], rest[last.size..]);
    } else {
      var first := ReadFrame(side, s);
      ReadOneMore(side, s[first.size..], n - 1, fs[1..], rest);
      var last := ReadFrame(side, rest);
      assert [first.frame] + (fs[1..] + [last.frame]) == fs + [last.frame];
    }
  }

  /** What a reply looks like when it has been read. */
  function AsFrame(r: Reply): Frame { Frame(true, r.opcode, r.payload) }

  function AsFrames(rs: seq<Reply>): seq<Frame> {
    seq(|rs|, i requires 0 <= i < |rs| => AsFrame(rs[i]))
  }

  ghost predicate Readable(side: Side, item: Item) {
    && IsItem(side, item) && IsWhole(side, item)
    && IsOpcode(item.reply.opcode)
    && |item.reply.payload| != 65536 && |item.reply.payload| <= MAXIMUM_LENGTH
  }

  /** Everything that a socket has sent, data, pongs and close frames alike, is read by the
      other side frame by frame, in order, with the payloads that were meant. */
  lemma {:induction false} PeerReads(side: Side, items: seq<Item>, rest: Bytes)
    requires AreItems(side, items) && forall i :: 0 <= i < |items| ==> Readable(side, items[i])
    ensures ReadFrames(side.Peer(), OnWire(side, items) + rest, |items|) == Reading(AsFrames(Contents(items)), rest)
  {
    hide ReadFrame, FrameOf;
    if items == [] {
      assert OnWire(side, items) + rest == rest;
    } else {
      var start, last := items[..|items| - 1], items[|items| - 1];
      var frame := FrameOf(side, last.reply, last.mask);
      LastFrame(side, last, rest);
      PeerReads(side, start, frame + rest);
      assert frame[..last.written] == frame;
      assert OnWire(side, items) + rest == OnWire(side, start) + (frame + rest);
      ReadOneMore(side.Peer(), OnWire(side, items) + rest, |start|, AsFrames(Contents(start)), frame + rest);
      assert (frame + rest)[|frame|..] == rest;
      assert AsFrames(Contents(items)) == AsFrames(Contents(start)) + [AsFrame(last.reply)];
    }
  }

  lemma LastFrame(side: Side, item: Item, rest: Bytes)
    requires Readable(side, item)
    ensures var frame := FrameOf(side, item.reply, item.mask);
            ReadFrame(side.Peer(), frame + rest) == Read(AsFrame(item.reply), |frame|)
  {
    hide ReadFrame, PrintedFrame;
    PrintRoundTrip(side, item.reply.opcode, item.reply.payload, item.mask, rest);
  }

  // ----- the closing handshake of the two sides ----------------------------------------------------

  /** Reading frames that are no close frames does not change what the wait for one comes to. */
  lemma {:induction false} ToCloseSkips(side: Side, s: Bytes, n: nat)
    requires ReadFrames(side, s, n).Reading?
    requires forall i :: 0 <= i < |ReadFrames(side, s, n).frames| ==> ReadFrames(side, s, n).frames[i].opcode != CLOSE
    ensures ToClose(side, s) == ToClose(side, ReadFrames(side, s, n).rest)
    decreases n
  {
    hide ReadFrame;
    if n > 0 {
      var first := ReadFrame(side, s);
      var all, more := ReadFrames(side, s, n).frames, ReadFrames(side, s[first.size..], n - 1).frames;
      assert forall i :: 0 <= i < |more| ==> more[i] == all[i + 1];
      assert all[0] == first.frame;
      ToCloseSkips(side, s[first.size..], n - 1);
    }
  }

  /** What a side has sent, and then a close frame: the other side's wait ends right behind it. */
  lemma RecordAnswers(side: Side, items: seq<Item>, code: nat, mask: Bytes, rest: Bytes)
    requires AreItems(side, items) && |mask| == 4
    requires forall i :: 0 <= i < |items| ==> Readable(side, items[i]) && items[i].reply.opcode != CLOSE
    ensures ToClose(side.Peer(), OnWire(side, items) + (FrameOf(side, CloseFrame(code), mask) + rest)) == Answered(rest)
  {
    hide ReadFrame, FrameOf, OnWire, BigEndian;
    var last := FrameOf(side, CloseFrame(code), mask) + rest;
    PeerReads(side, items, last);
    ToCloseSkips(side.Peer(), OnWire(side, items) + last, |items|);
    LastFrame(side, Item(CloseFrame(code), mask, |FrameOf(side, CloseFrame(code), mask)|), rest);
    assert last[|FrameOf(side, CloseFrame(code), mask)|..] == rest;
  }

  /** Both ends of it: the close frame that one side sends reaches recv on the other with its code,
      which is the code that the answer carries, and the answer ends the wait of the first. */
  lemma ClosingHandshake(side: Side, code: nat, mask: Bytes, a: Assembly, after: Bytes,
                         items: seq<Item>, answerMask: Bytes, rest: Bytes)
    requires code < 65536 && |mask| == 4 && |answerMask| == 4 && AreItems(side.Peer(), items)
    requires forall i :: 0 <= i < |items| ==> Readable(side.Peer(), items[i]) && items[i].reply.opcode != CLOSE
    ensures var r := Receive(side.Peer(), FrameOf(side, CloseFrame(code), mask) + after, a);
            && r == Closed(code, [], after)
            && ToClose(side, OnWire(side.Peer(), items) + (FrameOf(side.Peer(), CloseFrame(r.code), answerMask) + rest))
               == Answered(rest)
  {
    hide Receive, ToClose, OnWire, BigEndian, FromBigEndian, PrintedFrame, RfcFrame;
    CodeReads(code);
    var payload := BigEndian(code, 2);
    PrintsRfcExcept65536(side, CLOSE, payload, mask);
    ReceiveClose(side, true, payload, mask, after, a);
    RecordAnswers(side.Peer(), items, code, answerMask, rest);
  }

  /** close on a socket whose peer answers: unless the socket fails or the deadline is reached, the
      answer is read, and nothing behind it. */
  method CloseAnswered(ws: WebSocket, code: nat, ghost items: seq<Item>, ghost answer: nat, ghost mask: Bytes,
                       ghost rest: Bytes)
    returns (r: Try<()>)
    requires ws.Valid() && ws.socket.connected && |mask| == 4 && AreItems(ws.side.Peer(), items)
    requires forall i :: 0 <= i < |items| ==> Readable(ws.side.Peer(), items[i]) && items[i].reply.opcode != CLOSE
    requires ws.socket.input
          == OnWire(ws.side.Peer(), items) + (FrameOf(ws.side.Peer(), CloseFrame(answer), mask) + rest)
    modifies ws, ws.clock, ws.socket
    ensures ws.Valid() && Sends(old(ws.sent), ws.sent, CloseFrame(code))
    ensures r.Ok? ==> !ws.socket.connected
    ensures ws.Faulty() || ws.Late() || (ws.socket.input == rest && ws.LastIsWhole())
  {
    hide ToClose, OnWire, FrameOf, BigEndian, WebSocket.Valid;
    RecordAnswers(ws.side.Peer(), items, answer, mask, rest);
    r := ws.Close(code);
  }

  // ----- the record and the wire of many threads -------------------------------------------------

  /** The record of one WebSocket as the log of the thread t. */
  function AsLog(side: Side, items: seq<Item>, t: W.Thread): seq<W.Entry>
    requires forall i :: 0 <= i < |items| ==> |items[i].mask| == 4
  {
    seq(|items|, i requires 0 <= i < |items| =>
      W.Entry(W.Outgoing(FrameOf(side, items[i].reply, items[i].mask), items[i].reply.opcode == CLOSE),
              items[i].written, t))
  }

  /** Both describe the same wire, and mean the same by order. */
  lemma {:induction false} RecordIsLog(side: Side, items: seq<Item>, t: W.Thread)
    requires AreItems(side, items)
    ensures W.Measured(AsLog(side, items, t)) && W.Flatten(AsLog(side, items, t)) == OnWire(side, items)
    ensures W.Calm(AsLog(side, items, t)) <==> Quiet(side, items)
    ensures W.Orderly(AsLog(side, items, t)) <==> items == [] || Quiet(side, items[..|items| - 1])
  {
    hide FrameOf;
    if items != [] {
      var start := items[..|items| - 1];
      RecordIsLog(side, start, t);
      var log := AsLog(side, items, t);
      assert log[..|log| - 1] == AsLog(side, start, t);
      forall i | 0 <= i < |items|
        ensures W.IsWhole(log[i]) <==> IsWhole(side, items[i])
        ensures log[i].frame.isClose <==> items[i].reply.opcode == CLOSE
      {
      }
    }
  }

  /** Between calls, a WebSocket that no exception has left open is a state of the thread model in
      which its invariant holds, and with it everything that is proved about later steps. */
  lemma ValidIsInvariant(ws: WebSocket, t: W.Thread)
    requires ws.Valid() && !ws.escaped
    ensures W.Inv(W.State(W.Free, map[], ws.socket.connected, OnWire(ws.side, ws.sent), AsLog(ws.side, ws.sent, t)))
  {
    hide OnWire, Quiet, AsLog, W.Flatten, W.Measured, W.Orderly, W.Calm, Play;
    RecordIsLog(ws.side, ws.sent, t);
  }
}
