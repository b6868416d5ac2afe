/** From frames to messages: the five steps of handle_data_payload, the replies to control
    frames, and what one recv call makes of the bytes that arrive while it runs. */
module Messages {
  import opened Octets
  import opened Frames

  /** The message buffer of the caller, is_text_ and is_continuation_. */
  datatype Assembly = Assembly(message: Bytes, isText: bool, isContinuation: bool)

  datatype Acceptance = Accepted(assembly: Assembly) | Rejected(code: nat)

  predicate IsData(op: Byte) { op == TEXT || op == BINARY || op == CONTINUATION }

  /** handle_data_payload. */
  function Accept(a: Assembly, f: Frame): Acceptance {
    if (f.opcode == CONTINUATION) != a.isContinuation then Rejected(PROTOCOL_ERROR)
    else
      var length := |f.payload| + if f.opcode == CONTINUATION then |a.message| else 0;
      if length > MAXIMUM_LENGTH then Rejected(TOO_BIG)
      else
        Accepted(Assembly(
                   (if f.opcode == CONTINUATION then a.message else []) + f.payload,
                   if f.opcode == TEXT then true else if f.opcode == BINARY then false else a.isText,
                   !f.fin))
  }

  /** A frame the endpoint sends on its own account. */
  datatype Reply = Reply(opcode: Byte, payload: Bytes)

  /** get_close_code: two bytes are the code, anything else is reported as 1005. */
  function CloseReason(payload: Bytes): nat {
    if |payload| == 2 then FromBigEndian(payload) else MISSING_CODE
  }

  /** Section 5.5 of RFC 6455 gives a control frame no more than 125 bytes. */
  predicate OverLimit(payload: Bytes) { |payload| > 125 }

  /** Every ping that is read is answered by a pong with its payload, so a pong breaks the limit if and
      only if the ping has. */
  lemma PongOverLimit(side: Side, input: Bytes, a: Assembly)
    requires ReadFrame(side, input).Read? && ReadFrame(side, input).frame.opcode == PING
    ensures var ping, e := ReadFrame(side, input).frame, OneFrame(side, input, a);
            && e == Moves(a, [Reply(PONG, ping.payload)], false, ReadFrame(side, input).size)
            && (OverLimit(e.replies[0].payload) <==> OverLimit(ping.payload))
  {
    hide ReadFrame;
  }

  /** Codes that section 7.4.1 of RFC 6455 reserves: no endpoint may put them in a close frame. */
  predicate ForbiddenOnWire(code: nat) { code == 1005 || code == 1006 || code == 1015 }

  /** The code of the answer to a close frame is one of these if and only if there was no two-byte
      code to echo, or it was one of them itself. */
  lemma AnswerForbidden(payload: Bytes)
    ensures ForbiddenOnWire(CloseReason(payload)) <==> |payload| != 2 || ForbiddenOnWire(FromBigEndian(payload))
  {
    hide FromBigEndian;
  }

  /** An empty close frame is answered with 1005, and 1006 is echoed. */
  lemma ForbiddenAnswers()
    ensures CloseReason([]) == 1005 && CloseReason(BigEndian(1006, 2)) == 1006
    ensures ForbiddenOnWire(CloseReason([])) && ForbiddenOnWire(CloseReason(BigEndian(1006, 2)))
  {
    hide BigEndian;
    CodeReads(1006);
  }

  /** A code that is printed is read back. */
  lemma CodeReads(code: nat)
    requires code < 65536
    ensures |BigEndian(code, 2)| == 2 && FromBigEndian(BigEndian(code, 2)) == code
  {
    hide BigEndian;
    assert Power256(1) == 256 * Power256(0) && Power256(2) == 256 * Power256(1);
    BigEndianReads(code, 2);
  }

  lemma ReasonIsCode(payload: Bytes)
    ensures CloseReason(payload) < 65536
  {
    hide FromBigEndian;
    BigEndianBound(payload);
    assert Power256(1) == 256 * Power256(0) && Power256(2) == 256 * Power256(1);
  }

  datatype Received =
    | Delivered(message: Bytes, isText: bool, replies: seq<Reply>, rest: Bytes)
    | Closed(code: nat, replies: seq<Reply>, rest: Bytes)
    | Failed(code: nat, replies: seq<Reply>)

  function Before(done: seq<Reply>, r: Received): Received {
    r.(replies := done + r.replies)
  }

  /** What one frame does: it breaks the connection, asks to close it, or moves the assembly
      on; done says that the message is complete. */
  datatype Effect =
    | Breaks(code: nat)
    | Closes(code: nat, size: nat)
    | Moves(assembly: Assembly, replies: seq<Reply>, done: bool, size: nat)

  /** process_message. */
  function Process(a: Assembly, f: Frame, size: nat): (e: Effect)
    ensures e.Moves? ==> |e.replies| <= 1 && (e.done ==> e.replies == [] && !e.assembly.isContinuation)
    ensures !e.Breaks? ==> e.size == size
  {
    if f.opcode == CLOSE then Closes(CloseReason(f.payload), size)
    else if f.opcode == PING then Moves(a, [Reply(PONG, f.payload)], false, size)
    else if f.opcode == PONG then Moves(a, [], false, size)
    else
      match Accept(a, f)
      case Rejected(code) => Breaks(code)
      case Accepted(b) => Moves(b, [], f.fin, size)
  }

  /** handle_one_message on the bytes of the stream. */
  function OneFrame(side: Side, input: Bytes, a: Assembly): (e: Effect)
    ensures !e.Breaks? ==> 0 < e.size <= |input|
    ensures e.Moves? ==> |e.replies| <= 1 && (e.done ==> e.replies == [] && !e.assembly.isContinuation)
  {
    match ReadFrame(side, input)
    case Fault(code) => Breaks(code)
    case Read(f, size) => Process(a, f, size)
  }

  /** What recv makes of the bytes of the stream, given what is already assembled. Replies
      are listed in the order in which they are due. */
  function Receive(side: Side, input: Bytes, a: Assembly): Received
    decreases |input|
  {
    match OneFrame(side, input, a)
    case Breaks(code) => Failed(code, [])
    case Closes(code, size) => Closed(code, [], input[size..])
    case Moves(b, replies, done, size) =>
      if done then Delivered(b.message, b.isText, [], input[size..])
      else Before(replies, Receive(side, input[size..], b))
  }

  datatype Answer = Answered(rest: Bytes) | Unanswered(code: nat)

  /** What a side that waits for a close frame makes of the stream: every other frame is dropped. */
  function ToClose(side: Side, input: Bytes): Answer
    decreases |input|
  {
    match ReadFrame(side, input)
    case Fault(code) => Unanswered(code)
    case Read(f, size) =>
      if f.opcode == CLOSE then Answered(input[size..]) else ToClose(side, input[size..])
  }

  lemma BeforeNothing(r: Received)
    ensures Before([], r) == r
  {
  }

  lemma BeforeTwice(x: seq<Reply>, y: seq<Reply>, r: Received)
    ensures Before(x, Before(y, r)) == Before(x + y, r)
  {
    assert x + (y + r.replies) == (x + y) + r.replies;
  }

  // ----- fragmentation (section 5.4 of RFC 6455) ---------------------------------------------

  function Joined(fs: seq<Frame>): Bytes {
    if fs == [] then [] else fs[0].payload + Joined(fs[1..])
  }

  function DataFrames(fs: seq<Frame>): seq<Frame> {
    if fs == [] then []
    else if IsControl(fs[0].opcode) then DataFrames(fs[1..])
    else [fs[0]] + DataFrames(fs[1..])
  }

  function Pongs(fs: seq<Frame>): seq<Reply> {
    if fs == [] then []
    else if fs[0].opcode == PING then [Reply(PONG, fs[0].payload)] + Pongs(fs[1..])
    else Pongs(fs[1..])
  }

  function TypeOpcode(isText: bool): Byte { if isText then TEXT else BINARY }

  /** d is the rest of one message: its first frame says the type unless the message has
      already begun, the others continue it, and exactly the last one is final. */
  predicate Fragments(d: seq<Frame>, begun: bool, isText: bool) {
    && d != []
    && d[0].opcode == (if begun then CONTINUATION else TypeOpcode(isText))
    && (forall i :: 1 <= i < |d| ==> d[i].opcode == CONTINUATION)
    && (forall i :: 0 <= i < |d| ==> (d[i].fin <==> i == |d| - 1))
  }

  /** Pings and pongs may stand between the fragments; the last frame is a data frame. */
  predicate Interleaving(fs: seq<Frame>) {
    && fs != [] && !IsControl(fs[|fs| - 1].opcode)
    && forall i :: 0 <= i < |fs| ==> Sendable(fs[i])
  }

  predicate Sendable(f: Frame) {
    && IsOpcode(f.opcode) && f.opcode != CLOSE
    && |f.payload| < 0x1_0000_0000_0000_0000
    && (IsControl(f.opcode) ==> |f.payload| <= MAXIMUM_LENGTH)
  }

  predicate AreMasks(masks: seq<Bytes>, n: nat) {
    |masks| == n && forall i :: 0 <= i < n ==> |masks[i]| == 4
  }

  /** The frames as a conforming peer puts them on the wire, one after the other. */
  function Wire(side: Side, fs: seq<Frame>, masks: seq<Bytes>): Bytes
    requires AreMasks(masks, |fs|)
  {
    if fs == [] then [] else RfcFrame(side, fs[0], masks[0]) + Wire(side, fs[1..], masks[1..])
  }

  /** One step of Receive on a frame printed by the peer. */
  lemma ReceiveFrame(side: Side, f: Frame, mask: Bytes, more: Bytes, a: Assembly)
    requires Sendable(f) && |mask| == 4
    ensures Receive(side.Peer(), RfcFrame(side, f, mask) + more, a)
         == if |f.payload| > MAXIMUM_LENGTH then Failed(TOO_BIG, [])
            else if f.opcode == PING then Before([Reply(PONG, f.payload)], Receive(side.Peer(), more, a))
            else if f.opcode == PONG then Receive(side.Peer(), more, a)
            else if Accept(a, f).Rejected? then Failed(Accept(a, f).code, [])
            else if f.fin then Delivered(Accept(a, f).assembly.message, Accept(a, f).assembly.isText, [], more)
            else Receive(side.Peer(), more, Accept(a, f).assembly)
  {
    hide RfcFrame, ReadFrame, Accept;
    var input := RfcFrame(side, f, mask) + more;
    RfcRoundTrip(side, f, mask, more);
    assert input[|RfcFrame(side, f, mask)|..] == more;
    BeforeNothing(Receive(side.Peer(), more, a));
    if Accept(a, f).Accepted? {
      BeforeNothing(Receive(side.Peer(), more, Accept(a, f).assembly));
    }
  }

  /** A close frame ends the call with its code, whatever has been assembled. */
  lemma ReceiveClose(side: Side, fin: bool, payload: Bytes, mask: Bytes, more: Bytes, a: Assembly)
    requires |mask| == 4 && |payload| <= MAXIMUM_LENGTH
    ensures Receive(side.Peer(), RfcFrame(side, Frame(fin, CLOSE, payload), mask) + more, a)
         == Closed(CloseReason(payload), [], more)
  {
    hide RfcFrame, ReadFrame;
    var f := Frame(fin, CLOSE, payload);
    RfcRoundTrip(side, f, mask, more);
    assert (RfcFrame(side, f, mask) + more)[|RfcFrame(side, f, mask)|..] == more;
  }

  /** A side that waits for a close frame drops every frame in front of it, and takes it. */
  lemma {:induction false} ToCloseWire(side: Side, fs: seq<Frame>, masks: seq<Bytes>, c: Frame, mask: Bytes,
                                       rest: Bytes)
    requires AreMasks(masks, |fs|) && |mask| == 4
    requires forall i :: 0 <= i < |fs| ==> Sendable(fs[i]) && |fs[i].payload| <= MAXIMUM_LENGTH
    requires c.opcode == CLOSE && |c.payload| <= MAXIMUM_LENGTH
    ensures ToClose(side.Peer(), Wire(side, fs, masks) + (RfcFrame(side, c, mask) + rest)) == Answered(rest)
  {
    hide RfcFrame, ReadFrame;
    var last := RfcFrame(side, c, mask) + rest;
    if fs == [] {
      assert Wire(side, fs, masks) + last == last;
      RfcRoundTrip(side, c, mask, rest);
      assert last[|RfcFrame(side, c, mask)|..] == rest;
    } else {
      var first := RfcFrame(side, fs[0], masks[0]);
      var next := Wire(side, fs[1..], masks[1..]) + last;
      assert Wire(side, fs, masks) + last == first + next;
      RfcRoundTrip(side, fs[0], masks[0], next);
      assert (first + next)[|first|..] == next;
      ToCloseWire(side, fs[1..], masks[1..], c, mask, rest);
    }
  }

  /** What should come of the frames of one message: it is delivered whole, with the type of
      its first frame and a pong for every ping, and the bytes behind it are left alone;
      unless it is over 128 MB, and then the connection fails with 1009. */
  ghost predicate Reassembled(fs: seq<Frame>, more: Bytes, a: Assembly, isText: bool, r: Received) {
    var whole := (if a.isContinuation then a.message else []) + Joined(DataFrames(fs));
    if |whole| <= MAXIMUM_LENGTH then r == Delivered(whole, isText, Pongs(fs), more)
    else r.Failed? && r.code == TOO_BIG && r.replies <= Pongs(fs)
  }

  lemma {:induction false} Reassembly(side: Side, fs: seq<Frame>, masks: seq<Bytes>, more: Bytes,
                                      a: Assembly, isText: bool)
    requires Interleaving(fs) && AreMasks(masks, |fs|)
    requires Fragments(DataFrames(fs), a.isContinuation, isText)
    requires a.isContinuation ==> a.isText == isText && |a.message| <= MAXIMUM_LENGTH
    ensures Reassembled(fs, more, a, isText, Receive(side.Peer(), Wire(side, fs, masks) + more, a))
  {
    hide Receive, RfcFrame, Joined, Fragments, Reassembled;
    var f, tail := fs[0], fs[1..];
    var next := Wire(side, tail, masks[1..]) + more;
    assert Wire(side, fs, masks) + more == RfcFrame(side, f, masks[0]) + next;
    ReceiveFrame(side, f, masks[0], next, a);
    if IsControl(f.opcode) {
      TailInterleaves(fs);
      Reassembly(side, tail, masks[1..], more, a, isText);
      ControlStep(fs, more, a, isText, Receive(side.Peer(), next, a));
    } else {
      FirstFragment(fs, a, isText);
      if |f.payload| <= MAXIMUM_LENGTH && Accept(a, f).Accepted? && !f.fin {
        TailInterleaves(fs);
        Reassembly(side, tail, masks[1..], more, Accept(a, f).assembly, isText);
        DataStep(fs, more, a, isText, Receive(side.Peer(), next, Accept(a, f).assembly));
      } else {
        if |fs| == 1 { assert next == more; }
        EndStep(fs, more, a, isText);
      }
    }
  }

  lemma ControlStep(fs: seq<Frame>, more: Bytes, a: Assembly, isText: bool, r: Received)
    requires fs != [] && IsControl(fs[0].opcode)
    requires Reassembled(fs[1..], more, a, isText, r)
    ensures Reassembled(fs, more, a, isText,
                        if fs[0].opcode == PING then Before([Reply(PONG, fs[0].payload)], r) else r)
  {
  }

  /** The head of the list, when it is a data frame, fits what has been assembled. */
  lemma FirstFragment(fs: seq<Frame>, a: Assembly, isText: bool)
    requires Interleaving(fs) && !IsControl(fs[0].opcode)
    requires Fragments(DataFrames(fs), a.isContinuation, isText)
    ensures fs[0].opcode == if a.isContinuation then CONTINUATION else TypeOpcode(isText)
    ensures !fs[0].fin ==> |fs| > 1 && Fragments(DataFrames(fs[1..]), true, isText)
    ensures fs[0].fin ==> |fs| == 1
  {
    hide DataFrames, Joined, Pongs;
    var d := DataFrames(fs);
    DataAtHead(fs);
    assert d[1..] == DataFrames(fs[1..]);
    if fs[0].fin {
      assert |d| == 1;
      if |fs| > 1 {
        LastStays(fs[1..]);
      }
    } else {
      FragmentsTail(d, a.isContinuation, isText);
      if |fs| == 1 {
        Nothing(fs[1..]);
      }
    }
  }

  lemma DataStep(fs: seq<Frame>, more: Bytes, a: Assembly, isText: bool, r: Received)
    requires fs != [] && !IsControl(fs[0].opcode)
    requires fs[0].opcode == if a.isContinuation then CONTINUATION else TypeOpcode(isText)
    requires Accept(a, fs[0]).Accepted? && !fs[0].fin
    requires Reassembled(fs[1..], more, Accept(a, fs[0]).assembly, isText, r)
    ensures Reassembled(fs, more, a, isText, r)
  {
    hide Joined, DataFrames, Pongs;
    DataAtHead(fs);
    var start, rest := if a.isContinuation then a.message else [], Joined(DataFrames(fs[1..]));
    assert start + (fs[0].payload + rest) == (start + fs[0].payload) + rest;
  }

  /** The message ends here, or grows too big here. */
  lemma EndStep(fs: seq<Frame>, more: Bytes, a: Assembly, isText: bool)
    requires fs != [] && !IsControl(fs[0].opcode) && (fs[0].fin ==> |fs| == 1)
    requires fs[0].opcode == if a.isContinuation then CONTINUATION else TypeOpcode(isText)
    requires a.isContinuation ==> a.isText == isText
    requires |fs[0].payload| <= MAXIMUM_LENGTH && Accept(a, fs[0]).Accepted? ==> fs[0].fin
    ensures Reassembled(fs, more, a, isText,
                        if |fs[0].payload| > MAXIMUM_LENGTH || Accept(a, fs[0]).Rejected? then Failed(TOO_BIG, [])
                        else Delivered(Accept(a, fs[0]).assembly.message, isText, [], more))
  {
    hide Joined, DataFrames, Pongs;
    DataAtHead(fs);
    if fs[0].fin {
      Nothing(fs[1..]);
    }
  }

  lemma DataAtHead(fs: seq<Frame>)
    requires fs != [] && !IsControl(fs[0].opcode)
    ensures DataFrames(fs) == [fs[0]] + DataFrames(fs[1..]) && Pongs(fs) == Pongs(fs[1..])
    ensures Joined(DataFrames(fs)) == fs[0].payload + Joined(DataFrames(fs[1..]))
  {
    var d := DataFrames(fs);
    assert d[1..] == DataFrames(fs[1..]);
    JoinedFirst(d);
  }

  lemma Nothing(fs: seq<Frame>)
    requires fs == []
    ensures DataFrames(fs) == [] && Pongs(fs) == [] && Joined([]) == []
  {
  }

  lemma JoinedFirst(d: seq<Frame>)
    requires d != []
    ensures Joined(d) == d[0].payload + Joined(d[1..])
    ensures |d| == 1 ==> Joined(d) == d[0].payload
  {
  }

  lemma TailInterleaves(fs: seq<Frame>)
    requires Interleaving(fs) && |fs| > 1
    ensures Interleaving(fs[1..])
  {
    assert fs[1..][|fs| - 2] == fs[|fs| - 1];
  }

  lemma FragmentsTail(d: seq<Frame>, begun: bool, isText: bool)
    requires Fragments(d, begun, isText) && !d[0].fin
    ensures Fragments(d[1..], true, isText)
  {
    assert |d| > 1;
    forall i | 0 <= i < |d| - 1
      ensures d[1..][i].fin <==> i == |d| - 2
    {
      assert d[1..][i] == d[i + 1];
    }
  }

  lemma {:induction false} LastStays(fs: seq<Frame>)
    requires fs != [] && !IsControl(fs[|fs| - 1].opcode)
    ensures DataFrames(fs) != []
  {
    if |fs| > 1 {
      assert fs[1..][|fs| - 2] == fs[|fs| - 1];
      LastStays(fs[1..]);
    }
  }
}
