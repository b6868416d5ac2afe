/** recv is called again and again: calls that end before a message has come in, and then the
    call that delivers it. */
module Polling {
  import opened Octets
  import opened Frames
  import opened Messages
  import opened Runs
  import opened Transport
  import opened WebSockets

  // ----- a call in the middle of a message -------------------------------------------------------

  /** What is assembled when the data frames d have come in and none of them was the last. */
  function Gathered(a: Assembly, d: seq<Frame>): Assembly {
    if d == [] then a
    else
      Assembly((if a.isContinuation then a.message else []) + Joined(d),
               if a.isContinuation then a.isText else d[0].opcode == TEXT,
               true)
  }

  /** A call that has read n of the frames fs: the others are still in the stream. */
  function Standing(side: Side, fs: seq<Frame>, masks: seq<Bytes>, more: Bytes, a: Assembly, n: nat): Progress
    requires AreMasks(masks, |fs|) && n <= |fs|
  {
    var d := DataFrames(fs[..n]);
    At(Wire(side, fs[n..], masks[n..]) + more, Gathered(a, d), Pongs(fs[..n]), Arriving(d))
  }

  /** The first frame is in front of the others. */
  lemma Split(fs: seq<Frame>, n: nat)
    requires 0 < n <= |fs|
    ensures var f, tail := fs[0], fs[1..];
            && fs[n..] == tail[n - 1..]
            && DataFrames(fs[..n]) == (if IsControl(f.opcode) then [] else [f]) + DataFrames(tail[..n - 1])
            && Pongs(fs[..n]) == (if f.opcode == PING then [Reply(PONG, f.payload)] else []) + Pongs(tail[..n - 1])
  {
    var head := fs[..n];
    assert head[0] == fs[0] && head[1..] == fs[1..][..n - 1];
  }

  lemma GatheredFirst(a: Assembly, f: Frame, d: seq<Frame>)
    ensures Gathered(a, [f] + d) == Gathered(Gathered(a, [f]), d)
  {
    hide Joined;
    var start := if a.isContinuation then a.message else [];
    JoinedFirst([f] + d);
    JoinedFirst([f]);
    assert ([f] + d)[1..] == d;
    if d == [] {
      assert [f] + d == [f];
    } else {
      assert start + (f.payload + Joined(d)) == (start + f.payload) + Joined(d);
    }
  }

  lemma OnwardWire(side: Side, f: Frame, mask: Bytes, next: Bytes, a: Assembly)
    requires Sendable(f) && |mask| == 4
    ensures Onward(side.Peer(), At(RfcFrame(side, f, mask) + next, a, [], []))
         == if |f.payload| > MAXIMUM_LENGTH then Stuck
            else if f.opcode == PING then At(next, a, [Reply(PONG, f.payload)], [])
            else if f.opcode == PONG then At(next, a, [], [])
            else if Accept(a, f).Rejected? || f.fin then Stuck
            else At(next, Accept(a, f).assembly, [], [Arrival(f)])
  {
    hide RfcFrame, ReadFrame, Accept;
    var input := RfcFrame(side, f, mask) + next;
    RfcRoundTrip(side, f, mask, next);
    assert input[|RfcFrame(side, f, mask)|..] == next;
  }

  /** A fragment that is accepted and is not the last is gathered. */
  lemma AcceptedIsGathered(a: Assembly, f: Frame, isText: bool)
    requires f.opcode == (if a.isContinuation then CONTINUATION else TypeOpcode(isText))
    requires Accept(a, f).Accepted? && !f.fin
    ensures Accept(a, f).assembly == Gathered(a, [f])
  {
    JoinedFirst([f]);
  }

  /** The head of the list has been handled: what is expected of the tail. */
  lemma TailFits(side: Side, fs: seq<Frame>, mask: Bytes, next: Bytes, a: Assembly, isText: bool)
    requires Interleaving(fs) && |mask| == 4 && Fragments(DataFrames(fs), a.isContinuation, isText)
    ensures var f, p := fs[0], Onward(side.Peer(), At(RfcFrame(side, fs[0], mask) + next, a, [], []));
            p.At? ==>
              && |fs| > 1 && Interleaving(fs[1..]) && p.rest == next
              && p.assembly == (if IsControl(f.opcode) then a else Gathered(a, [f]))
              && p.replies == (if f.opcode == PING then [Reply(PONG, f.payload)] else [])
              && p.arrivals == Arriving(if IsControl(f.opcode) then [] else [f])
              && Fragments(DataFrames(fs[1..]), p.assembly.isContinuation, isText)
  {
    hide Onward, RfcFrame, Joined, Fragments, Accept, Gathered;
    var f := fs[0];
    OnwardWire(side, f, mask, next, a);
    var p := Onward(side.Peer(), At(RfcFrame(side, f, mask) + next, a, [], []));
    if p.At? {
      if IsControl(f.opcode) {
        assert |fs| > 1;
      } else {
        FirstFragment(fs, a, isText);
        AcceptedIsGathered(a, f, isText);
        GatheredContinues(a, f);
      }
      TailInterleaves(fs);
    }
  }

  lemma GatheredContinues(a: Assembly, f: Frame)
    ensures Gathered(a, [f]).isContinuation
  {
  }

  lemma WireFirst(side: Side, fs: seq<Frame>, masks: seq<Bytes>, more: Bytes)
    requires fs != [] && AreMasks(masks, |fs|)
    ensures Wire(side, fs, masks) + more == RfcFrame(side, fs[0], masks[0]) + (Wire(side, fs[1..], masks[1..]) + more)
  {
  }

  lemma StandingNext(side: Side, fs: seq<Frame>, masks: seq<Bytes>, more: Bytes, a: Assembly, n: nat)
    requires AreMasks(masks, |fs|) && 0 < n <= |fs|
    ensures var f := fs[0];
            var d := if IsControl(f.opcode) then [] else [f];
            var replies := if f.opcode == PING then [Reply(PONG, f.payload)] else [];
            && Standing(side, fs, masks, more, a, n)
               == Behind(replies, Arriving(d), Standing(side, fs[1..], masks[1..], more, Gathered(a, d), n - 1))
            && Gathered(a, DataFrames(fs[..n])) == Gathered(Gathered(a, d), DataFrames(fs[1..][..n - 1]))
  {
    hide Wire, DataFrames, Pongs, Gathered, Arriving;
    Split(fs, n);
    assert masks[n..] == masks[1..][n - 1..];
    var f := fs[0];
    GatheredParts(a, if IsControl(f.opcode) then [] else [f], DataFrames(fs[1..][..n - 1]));
  }

  lemma GatheredParts(a: Assembly, d: seq<Frame>, rest: seq<Frame>)
    requires |d| <= 1
    ensures Gathered(a, d + rest) == Gathered(Gathered(a, d), rest)
    ensures Arriving(d + rest) == Arriving(d) + Arriving(rest)
  {
    hide Gathered;
    NothingGathered(a, rest);
    if d == [] {
      assert d + rest == rest;
    } else {
      assert d == [d[0]];
      GatheredFirst(a, d[0], rest);
    }
  }

  lemma NothingGathered(a: Assembly, d: seq<Frame>)
    ensures Gathered(a, []) == a && Arriving([]) == [] && [] + Arriving(d) == Arriving(d)
  {
  }

  lemma StandingAtStart(side: Side, fs: seq<Frame>, masks: seq<Bytes>, more: Bytes, a: Assembly)
    requires AreMasks(masks, |fs|)
    ensures Along(side.Peer(), Wire(side, fs, masks) + more, a, 0) == Standing(side, fs, masks, more, a, 0)
    ensures fs[0..] == fs && Gathered(a, DataFrames(fs[..0])) == a
  {
    hide Wire;
    assert fs[..0] == [] && masks[0..] == masks;
  }

  /** As long as a call is running it has not read the last frame of the message, and it stands
      exactly behind the n frames that it has read. */
  lemma {:induction false} AlongWire(side: Side, fs: seq<Frame>, masks: seq<Bytes>, more: Bytes, a: Assembly,
                                     isText: bool, n: nat)
    requires Interleaving(fs) && AreMasks(masks, |fs|)
    requires Fragments(DataFrames(fs), a.isContinuation, isText)
    requires Along(side.Peer(), Wire(side, fs, masks) + more, a, n).At?
    ensures n < |fs| && Along(side.Peer(), Wire(side, fs, masks) + more, a, n) == Standing(side, fs, masks, more, a, n)
    ensures Interleaving(fs[n..])
    ensures Fragments(DataFrames(fs[n..]), Gathered(a, DataFrames(fs[..n])).isContinuation, isText)
    decreases n
  {
    hide Along, Onward, RfcFrame, Joined, Fragments, Accept, DataFrames, Pongs, Gathered, Wire, Standing;
    var input := Wire(side, fs, masks) + more;
    if n == 0 {
      StandingAtStart(side, fs, masks, more, a);
    } else {
      var next := Wire(side, fs[1..], masks[1..]) + more;
      WireFirst(side, fs, masks, more);
      AlongFirst(side.Peer(), input, a, n);
      TailFits(side, fs, masks[0], next, a, isText);
      var p := Onward(side.Peer(), At(input, a, [], []));
      AlongWire(side, fs[1..], masks[1..], more, p.assembly, isText, n - 1);
      StandingNext(side, fs, masks, more, a, n);
      NothingGathered(a, []);
      assert fs[1..][n - 1..] == fs[n..];
    }
  }

  // ----- one call --------------------------------------------------------------------------------

  /** ws has the frames fs of a message, or of what is left of one, in front of it. */
  ghost predicate Awaits(ws: WebSocket, peer: Side, fs: seq<Frame>, masks: seq<Bytes>, more: Bytes, isText: bool)
    reads ws, ws.socket
  {
    && ws.side == peer.Peer() && AreMasks(masks, |fs|) && ws.socket.input == Wire(peer, fs, masks) + more
    && Interleaving(fs) && Fragments(DataFrames(fs), ws.isContinuation, isText)
    && (ws.isContinuation ==> ws.isText == isText)
    && |Joined(DataFrames(fs))| <= MAXIMUM_LENGTH
  }

  /** One recv call. It delivers what it has in front of it, and exactly that; or it runs out of
      time somewhere before the last frame, and the next call has in front of it what this one has
      not read; or there is a reason outside the stream. */
  method ReceiveNext(ws: WebSocket, timeout: real, ghost peer: Side, ghost fs: seq<Frame>, ghost masks: seq<Bytes>,
                     ghost more: Bytes, ghost isText: bool)
    returns (r: Try<(RecvStatus, Bytes)>, ghost n: nat)
    requires ws.Valid() && Awaits(ws, peer, fs, masks, more, isText)
    modifies ws, ws.clock, ws.socket
    ensures ws.Valid() && ws.Later() && !r.RecvError? && (r.SleepError? ==> ws.Interrupted())
    ensures r.Ok? && r.value.0 in {RecvText, RecvBinary} ==>
              && r.value == (MessageType(isText), Joined(DataFrames(fs)))
              && ws.socket.input == more && !ws.isContinuation
              && Contents(ws.sent) == Contents(old(ws.sent)) + Pongs(fs)
    ensures r.Ok? && r.value.0 == RecvTimeOut ==>
              && n < |fs| && Awaits(ws, peer, fs[n..], masks[n..], more, isText)
              && r.value.1 == Joined(DataFrames(fs[..n]))
              && Contents(ws.sent) == Contents(old(ws.sent)) + Pongs(fs[..n])
              && (n == 0 ==> ws.isContinuation == old(ws.isContinuation))
    ensures r.Ok? && r.value.0 in {RecvFailed, RecvClosed} ==> ws.Faulty()
  {
    hide WebSocket.Valid, Along, Receive, Wire, DataFrames, Joined, Pongs, Fragments, Interleaving, Reassembled;
    ghost var a, input := ws.Assembled([]), ws.socket.input;
    ghost var done, code;
    Reassembly(peer, fs, masks, more, a, isText);
    WholeMessage(fs, more, a, isText, Receive(ws.side, input, a));
    r, n, done, code := ws.Recv(timeout);
    if r.Ok? && r.value.0 == RecvTimeOut {
      AlongWire(peer, fs, masks, more, a, isText, n);
      StillAwaited(fs, a, isText, n);
    }
  }

  lemma WholeMessage(fs: seq<Frame>, more: Bytes, a: Assembly, isText: bool, r: Received)
    requires Reassembled(fs, more, a, isText, r) && a.message == [] && |Joined(DataFrames(fs))| <= MAXIMUM_LENGTH
    ensures r == Delivered(Joined(DataFrames(fs)), isText, Pongs(fs), more)
  {
    assert [] + Joined(DataFrames(fs)) == Joined(DataFrames(fs));
  }

  /** What is gathered of the message by one call, and what is left for the next. */
  lemma StillAwaited(fs: seq<Frame>, a: Assembly, isText: bool, n: nat)
    requires n <= |fs| && a.message == [] && Fragments(DataFrames(fs), a.isContinuation, isText)
    requires a.isContinuation ==> a.isText == isText
    ensures var b := Gathered(a, DataFrames(fs[..n]));
            b.message == Joined(DataFrames(fs[..n])) && (b.isContinuation ==> b.isText == isText)
    ensures Joined(DataFrames(fs)) == Joined(DataFrames(fs[..n])) + Joined(DataFrames(fs[n..]))
    ensures Pongs(fs) == Pongs(fs[..n]) + Pongs(fs[n..])
    ensures n == 0 ==> Gathered(a, DataFrames(fs[..n])) == a
  {
    hide Joined, Pongs;
    PartsOf(fs, n);
    var d := DataFrames(fs[..n]);
    assert [] + Joined(d) == Joined(d);
    JoinedNothing();
    if d != [] {
      assert d[0] == DataFrames(fs)[0];
    }
  }

  lemma JoinedNothing()
    ensures Joined([]) == []
  {
  }

  lemma {:induction false} PartsOf(fs: seq<Frame>, n: nat)
    requires n <= |fs|
    ensures DataFrames(fs) == DataFrames(fs[..n]) + DataFrames(fs[n..])
    ensures Joined(DataFrames(fs)) == Joined(DataFrames(fs[..n])) + Joined(DataFrames(fs[n..]))
    ensures Pongs(fs) == Pongs(fs[..n]) + Pongs(fs[n..])
    decreases n
  {
    hide Joined, DataFrames, Pongs;
    if n == 0 {
      assert fs[..0] == [] && fs[0..] == fs;
      Nothing(fs[..0]);
    } else {
      Split(fs, n);
      FirstPart(fs);
      FirstPart(fs[..n]);
      assert fs[..n][1..] == fs[1..][..n - 1];
      PartsOf(fs[1..], n - 1);
      Regrouped(if IsControl(fs[0].opcode) then [] else fs[0].payload, Joined(DataFrames(fs[1..][..n - 1])),
                Joined(DataFrames(fs[n..])));
    }
  }

  lemma Regrouped(a: Bytes, b: Bytes, c: Bytes)
    ensures a + (b + c) == (a + b) + c
  {
  }

  lemma FirstPart(fs: seq<Frame>)
    requires fs != []
    ensures var f := fs[0];
            && DataFrames(fs) == (if IsControl(f.opcode) then [] else [f]) + DataFrames(fs[1..])
            && Joined(DataFrames(fs)) == (if IsControl(f.opcode) then [] else f.payload) + Joined(DataFrames(fs[1..]))
            && Pongs(fs) == (if f.opcode == PING then [Reply(PONG, f.payload)] else []) + Pongs(fs[1..])
  {
    hide Joined;
    if !IsControl(fs[0].opcode) {
      DataAtHead(fs);
    }
  }

  // ----- many calls ------------------------------------------------------------------------------

  /** recv is called until it brings something, at most so many times. k counts the frames that the
      calls without a result have read: they are lost, and the message is the whole one if and only
      if they carried no byte of it. A message of one frame is never lost. */
  method Poll(ws: WebSocket, times: nat, timeout: real, ghost peer: Side, ghost fs: seq<Frame>, ghost masks: seq<Bytes>,
              ghost more: Bytes, ghost isText: bool)
    returns (r: Try<(RecvStatus, Bytes)>, ghost k: nat)
    requires ws.Valid() && Awaits(ws, peer, fs, masks, more, isText)
    modifies ws, ws.clock, ws.socket
    ensures ws.Valid() && ws.Later() && !r.RecvError? && (r.SleepError? ==> ws.Interrupted())
    ensures k < |fs|
    ensures r.Ok? && r.value.0 in {RecvText, RecvBinary} ==>
              && r.value == (MessageType(isText), Joined(DataFrames(fs[k..])))
              && (r.value.1 == Joined(DataFrames(fs)) <==> Joined(DataFrames(fs[..k])) == [])
              && ws.socket.input == more && !ws.isContinuation
              && Contents(ws.sent) == Contents(old(ws.sent)) + Pongs(fs)
    ensures r.Ok? && r.value.0 == RecvTimeOut ==>
              && Awaits(ws, peer, fs[k..], masks[k..], more, isText)
              && Contents(ws.sent) == Contents(old(ws.sent)) + Pongs(fs[..k])
    ensures r.Ok? && r.value.0 in {RecvFailed, RecvClosed} ==> ws.Faulty()
  {
    hide WebSocket.Valid, Wire, DataFrames, Joined, Pongs, Fragments, Interleaving;
    NotEmpty(fs);
    var i := 0;
    k := 0;
    r := Ok((RecvTimeOut, []));
    assert fs[0..] == fs && masks[0..] == masks && fs[..0] == [];
    Nothing(fs[..0]);
    while i < times
      invariant ws.Valid() && ws.Later() && k < |fs| && r.Ok? && r.value.0 == RecvTimeOut
      invariant Awaits(ws, peer, fs[k..], masks[k..], more, isText)
      invariant Contents(ws.sent) == Contents(old(ws.sent)) + Pongs(fs[..k])
    {
      ghost var n;
      r, n := ReceiveNext(ws, timeout, peer, fs[k..], masks[k..], more, isText);
      PartsOf(fs, k);
      if !r.Ok? || r.value.0 != RecvTimeOut {
        NothingLost(Joined(DataFrames(fs[..k])), Joined(DataFrames(fs[k..])));
        return;
      }
      PongsSoFar(fs, k, n);
      assert fs[k..][n..] == fs[k + n..] && masks[k..][n..] == masks[k + n..];
      k := k + n;
      i := i + 1;
    }
  }

  lemma NotEmpty(fs: seq<Frame>)
    requires Interleaving(fs)
    ensures fs != []
  {
  }

  lemma PongsSoFar(fs: seq<Frame>, k: nat, n: nat)
    requires k + n <= |fs|
    ensures Pongs(fs[..k]) + Pongs(fs[k..][..n]) == Pongs(fs[..k + n])
  {
    hide Pongs;
    PartsOf(fs[..k + n], k);
    assert fs[..k + n][..k] == fs[..k] && fs[..k + n][k..] == fs[k..][..n];
  }

  // ----- many messages -----------------------------------------------------------------------------

  lemma StreamFirst(peer: Side, ms: seq<Message>, masks: seq<Bytes>, rest: Bytes)
    requires ms != [] && AreMasks(masks, |ms|)
    ensures PrintedStream(peer, ms, masks) + rest
         == PrintedFrame(peer, TypeOpcode(ms[0].isText), ms[0].data, masks[0])
            + (PrintedStream(peer, ms[1..], masks[1..]) + rest)
  {
    hide PrintedFrame;
  }

  lemma NoMoreStream(peer: Side, ms: seq<Message>, masks: seq<Bytes>, rest: Bytes)
    requires ms == [] && masks == []
    ensures PrintedStream(peer, ms, masks) + rest == rest
  {
  }

  function FrameFor(m: Message): Frame { Frame(true, TypeOpcode(m.isText), m.data) }

  /** A message as a list of one frame. */
  lemma OneFrameOnly(m: Message)
    ensures var fs := [FrameFor(m)];
            && Interleaving(fs[..1]) == (|m.data| < 0x1_0000_0000_0000_0000)
            && DataFrames(fs) == fs && Joined(fs) == m.data && Pongs(fs) == [] && Fragments(fs, false, m.isText)
            && !Fragments(fs, true, m.isText)
  {
    var fs := [FrameFor(m)];
    assert fs[1..] == [] && fs[..1] == fs;
    Nothing(fs[1..]);
    JoinedFirst(fs);
  }

  lemma OneFrameWire(peer: Side, m: Message, mask: Bytes)
    requires |mask| == 4 && Carried(|m.data|)
    ensures Wire(peer, [FrameFor(m)], [mask]) == PrintedFrame(peer, TypeOpcode(m.isText), m.data, mask)
  {
    hide PrintedFrame, RfcFrame;
    PrintsRfcExcept65536(peer, TypeOpcode(m.isText), m.data, mask);
    var fs, masks := [FrameFor(m)], [mask];
    assert Wire(peer, fs[1..], masks[1..]) == [];
    assert Wire(peer, fs, masks) == RfcFrame(peer, fs[0], masks[0]) + [];
  }

  lemma MessageAwaited(ws: WebSocket, peer: Side, m: Message, mask: Bytes, next: Bytes)
    requires ws.side == peer.Peer() && |mask| == 4 && Carried(|m.data|)
    ensures Awaits(ws, peer, [FrameFor(m)], [mask], next, m.isText)
            <==> !ws.isContinuation
                 && ws.socket.input == PrintedFrame(peer, TypeOpcode(m.isText), m.data, mask) + next
  {
    hide PrintedFrame, RfcFrame, Wire, DataFrames, Joined, Pongs, Fragments, Interleaving;
    OneFrameOnly(m);
    OneFrameWire(peer, m, mask);
    assert [FrameFor(m)][..1] == [FrameFor(m)];
  }

  /** One message that the other side has sent whole: delivered whole, or still there, or there was a
      reason. */
  method PollMessage(ws: WebSocket, times: nat, timeout: real, ghost peer: Side, ghost m: Message, ghost mask: Bytes,
                     ghost next: Bytes)
    returns (r: Try<(RecvStatus, Bytes)>)
    requires ws.Valid() && ws.side == peer.Peer() && !ws.isContinuation && |mask| == 4 && Carried(|m.data|)
    requires ws.socket.input == PrintedFrame(peer, TypeOpcode(m.isText), m.data, mask) + next
    modifies ws, ws.clock, ws.socket
    ensures ws.Valid() && ws.Later() && !r.RecvError? && (r.SleepError? ==> ws.Interrupted())
    ensures r.Ok? && r.value.0 in {RecvText, RecvBinary} ==>
              && r.value == (MessageType(m.isText), m.data)
              && ws.socket.input == next && !ws.isContinuation && Contents(ws.sent) == Contents(old(ws.sent))
    ensures r.Ok? && r.value.0 == RecvTimeOut ==> ws.socket.input == old(ws.socket.input) && !ws.isContinuation
    ensures r.Ok? && r.value.0 in {RecvFailed, RecvClosed} ==> ws.Faulty()
  {
    hide WebSocket.Valid, PrintedFrame, Awaits, DataFrames, Joined, Pongs;
    MessageAwaited(ws, peer, m, mask, next);
    ghost var k;
    r, k := Poll(ws, times, timeout, peer, [FrameFor(m)], [mask], next, m.isText);
    MessageAwaited(ws, peer, m, mask, next);
    OneFrameOnly(m);
    assert [FrameFor(m)][0..] == [FrameFor(m)] && [mask][0..] == [mask];
  }

  /** Messages that one side of this library has sent in a row, received one after the other by
      polling the socket of the other side. got is a beginning of them, in order and each of them
      whole; when it is not all of them there was a reason, and after a timeout the others are still
      there for later calls. */
  method PollAll(ws: WebSocket, times: nat, timeout: real, ghost peer: Side, messages: nat, ghost ms: seq<Message>,
                 ghost masks: seq<Bytes>, ghost rest: Bytes)
    returns (got: seq<Message>, last: Try<(RecvStatus, Bytes)>)
    requires ws.Valid() && ws.side == peer.Peer() && !ws.isContinuation
    requires messages == |ms| && AreMasks(masks, |ms|) && AllCarried(ms)
    requires ws.socket.input == PrintedStream(peer, ms, masks) + rest
    modifies ws, ws.clock, ws.socket
    ensures ws.Valid() && |got| <= |ms| && got == ms[..|got|]
    ensures |got| == |ms| ==>
              ws.socket.input == rest && !ws.isContinuation && Contents(ws.sent) == Contents(old(ws.sent))
    ensures |got| < |ms| ==>
              match last
              case SleepError => ws.Interrupted()
              case RecvError(_) => false
              case Ok(result) =>
                if result.0 == RecvTimeOut then
                  ws.socket.input == PrintedStream(peer, ms[|got|..], masks[|got|..]) + rest && !ws.isContinuation
                else ws.Faulty()
  {
    hide WebSocket.Valid, PrintedFrame, PrintedStream;
    got, last := [], Ok((RecvTimeOut, []));
    assert ms[0..] == ms && masks[0..] == masks;
    while |got| < messages
      invariant ws.Valid() && ws.Later() && |got| <= |ms| && got == ms[..|got|] && !ws.isContinuation
      invariant ws.socket.input == PrintedStream(peer, ms[|got|..], masks[|got|..]) + rest
      invariant Contents(ws.sent) == Contents(old(ws.sent))
      decreases messages - |got|
    {
      ghost var i := |got|;
      ghost var m, mask, next := ms[i], masks[i], PrintedStream(peer, ms[i + 1..], masks[i + 1..]) + rest;
      StreamFirst(peer, ms[i..], masks[i..], rest);
      assert ms[i..][1..] == ms[i + 1..] && masks[i..][1..] == masks[i + 1..];
      last := PollMessage(ws, times, timeout, peer, m, mask, next);
      if !last.Ok? || (last.value.0 != RecvText && last.value.0 != RecvBinary) {
        return;
      }
      got := got + [Message(last.value.1, last.value.0 == RecvText)];
      assert ms[..i + 1] == ms[..i] + [m];
    }
    NoMoreStream(peer, ms[|got|..], masks[|got|..], rest);
  }
}
