/** Whole runs: streams of messages on one connection, messages cut by the end of a recv call,
    and the fragmentation state over any history of calls and frames. */
module Runs {
  import opened Octets
  import opened Frames
  import opened Messages

  // ----- streams -------------------------------------------------------------------------------

  datatype Message = Message(data: Bytes, isText: bool)

  datatype Stream = Broken | Stream(messages: seq<Message>, rest: Bytes)

  /** n calls of recv, one after the other, on the bytes of one connection. */
  function ReceiveMany(side: Side, input: Bytes, n: nat, isText: bool): Stream
    decreases n
  {
    if n == 0 then Stream([], input)
    else
      match Receive(side, input, Assembly([], isText, false))
      case Closed(_, _, _) => Broken
      case Failed(_, _) => Broken
      case Delivered(data, text, _, rest) =>
        match ReceiveMany(side, rest, n - 1, text)
        case Broken => Broken
        case Stream(more, end) => Stream([Message(data, text)] + more, end)
  }

  function PrintedStream(side: Side, ms: seq<Message>, masks: seq<Bytes>): Bytes
    requires AreMasks(masks, |ms|)
  {
    if ms == [] then []
    else PrintedFrame(side, TypeOpcode(ms[0].isText), ms[0].data, masks[0]) + PrintedStream(side, ms[1..], masks[1..])
  }

  /** A length that survives the wire. */
  predicate Carried(n: nat) { n != 65536 && n <= MAXIMUM_LENGTH }

  predicate AllCarried(ms: seq<Message>) { forall i :: 0 <= i < |ms| ==> Carried(|ms[i].data|) }

  /** Whatever one side sends in a row, the other side receives in a row, with no byte left over or
      shared between messages, if and only if no length is 65536 or over 128 MB. */
  lemma {:induction false} StreamRoundTrip(side: Side, ms: seq<Message>, masks: seq<Bytes>, rest: Bytes, isText: bool)
    requires AreMasks(masks, |ms|)
    requires forall i :: 0 <= i < |ms| ==> |ms[i].data| < 0x1_0000_0000_0000_0000
    ensures ReceiveMany(side.Peer(), PrintedStream(side, ms, masks) + rest, |ms|, isText) == Stream(ms, rest)
            <==> AllCarried(ms)
  {
    hide PrintedFrame, RfcFrame, Receive;
    if ms != [] {
      var m := ms[0];
      var next := PrintedStream(side, ms[1..], masks[1..]) + rest;
      var p := PrintedFrame(side, TypeOpcode(m.isText), m.data, masks[0]);
      assert PrintedStream(side, ms, masks) + rest == p + next;
      ReceivePrinted(side, m, masks[0], next, isText);
      if Carried(|m.data|) {
        StreamRoundTrip(side, ms[1..], masks[1..], rest, m.isText);
      }
      OneOrMore(ms);
    } else {
      assert PrintedStream(side, ms, masks) + rest == rest;
    }
  }

  lemma OneOrMore(ms: seq<Message>)
    requires ms != []
    ensures AllCarried(ms) <==> Carried(|ms[0].data|) && AllCarried(ms[1..])
    ensures [ms[0]] + ms[1..] == ms
  {
    assert forall i :: 0 < i < |ms| ==> ms[i] == ms[1..][i - 1];
  }

  /** What becomes of one message: delivered, or taken for an empty one, or refused. */
  lemma ReceivePrinted(side: Side, m: Message, mask: Bytes, next: Bytes, isText: bool)
    requires |mask| == 4 && |m.data| < 0x1_0000_0000_0000_0000
    ensures var r := Receive(side.Peer(), PrintedFrame(side, TypeOpcode(m.isText), m.data, mask) + next,
                             Assembly([], isText, false));
            if Carried(|m.data|) then r == Delivered(m.data, m.isText, [], next)
            else r.Failed? || (r.Delivered? && r.message == [] && m.data != [])
  {
    hide PrintedFrame, RfcFrame, ReadFrame;
    var f, a := Frame(true, TypeOpcode(m.isText), m.data), Assembly([], isText, false);
    if |m.data| == 65536 {
      Reads65536AsEmpty(side, f.opcode, m.data, mask, next);
    } else {
      PrintsRfcExcept65536(side, f.opcode, m.data, mask);
      ReceiveFrame(side, f, mask, next, a);
      assert [] + m.data == m.data;
    }
  }

  // ----- histories ---------------------------------------------------------------------------

  /** What happens to the message buffer: a recv call begins and clears it, or a data frame
      arrives during one. */
  datatype Event = Call | Arrival(frame: Frame)

  const FRESH := Assembly([], false, false)

  function Play(evs: seq<Event>): Acceptance {
    if evs == [] then Accepted(FRESH)
    else
      match Play(evs[..|evs| - 1])
      case Rejected(code) => Rejected(code)
      case Accepted(a) =>
        match evs[|evs| - 1]
        case Call => Accepted(a.(message := []))
        case Arrival(f) => Accept(a, f)
  }

  function Arrivals(evs: seq<Event>): seq<Frame> {
    if evs == [] then []
    else if evs[|evs| - 1].Call? then Arrivals(evs[..|evs| - 1])
    else Arrivals(evs[..|evs| - 1]) + [evs[|evs| - 1].frame]
  }

  /** A frame continues exactly when the one before it was not final: the lists for which
      this holds are the prefixes of (complete | start continuation* final)*. */
  ghost predicate WellFragmented(d: seq<Frame>) {
    forall i :: 0 <= i < |d| ==> Follows(d, i)
  }

  ghost predicate Follows(d: seq<Frame>, i: nat)
    requires i < |d|
  {
    d[i].opcode == CONTINUATION <==> i > 0 && !d[i - 1].fin
  }

  /** Inside a message: the last frame was not final. */
  function Open(d: seq<Frame>): bool { d != [] && !d[|d| - 1].fin }

  /** The payloads since the message or the recv call began, whichever was later. */
  function Collected(evs: seq<Event>): Bytes {
    if evs == [] then []
    else
      match evs[|evs| - 1]
      case Call => []
      case Arrival(f) => (if f.opcode == CONTINUATION then Collected(evs[..|evs| - 1]) else []) + f.payload
  }

  ghost predicate Bounded(evs: seq<Event>) {
    forall k :: 0 <= k <= |evs| ==> |Collected(evs[..k])| <= MAXIMUM_LENGTH
  }

  lemma WellFragmentedGrows(d: seq<Frame>, f: Frame)
    ensures WellFragmented(d + [f]) <==> WellFragmented(d) && (f.opcode == CONTINUATION <==> Open(d))
  {
    var e := d + [f];
    assert forall i :: 0 <= i < |d| ==> Follows(e, i) == Follows(d, i);
    assert Follows(e, |d|) == (f.opcode == CONTINUATION <==> Open(d));
  }

  lemma BoundedGrows(evs: seq<Event>)
    requires evs != []
    ensures Bounded(evs) <==> Bounded(evs[..|evs| - 1]) && |Collected(evs)| <= MAXIMUM_LENGTH
  {
    var shorter := evs[..|evs| - 1];
    assert forall k :: 0 <= k <= |shorter| ==> shorter[..k] == evs[..k];
    assert evs[..|evs|] == evs;
  }

  /** Over any history the frames are accepted exactly when they are well fragmented and no
      assembled part is over 128 MB; is_continuation_ then says whether a message is open,
      and the buffer holds what the current call has collected of it. */
  lemma {:induction false} HistoryAccepted(evs: seq<Event>)
    ensures Play(evs).Accepted? <==> WellFragmented(Arrivals(evs)) && Bounded(evs)
    ensures Play(evs).Accepted? ==>
              && Play(evs).assembly.isContinuation == Open(Arrivals(evs))
              && Play(evs).assembly.message == Collected(evs)
              && |Collected(evs)| <= MAXIMUM_LENGTH
  {
    hide WellFragmented, Bounded;
    if evs == [] {
      NothingYet();
    } else {
      var shorter, last := evs[..|evs| - 1], evs[|evs| - 1];
      HistoryAccepted(shorter);
      BoundedGrows(evs);
      if last.Arrival? {
        WellFragmentedGrows(Arrivals(shorter), last.frame);
      }
    }
  }

  lemma NothingYet()
    ensures WellFragmented([]) && Bounded([])
  {
  }

  // ----- the frames of one call --------------------------------------------------------------

  /** Where a recv call stands: the bytes that are left, what is assembled, the replies that were
      due, and the data frames that have arrived. */
  datatype Progress = Stuck | At(rest: Bytes, assembly: Assembly, replies: seq<Reply>, arrivals: seq<Event>)

  /** The first frame of the input, if it is a data frame. */
  function ArrivalOf(side: Side, input: Bytes): seq<Event> {
    match ReadFrame(side, input)
    case Fault(_) => []
    case Read(f, _) => if IsData(f.opcode) then [Arrival(f)] else []
  }

  /** One more frame; Stuck when it does not leave the call running. */
  function Onward(side: Side, p: Progress): Progress {
    match p
    case Stuck => Stuck
    case At(rest, a, replies, arrivals) =>
      match OneFrame(side, rest, a)
      case Breaks(_) => Stuck
      case Closes(_, _) => Stuck
      case Moves(b, more, done, size) =>
        if done then Stuck else At(rest[size..], b, replies + more, arrivals + ArrivalOf(side, rest))
  }

  /** A call after n frames. */
  function Along(side: Side, input: Bytes, a: Assembly, n: nat): Progress
    decreases n
  {
    if n == 0 then At(input, a, [], []) else Onward(side, Along(side, input, a, n - 1))
  }

  /** The frames that a call has handled are gone, and what is left brings the same result. */
  lemma AlongReceives(side: Side, input: Bytes, a: Assembly, n: nat)
    ensures var p := Along(side, input, a, n);
            p.At? ==>
              && |p.rest| + n <= |input| && p.rest == input[|input| - |p.rest|..]
              && Receive(side, input, a) == Before(p.replies, Receive(side, p.rest, p.assembly))
  {
    hide Along, Receive, Before;
    AlongLeaves(side, input, a, n);
    AlongBrings(side, input, a, n);
  }

  /** c is what is left of a when at least n bytes have been taken from it. */
  predicate IsRest(a: Bytes, c: Bytes, n: nat) { |c| + n <= |a| && c == a[|a| - |c|..] }

  lemma RestOfRest(a: Bytes, b: Bytes, c: Bytes, n: nat)
    requires IsRest(a, b, n) && IsRest(b, c, 1)
    ensures IsRest(a, c, n + 1)
  {
  }

  lemma NothingTaken(a: Bytes)
    ensures IsRest(a, a, 0)
  {
  }

  lemma {:induction false} AlongLeaves(side: Side, input: Bytes, a: Assembly, n: nat)
    ensures var p := Along(side, input, a, n); p.At? ==> IsRest(input, p.rest, n)
    decreases n
  {
    hide Onward, IsRest, Receive, OneFrame, Before;
    if n == 0 {
      NothingTaken(input);
    } else {
      AlongLeaves(side, input, a, n - 1);
      var q, p := Along(side, input, a, n - 1), Along(side, input, a, n);
      if p.At? {
        OnwardReceives(side, q);
        RestOfRest(input, q.rest, p.rest, n - 1);
      }
    }
  }

  lemma {:induction false} AlongBrings(side: Side, input: Bytes, a: Assembly, n: nat)
    ensures var p := Along(side, input, a, n);
            p.At? ==> Receive(side, input, a) == Before(p.replies, Receive(side, p.rest, p.assembly))
    decreases n
  {
    hide Onward, Receive;
    if n == 0 {
      BeforeNothing(Receive(side, input, a));
    } else {
      AlongBrings(side, input, a, n - 1);
      var q, p := Along(side, input, a, n - 1), Along(side, input, a, n);
      if p.At? {
        OnwardReceives(side, q);
        BeforeBefore(side, q, p);
      }
    }
  }

  lemma OnwardReceives(side: Side, q: Progress)
    ensures var p := Onward(side, q);
            p.At? ==>
              && q.At? && OneFrame(side, q.rest, q.assembly).Moves?
              && IsRest(q.rest, p.rest, 1)
              && p.replies == q.replies + OneFrame(side, q.rest, q.assembly).replies
              && Receive(side, q.rest, q.assembly)
                 == Before(OneFrame(side, q.rest, q.assembly).replies, Receive(side, p.rest, p.assembly))
  {
    hide OneFrame, ArrivalOf;
  }

  lemma BeforeBefore(side: Side, q: Progress, p: Progress)
    requires q.At? && p.At? && OneFrame(side, q.rest, q.assembly).Moves?
    requires p.replies == q.replies + OneFrame(side, q.rest, q.assembly).replies
    ensures Before(q.replies, Before(OneFrame(side, q.rest, q.assembly).replies, Receive(side, p.rest, p.assembly)))
         == Before(p.replies, Receive(side, p.rest, p.assembly))
  {
    hide OneFrame, Receive;
    BeforeTwice(q.replies, OneFrame(side, q.rest, q.assembly).replies, Receive(side, p.rest, p.assembly));
  }

  /** What came before does not change what comes. */
  function Behind(replies: seq<Reply>, arrivals: seq<Event>, p: Progress): Progress {
    if p.Stuck? then Stuck else p.(replies := replies + p.replies, arrivals := arrivals + p.arrivals)
  }

  lemma OnwardBehind(side: Side, replies: seq<Reply>, arrivals: seq<Event>, p: Progress)
    ensures Onward(side, Behind(replies, arrivals, p)) == Behind(replies, arrivals, Onward(side, p))
  {
    hide OneFrame, ArrivalOf;
    var q := Onward(side, p);
    if q.At? {
      var e := OneFrame(side, p.rest, p.assembly);
      assert replies + (p.replies + e.replies) == (replies + p.replies) + e.replies;
      var more := ArrivalOf(side, p.rest);
      assert arrivals + (p.arrivals + more) == (arrivals + p.arrivals) + more;
    }
  }

  /** The same from the other end: the first frame, and then the rest of them. */
  lemma {:induction false} AlongFirst(side: Side, input: Bytes, a: Assembly, n: nat)
    requires n > 0
    ensures var p := Onward(side, At(input, a, [], []));
            Along(side, input, a, n)
            == if p.Stuck? then Stuck else Behind(p.replies, p.arrivals, Along(side, p.rest, p.assembly, n - 1))
    decreases n
  {
    hide Onward;
    var p := Onward(side, At(input, a, [], []));
    assert Along(side, input, a, 0) == At(input, a, [], []);
    if n == 1 {
      if p.At? {
        assert Along(side, p.rest, p.assembly, 0) == At(p.rest, p.assembly, [], []);
        assert p.replies + [] == p.replies && p.arrivals + [] == p.arrivals;
      }
    } else {
      AlongFirst(side, input, a, n - 1);
      if p.At? {
        OnwardBehind(side, p.replies, p.arrivals, Along(side, p.rest, p.assembly, n - 2));
      } else {
        OnwardStuck(side);
      }
    }
  }

  lemma OnwardStuck(side: Side)
    ensures Onward(side, Stuck) == Stuck
  {
  }

  /** The record of a call that is running agrees with the assembly. */
  lemma {:induction false} AlongPlays(side: Side, input: Bytes, a: Assembly, n: nat, history: seq<Event>)
    requires Play(history) == Accepted(a)
    ensures var p := Along(side, input, a, n);
            p.At? ==> Play(history + p.arrivals) == Accepted(p.assembly)
    decreases n
  {
    hide Play, Onward;
    if n == 0 {
      assert history + [] == history;
    } else {
      AlongPlays(side, input, a, n - 1, history);
      OnwardPlays(side, Along(side, input, a, n - 1), history);
    }
  }

  lemma OnwardPlays(side: Side, q: Progress, history: seq<Event>)
    requires q.At? ==> Play(history + q.arrivals) == Accepted(q.assembly)
    ensures var p := Onward(side, q);
            p.At? ==> Play(history + p.arrivals) == Accepted(p.assembly)
  {
    hide Play, Accept, OneFrame, ArrivalOf;
    var p := Onward(side, q);
    if p.At? {
      FrameArrives(side, q.rest, q.assembly);
      var more := ArrivalOf(side, q.rest);
      assert history + p.arrivals == (history + q.arrivals) + more;
      if more == [] {
        assert (history + q.arrivals) + [] == history + q.arrivals;
      } else {
        assert more == [more[0]];
        PlayNext(history + q.arrivals, more[0]);
      }
    }
  }

  /** A frame that moves the assembly on is a data frame that is accepted, or leaves it alone. */
  lemma FrameArrives(side: Side, input: Bytes, a: Assembly)
    ensures var e, more := OneFrame(side, input, a), ArrivalOf(side, input);
            e.Moves? ==>
              if more == [] then e.assembly == a && !e.done
              else |more| == 1 && more[0].Arrival? && Accept(a, more[0].frame) == Accepted(e.assembly)
                   && e.done == more[0].frame.fin
  {
    hide ReadFrame, Accept;
  }

  lemma PlayNext(evs: seq<Event>, e: Event)
    ensures Play(evs).Accepted? ==>
              Play(evs + [e]) == match e
                                 case Call => Accepted(Play(evs).assembly.(message := []))
                                 case Arrival(f) => Accept(Play(evs).assembly, f)
  {
    hide Accept;
    assert (evs + [e])[..|evs|] == evs;
  }

  // ----- a message cut by the end of a call --------------------------------------------------

  function Arriving(fs: seq<Frame>): seq<Event> {
    seq(|fs|, i requires 0 <= i < |fs| => Arrival(fs[i]))
  }

  lemma CollectedNext(evs: seq<Event>, e: Event)
    ensures Collected(evs + [e])
         == match e
            case Call => []
            case Arrival(f) => (if f.opcode == CONTINUATION then Collected(evs) else []) + f.payload
  {
    var all := evs + [e];
    assert all[..|all| - 1] == evs;
  }

  lemma {:induction false} ArrivingAfter(evs: seq<Event>, fs: seq<Frame>)
    requires forall i :: 0 <= i < |fs| ==> fs[i].opcode == CONTINUATION
    ensures Collected(evs + Arriving(fs)) == Collected(evs) + Joined(fs)
    decreases |fs|
  {
    hide Collected;
    if fs == [] {
      assert evs + Arriving(fs) == evs;
    } else {
      var e := Arrival(fs[0]);
      CollectedNext(evs, e);
      ArrivingAfter(evs + [e], fs[1..]);
      assert Arriving(fs) == [e] + Arriving(fs[1..]);
      assert evs + Arriving(fs) == (evs + [e]) + Arriving(fs[1..]);
      var before, first, rest := Collected(evs), fs[0].payload, Joined(fs[1..]);
      assert before + (first + rest) == (before + first) + rest;
    }
  }

  /** recv clears the buffer but not is_continuation_: when the call ends after the first
      frames of a message, the next call returns the rest of it as if it were the whole. That
      is the whole message if and only if the first call had collected no byte of it. */
  lemma CutMessage(evs: seq<Event>, first: Frame, xs: seq<Frame>, ys: seq<Frame>)
    requires first.opcode != CONTINUATION
    requires forall i :: 0 <= i < |xs| ==> xs[i].opcode == CONTINUATION
    requires forall i :: 0 <= i < |ys| ==> ys[i].opcode == CONTINUATION
    ensures var begun := evs + [Arrival(first)] + Arriving(xs);
            var cut, uncut := begun + [Call] + Arriving(ys), begun + Arriving(ys);
            && Collected(cut) == Joined(ys)
            && Collected(uncut) == first.payload + Joined(xs) + Joined(ys)
            && (Collected(cut) == Collected(uncut) <==> first.payload + Joined(xs) == [])
  {
    hide Collected, Joined, Arriving;
    var begun := evs + [Arrival(first)] + Arriving(xs);
    BegunMessage(evs, first, xs);
    ArrivingAfter(begun, ys);
    CollectedNext(begun, Call);
    ArrivingAfter(begun + [Call], ys);
    NothingLost(first.payload + Joined(xs), Joined(ys));
  }

  lemma BegunMessage(evs: seq<Event>, first: Frame, xs: seq<Frame>)
    requires first.opcode != CONTINUATION
    requires forall i :: 0 <= i < |xs| ==> xs[i].opcode == CONTINUATION
    ensures Collected(evs + [Arrival(first)] + Arriving(xs)) == first.payload + Joined(xs)
  {
    hide Collected, Joined, Arriving;
    CollectedNext(evs, Arrival(first));
    assert [] + first.payload == first.payload;
    ArrivingAfter(evs + [Arrival(first)], xs);
  }

  lemma NothingLost(lost: Bytes, rest: Bytes)
    ensures [] + rest == rest
    ensures rest == lost + rest <==> lost == []
  {
    assert |lost + rest| == |lost| + |rest|;
  }
}
