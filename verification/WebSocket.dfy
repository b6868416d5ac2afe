/** The class WebSocket with its two subclasses. A virtual call is a test of the side. */
module WebSockets {
  import opened Octets
  import opened Masking
  import opened Frames
  import opened Messages
  import opened Runs
  import opened Transport
  import opened Closing
  import opened WireBytes

  /** FrameHeader of WebSocket.h; length is the seven-bit field. */
  datatype FrameHeader = FrameHeader(fin: bool, opcode: Byte, mask: bool, length: Byte)

  // ----- what has been put on the wire ---------------------------------------------------------

  /** A frame of which the first written bytes have been put on the wire. */
  datatype Item = Item(reply: Reply, mask: Bytes, written: nat)

  function FrameOf(side: Side, reply: Reply, mask: Bytes): Bytes
    requires |mask| == 4
  {
    PrintedFrame(side, reply.opcode, reply.payload, mask)
  }

  ghost predicate IsItem(side: Side, item: Item) {
    |item.mask| == 4 && item.written <= |FrameOf(side, item.reply, item.mask)|
  }

  ghost predicate IsWhole(side: Side, item: Item)
    requires IsItem(side, item)
  {
    item.written == |FrameOf(side, item.reply, item.mask)|
  }

  ghost predicate AreItems(side: Side, items: seq<Item>) {
    forall i :: 0 <= i < |items| ==> IsItem(side, items[i])
  }

  /** Whole frames only, and none of them a close frame. */
  ghost predicate Quiet(side: Side, items: seq<Item>)
    requires AreItems(side, items)
  {
    forall i :: 0 <= i < |items| ==> IsWhole(side, items[i]) && items[i].reply.opcode != CLOSE
  }

  ghost function OnWire(side: Side, items: seq<Item>): Bytes
    requires AreItems(side, items)
  {
    if items == [] then []
    else
      var last := items[|items| - 1];
      OnWire(side, items[..|items| - 1]) + FrameOf(side, last.reply, last.mask)[..last.written]
  }

  ghost function Contents(items: seq<Item>): seq<Reply> {
    seq(|items|, i requires 0 <= i < |items| => items[i].reply)
  }

  /** Where a recv call begins: the record, the events, the stream and the assembly. */
  datatype Origin = Origin(sent: seq<Item>, history: seq<Event>, input: Bytes, assembly: Assembly)

  class WebSocket {
    const side: Side
    const socket: Socket
    const clock: Clock

    var inputPayload: Bytes
    var header: FrameHeader
    var isText: bool
    var isContinuation: bool
    var inputLength: nat
    var inputMask: Bytes
    var outputMask: Bytes

    /** What this object has put on the wire since base, the output of the handshake. */
    ghost var sent: seq<Item>
    ghost var base: Bytes

    /** An exception of rcom_sleep has left a method with the socket still open. */
    ghost var escaped: bool

    /** Every recv call that has begun and every data frame that has been accepted. */
    ghost var events: seq<Event>

    ghost predicate WellFormed()
      reads this, socket
    {
      && |inputMask| == 4 && |outputMask| == 4
      && AreItems(side, sent) && socket.output == base + OnWire(side, sent)
    }

    /** The fields are those that the events lead to. */
    ghost predicate Tracked()
      reads this
    {
      var p := Play(events);
      p.Accepted? && p.assembly.isText == isText && p.assembly.isContinuation == isContinuation
    }

    /** Inside a recv call, the message buffer is the one that the events lead to as well. */
    ghost predicate Within(message: Bytes)
      reads this
    {
      Play(events) == Accepted(Assembled(message))
    }

    /** At most the last item is a close frame or a partial frame. */
    ghost predicate Ordered()
      reads this, socket
    {
      WellFormed() && Tracked() && (escaped || (sent != [] ==> Quiet(side, sent[..|sent| - 1])))
    }

    /** Between calls, a close frame or a partial frame also means that the socket is closed. */
    ghost predicate Valid()
      reads this, socket
    {
      Ordered() && (escaped || (socket.connected ==> Quiet(side, sent)))
    }

    /** Time has passed, and trouble is not forgotten. */
    twostate predicate Later()
      reads clock, socket
    {
      && clock.patience <= old(clock.patience)
      && clock.late >= old(clock.late) && clock.interrupts >= old(clock.interrupts)
      && socket.trouble.AtLeast(old(socket.trouble))
    }

    /** The socket has failed a call. */
    twostate predicate Faulty()
      reads socket
    {
      socket.trouble.faults > old(socket.trouble.faults)
    }

    /** A sleep of the client was interrupted. */
    twostate predicate Interrupted()
      reads clock
    {
      side.Client? && clock.interrupts > old(clock.interrupts)
    }

    /** A deadline was reached. */
    twostate predicate Late()
      reads clock
    {
      clock.late > old(clock.late)
    }

    ghost predicate LastIsWhole()
      reads this
    {
      sent != [] && IsItem(side, sent[|sent| - 1]) && IsWhole(side, sent[|sent| - 1])
    }

    /** The socket has gone through the handshake: what it wrote there is base. */
    constructor (side: Side, socket: Socket, clock: Clock)
      ensures this.side == side && this.socket == socket && this.clock == clock
      ensures Valid() && !isContinuation && sent == [] && events == [] && base == socket.output && !escaped
    {
      this.side, this.socket, this.clock := side, socket, clock;
      inputPayload, header, inputLength := [], FrameHeader(false, 0, false, 0), 0;
      isText, isContinuation := false, false;
      inputMask, outputMask := [0, 0, 0, 0], [0, 0, 0, 0];
      sent, base, escaped, events := [], socket.output, false, [];
      new;
      assert socket.output == base + OnWire(side, sent);
    }

    // ----- reading one frame -------------------------------------------------------------------

    method SocketRead(buffer: array<Byte>, length: nat) returns (r: Try<()>)
      requires socket.connected && length <= buffer.Length
      modifies socket`input, buffer
      ensures r == if length <= |old(socket.input)| then Ok(()) else RecvError(INTERNAL_ERROR)
      ensures r.Ok? ==>
                && buffer[..length] == old(socket.input)[..length]
                && socket.input == old(socket.input)[length..]
    {
      var success := socket.Read(buffer, length);
      r := if success then Ok(()) else RecvError(INTERNAL_ERROR);
    }

    method InputReadFrameHeader() returns (r: Try<()>)
      requires socket.connected
      modifies this`header, socket`input
      ensures var s := old(socket.input);
              if |s| < 2 then r == RecvError(INTERNAL_ERROR)
              else r.Ok? && socket.input == s[2..]
                   && header == FrameHeader(Top(s[0]), Low4(s[0]), Top(s[1]), Low7(s[1]))
    {
      hide Top, Low4, Low7;
      var b := new Byte[2];
      var _ :- SocketRead(b, 2);
      assert b[..2][0] == b[0] && b[..2][1] == b[1];
      header := FrameHeader(Top(b[0]), Low4(b[0]), Top(b[1]), Low7(b[1]));
      r := Ok(());
    }

    /** The multi-byte lengths are loaded little-endian and swapped. */
    method InputReadNumber(k: nat) returns (r: Try<()>)
      requires socket.connected
      modifies this`inputLength, socket`input
      ensures var s := old(socket.input);
              if |s| < k then r == RecvError(INTERNAL_ERROR)
              else r.Ok? && socket.input == s[k..] && inputLength == FromBigEndian(s[..k])
    {
      var b := new Byte[k];
      var _ :- SocketRead(b, k);
      SwappedLoad(b[..k]);
      inputLength := Swapped(FromLittleEndian(b[..k]), k);
      r := Ok(());
    }

    method InputReadPayloadLength() returns (r: Try<()>)
      requires socket.connected && Val(header.length) < 128
      modifies this`inputLength, socket`input
      ensures var s, k := old(socket.input), LengthSize(Val(header.length));
              if |s| < k then r == RecvError(INTERNAL_ERROR)
              else r.Ok? && socket.input == s[k..]
                   && inputLength == if k == 0 then Val(header.length) else FromBigEndian(s[..k])
    {
      if Val(header.length) < 126 {
        inputLength := Val(header.length);
        assert socket.input == socket.input[0..];
        r := Ok(());
      } else if Val(header.length) == 126 {
        r := InputReadNumber(2);
      } else {
        r := InputReadNumber(8);
      }
    }

    method InputReadPayloadMask() returns (r: Try<()>)
      requires socket.connected && |inputMask| == 4
      modifies this`inputMask, socket`input
      ensures |inputMask| == 4
      ensures var s := old(socket.input);
              if |s| < 4 then r == RecvError(INTERNAL_ERROR)
              else r.Ok? && socket.input == s[4..] && inputMask == s[..4]
    {
      var b := new Byte[4];
      var _ :- SocketRead(b, 4);
      inputMask := b[..4];
      r := Ok(());
    }

    /** The header fields hold what ReadHeader says. */
    ghost predicate Holds(h: Header)
      reads this
    {
      && header.fin == h.fin && header.opcode == h.opcode && header.mask == h.masked
      && inputLength == h.length && (side.Server? ==> inputMask == h.mask)
    }

    /** input_read_header of the two subclasses. */
    method InputReadHeader() returns (r: Try<()>)
      requires socket.connected && |inputMask| == 4
      modifies this`header, this`inputLength, this`inputMask, socket`input
      ensures |inputMask| == 4
      ensures match ReadHeader(side, old(socket.input))
              case Short => r == RecvError(INTERNAL_ERROR)
              case Got(h) => r.Ok? && Holds(h) && socket.input == old(socket.input)[h.size..]
    {
      hide Top, Low4, Low7, Val, FromBigEndian;
      ghost var s := socket.input;
      var _ :- InputReadFrameHeader();
      SevenBits(s[1]);
      ghost var ext := Extended(s[1]);
      assert |s| >= 2 + ext ==> s[2..][..ext] == s[2..2 + ext] && s[2..][ext..] == s[2 + ext..];
      var _ :- InputReadPayloadLength();
      if side.Server? {
        assert |s| >= 6 + ext ==> s[2 + ext..][..4] == s[2 + ext..6 + ext] && s[2 + ext..][4..] == s[6 + ext..];
        var _ :- InputReadPayloadMask();
      }
      r := Ok(());
    }

    /** input_assert_valid_message: mask flag, opcode, length, in this order. */
    method InputAssertValid() returns (r: Try<()>)
      ensures r == match CheckHeader(side, Header(header.fin, header.opcode, header.mask, inputLength, inputMask, 0))
                   case Fine => Ok(())
                   case Refused(code) => RecvError(code)
    {
      if side.Client? && header.mask {
        return RecvError(PROTOCOL_ERROR);
      }
      if side.Server? && !header.mask {
        return RecvError(PROTOCOL_ERROR);
      }
      if !IsOpcode(header.opcode) {
        return RecvError(PROTOCOL_ERROR);
      }
      if inputLength > MAXIMUM_LENGTH {
        return RecvError(TOO_BIG);
      }
      r := Ok(());
    }

    /** input_append_payload: the server unmasks the block where it stands. */
    method InputAppendPayload(buffer: array<Byte>, length: nat)
      requires length <= buffer.Length && |inputMask| == 4
      modifies this`inputPayload, buffer
      ensures inputPayload == old(inputPayload) + Unmasked(side, old(buffer[..length]), inputMask)
    {
      if side.Server? {
        ApplyMask(buffer, buffer, length, inputMask);
      }
      inputPayload := inputPayload + buffer[..length];
    }

    /** The payload arrives in blocks of at most 1024 bytes. */
    method InputReadPayload() returns (r: Try<()>)
      requires socket.connected && |inputMask| == 4
      modifies this`inputPayload, socket`input
      ensures var s := old(socket.input);
              if |s| < inputLength then r == RecvError(INTERNAL_ERROR)
              else r.Ok? && socket.input == s[inputLength..]
                   && inputPayload == Unmasked(side, s[..inputLength], inputMask)
    {
      hide Unmasked;
      ghost var s := socket.input;
      var processed := 0;
      var buffer := new Byte[BLOCK];
      inputPayload := [];
      NothingUnmasked(side, inputMask);
      assert s[..0] == [];
      while processed < inputLength
        invariant processed <= inputLength && processed <= |s| && socket.input == s[processed..]
        invariant processed == inputLength || processed % BLOCK == 0
        invariant inputPayload == Unmasked(side, s[..processed], inputMask)
      {
        var toRead := inputLength - processed;
        if toRead > BLOCK {
          toRead := BLOCK;
        }
        var _ :- SocketRead(buffer, toRead);
        UnmaskGrows(side, s, processed, toRead, inputMask);
        processed := processed + toRead;
        InputAppendPayload(buffer, toRead);
      }
      r := Ok(());
    }

    /** read_message. */
    method ReadMessage() returns (r: Try<()>)
      requires socket.connected && |inputMask| == 4
      modifies this`header, this`inputLength, this`inputMask, this`inputPayload, socket`input
      ensures |inputMask| == 4
      ensures ReadFrame(side, old(socket.input)).Fault? ==> r == RecvError(ReadFrame(side, old(socket.input)).code)
      ensures ReadFrame(side, old(socket.input)).Read? ==>
                var got := ReadFrame(side, old(socket.input));
                && r.Ok? && socket.input == old(socket.input)[got.size..]
                && header.fin == got.frame.fin && header.opcode == got.frame.opcode
                && inputPayload == got.frame.payload
    {
      hide ReadHeader, IsOpcode, Unmasked;
      ghost var s := socket.input;
      var _ :- InputReadHeader();
      ghost var h := ReadHeader(side, s).header;
      var _ :- InputAssertValid();
      assert |s| >= h.size + h.length ==>
        s[h.size..][..h.length] == s[h.size..h.size + h.length] && s[h.size..][h.length..] == s[h.size + h.length..];
      UnmaskedByClient(side, inputMask, h.mask, s);
      var _ :- InputReadPayload();
      r := Ok(());
    }

    // ----- printing one frame ------------------------------------------------------------------

    /** getrandom: any four bytes. */
    method MakeMask()
      modifies this`outputMask
      ensures |outputMask| == 4
    {
      var a: Byte, b: Byte, c: Byte, d: Byte := *, *, *, *;
      outputMask := [a, b, c, d];
    }

    /** The length field, in frame[] from index 1 on; n is the running index after it. */
    method FillLength(frame: array<Byte>, length: nat) returns (n: nat)
      requires frame.Length == 14
      modifies frame
      ensures 1 <= n <= 10 && frame[0] == old(frame[0])
      ensures frame[1..n] == PrintedLength(side, length)
    {
      hide Flagged, Low7, Small, Low, BigEndian, PrintedLength, ByteOf, Swapped;
      n := 1;
      if length < 126 {
        ShortPrinted(side, length);
        frame[1] := ShortLength(side, length);
        n := 2;
      } else if length <= 65536 {
        TwoPrinted(side, length);
        var netshort := Swapped(length % 65536, 2);
        frame[1] := Flagged(side, Small(126));
        frame[2] := ByteOf(netshort, 0);
        frame[3] := ByteOf(netshort, 1);
        n := 4;
      } else {
        n := FillLong(frame, length);
      }
    }

    method FillLong(frame: array<Byte>, length: nat) returns (n: nat)
      requires frame.Length == 14 && 65536 < length
      modifies frame
      ensures n == 10 && frame[0] == old(frame[0])
      ensures frame[1..n] == PrintedLength(side, length)
    {
      hide Flagged, Small, PrintedLength, ByteOf, Swapped;
      EightPrinted(side, length);
      var netlong := Swapped(length, 8);
      frame[1] := Flagged(side, Small(127));
      frame[2] := ByteOf(netlong, 0);
      frame[3] := ByteOf(netlong, 1);
      frame[4] := ByteOf(netlong, 2);
      frame[5] := ByteOf(netlong, 3);
      frame[6] := ByteOf(netlong, 4);
      frame[7] := ByteOf(netlong, 5);
      frame[8] := ByteOf(netlong, 6);
      frame[9] := ByteOf(netlong, 7);
      n := 10;
    }

    /** The four bytes of a fresh mask, in frame[] from index n on. */
    method FillMask(frame: array<Byte>, n: nat)
      requires n + 4 <= frame.Length
      modifies this`outputMask, frame
      ensures |outputMask| == 4 && frame[..n + 4] == old(frame[..n]) + outputMask
    {
      MakeMask();
      frame[n] := outputMask[0];
      frame[n + 1] := outputMask[1];
      frame[n + 2] := outputMask[2];
      frame[n + 3] := outputMask[3];
    }

    /** output_append_header of the two subclasses: frame[] is filled with a running index. */
    method OutputAppendHeader(output: Bytes, opcode: Byte, length: nat) returns (r: Bytes)
      requires |outputMask| == 4
      modifies this`outputMask
      ensures |outputMask| == 4 && r == output + PrintedHeader(side, opcode, length, outputMask)
    {
      hide WithTop, PrintedLength;
      var frame := new Byte[14];
      frame[0] := WithTop(opcode);
      var n := FillLength(frame, length);
      assert frame[..n] == [frame[0]] + frame[1..n];
      if side.Client? {
        FillMask(frame, n);
        n := n + 4;
      }
      r := output + frame[..n];
    }

    /** output_append_payload: the client masks blocks of 1024 bytes into a scratch buffer. */
    method OutputAppendPayload(output: Bytes, message: Bytes) returns (r: Bytes)
      requires |outputMask| == 4
      ensures r == output + Payload(side, message, outputMask)
    {
      r := output;
      if side.Server? {
        r := r + message;
        return;
      }
      r := AppendMasked(output, message);
    }

    method AppendMasked(output: Bytes, message: Bytes) returns (r: Bytes)
      requires |outputMask| == 4
      ensures r == output + Masked(message, outputMask)
    {
      hide Masked;
      r := output;
      var buffer := new Byte[BLOCK];
      var done := 0;
      ghost var mask := outputMask;
      NothingMasked(mask);
      assert message[..0] == [];
      while done < |message|
        invariant done <= |message| && (done == |message| || done % BLOCK == 0)
        invariant r == output + Masked(message[..done], mask) && outputMask == mask
      {
        var n := |message| - done;
        if n > BLOCK {
          n := BLOCK;
        }
        MaskGrows(message, done, n, mask);
        MaskData(buffer, message[done..done + n]);
        r := r + buffer[..n];
        done := done + n;
      }
      assert message[..done] == message;
    }

    /** mask_data. */
    method MaskData(buffer: array<Byte>, data: Bytes)
      requires |outputMask| == 4 && |data| <= buffer.Length
      modifies buffer
      ensures buffer[..|data|] == Masked(data, outputMask)
    {
      var input := new Byte[|data|](i requires 0 <= i < |data| => data[i]);
      assert input[..|data|] == data;
      ApplyMask(buffer, input, |data|, outputMask);
    }

    method MakeMessage(opcode: Byte, message: Bytes) returns (r: Bytes)
      requires |outputMask| == 4
      modifies this`outputMask
      ensures |outputMask| == 4 && r == FrameOf(side, Reply(opcode, message), outputMask)
    {
      hide PrintedHeader, Payload;
      r := OutputAppendHeader([], opcode, |message|);
      r := OutputAppendPayload(r, message);
    }

    // ----- closing the socket ------------------------------------------------------------------

    /** close_connection of the two subclasses. */
    method CloseConnection() returns (r: Try<()>)
      modifies clock, socket`connected, socket`trouble
      ensures Later()
      ensures r.Ok? ==> !socket.connected
      ensures r.Ok? && side.Client? ==> Late() || socket.trouble.gone > old(socket.trouble.gone)
      ensures !r.Ok? ==> r.SleepError? && Interrupted() && socket.connected == old(socket.connected)
      ensures socket.trouble.faults == old(socket.trouble.faults)
    {
      if side.Client? {
        r := CloseClientSide(socket, clock);
      } else {
        socket.Close();
        r := Ok(());
      }
    }

    // ----- sending -----------------------------------------------------------------------------

    /** The bytes of a frame from at on are written; prior is the record before the frame. */
    method Write(data: Bytes, ghost reply: Reply, ghost at: nat, ghost prior: seq<Item>) returns (ok: bool)
      requires WellFormed() && data != [] && IsBlock(data, reply, at)
      requires sent == if at == 0 then prior else prior + [Item(reply, outputMask, at)]
      modifies this`sent, socket`output, socket`trouble
      ensures WellFormed() && Later() && (!ok ==> Faulty())
      ensures ok ==> socket.connected && sent == prior + [Item(reply, outputMask, at + |data|)]
      ensures if socket.connected then Sends(prior, sent, reply) else sent == old(sent)
    {
      hide FrameOf, OnWire, AreItems, Sends;
      ghost var n;
      ghost var frame := FrameOf(side, reply, outputMask);
      ghost var wire := OnWire(side, sent);
      ok, n := socket.Send(data);
      BlockBegins(frame, data, at, n);
      AfterBase(base, wire, data[..n]);
      if socket.connected {
        sent := prior + [Item(reply, outputMask, at + n)];
        ProgressOnWire(side, prior, reply, outputMask, at, n);
        SendsOne(prior, Item(reply, outputMask, at + n));
      }
    }

    /** socket_send: a write that fails closes the socket. */
    method SocketSend(data: Bytes, ghost reply: Reply, ghost at: nat, ghost prior: seq<Item>) returns (r: Try<bool>)
      requires WellFormed() && data != [] && IsBlock(data, reply, at)
      requires sent == if at == 0 then prior else prior + [Item(reply, outputMask, at)]
      requires at > 0 ==> socket.connected
      modifies this`sent, clock, socket`output, socket`connected, socket`trouble
      ensures Later()
      ensures WellFormed()
      ensures r.Ok? && r.value ==>
                old(socket.connected) && socket.connected && sent == prior + [Item(reply, outputMask, at + |data|)]
      ensures r.Ok? && !r.value ==> !socket.connected && Faulty()
      ensures !r.Ok? ==> r.SleepError? && Interrupted() && socket.connected == old(socket.connected) && Faulty()
      ensures if old(socket.connected) then Sends(prior, sent, reply) else !socket.connected && sent == old(sent)
    {
      hide FrameOf, OnWire, AreItems, Sends;
      var success := Write(data, reply, at, prior);
      if !success {
        var _ :- CloseConnection();
      }
      r := Ok(success);
    }

    /** data is the part of the frame for reply that begins at its byte at. */
    ghost predicate IsBlock(data: Bytes, reply: Reply, at: nat)
      requires |outputMask| == 4
      reads this
    {
      var frame := FrameOf(side, reply, outputMask);
      at + |data| <= |frame| && data == frame[at..at + |data|]
    }

    /** The frame printed with the current mask is on record after before, whole. */
    ghost predicate Recorded(before: seq<Item>, reply: Reply)
      reads this
    {
      && |outputMask| == 4
      && sent == before + [Item(reply, outputMask, |FrameOf(side, reply, outputMask)|)]
    }

    /** A whole frame in one write, as make_message prints it. */
    method SendFrame(opcode: Byte, payload: Bytes) returns (r: Try<bool>)
      requires Valid()
      modifies this`outputMask, this`sent, clock, socket`output, socket`connected, socket`trouble
      ensures Later()
      ensures Ordered()
      ensures r.Ok? && r.value ==>
                && old(socket.connected) && socket.connected
                && (Quiet(side, old(sent)) && opcode != CLOSE ==> Quiet(side, sent))
      ensures r.Ok? && r.value ==> Recorded(old(sent), Reply(opcode, payload))
      ensures r.Ok? && !r.value ==> !socket.connected && Faulty()
      ensures !r.Ok? ==> r.SleepError? && Interrupted() && socket.connected == old(socket.connected) && Faulty()
      ensures old(socket.connected) ==> Sends(old(sent), sent, Reply(opcode, payload))
      ensures !old(socket.connected) ==> !socket.connected && sent == old(sent)
    {
      hide FrameOf, OnWire, AreItems, Sends, Quiet;
      ghost var reply, sent0 := Reply(opcode, payload), sent;
      var message := MakeMessage(opcode, payload);
      assert message == message[0..0 + |message|];
      FramesAreNotEmpty(side, reply, outputMask);
      r := SocketSend(message, reply, 0, sent);
      SendsDrops(sent0, sent, reply);
      WholeNext(side, sent0, reply, outputMask);
    }

    // ----- the closing handshake ---------------------------------------------------------------

    method SendCloseMessage(code: nat) returns (r: Try<bool>)
      requires Valid()
      modifies this`outputMask, this`sent, clock, socket`output, socket`connected, socket`trouble
      ensures Later()
      ensures Ordered()
      ensures r.Ok? && r.value ==> old(socket.connected) && socket.connected && LastIsWhole()
      ensures r.Ok? && !r.value ==> !socket.connected && Faulty()
      ensures !r.Ok? ==> r.SleepError? && Interrupted() && socket.connected == old(socket.connected) && Faulty()
      ensures old(socket.connected) ==> Sends(old(sent), sent, CloseFrame(code))
      ensures !old(socket.connected) ==> !socket.connected && sent == old(sent)
    {
      hide BigEndian, ByteOf, Swapped;
      var netshort := Swapped(code, 2);
      var payload := [ByteOf(netshort, 0), ByteOf(netshort, 1)];
      SwappedBytes(code, 2, 0);
      SwappedBytes(code, 2, 1);
      assert payload == BigEndian(code, 2);
      r := SendFrame(CLOSE, payload);
    }

    /** Frames are read and dropped until a close frame, a failure or the deadline. */
    method ClosingWaitReply() returns (r: Try<()>)
      requires |inputMask| == 4
      modifies this`header, this`inputLength, this`inputMask, this`inputPayload, socket`input, socket`trouble, clock
      ensures Later() && |inputMask| == 4
      ensures r.Ok? || r.RecvError?
      ensures r.Ok? ==> Waited(old(socket.input))
      ensures r.RecvError? ==> ToClose(side, old(socket.input)) == Unanswered(r.code)
    {
      hide ReadFrame;
      var remaining := 5.0;
      while remaining >= 0.0
        invariant |inputMask| == 4 && Later() && (remaining >= 0.0 || Late())
        invariant ToClose(side, socket.input) == ToClose(side, old(socket.input))
        decreases clock.patience + if remaining >= 0.0 then 1 else 0
      {
        var status := socket.Wait();
        if status == WaitOk {
          var _ :- ReadMessage();
          if header.opcode == CLOSE {
            break;
          }
        }
        remaining := clock.Remaining();
      }
      r := Ok(());
    }

    /** The peer's close frame has been read and everything before it dropped, or a deadline was
        reached with the close frame still to come. */
    twostate predicate Waited(input: Bytes)
      reads clock, socket
    {
      || ToClose(side, input) == Answered(socket.input)
      || (Late() && ToClose(side, input) == ToClose(side, socket.input))
    }

    /** The closing handshake was carried through, or there was a reason not to. */
    twostate predicate Concluded(input: Bytes)
      reads clock, socket
    {
      Faulty() || Waited(input) || ToClose(side, input).Unanswered?
    }

    method TryCloseWithHandshake(code: nat) returns (r: Try<()>)
      requires Valid()
      modifies this`header, this`inputLength, this`inputMask, this`inputPayload, this`outputMask, this`sent
      modifies clock, socket
      ensures Later() && Ordered()
      ensures r.Ok? ==> !socket.connected
      ensures r.SleepError? ==> Interrupted()
      ensures old(socket.connected) ==> Concluded(old(socket.input))
      ensures r.RecvError? ==> ToClose(side, old(socket.input)) == Unanswered(r.code)
      ensures old(socket.connected) ==> Sends(old(sent), sent, CloseFrame(code)) && (Faulty() || LastIsWhole())
      ensures !old(socket.connected) ==> !socket.connected && sent == old(sent)
    {
      hide FrameOf, OnWire, AreItems, Sends, ToClose;
      var sentClose :- SendCloseMessage(code);
      if sentClose {
        var _ :- ClosingWaitReply();
      }
      r := CloseConnection();
    }

    /** Whatever goes wrong in the handshake, the socket is closed without one; only that
        second attempt can fail, and then an exception of rcom_sleep leaves the method. */
    method CloseWithHandshake(code: nat) returns (r: Try<()>)
      requires Valid()
      modifies this`header, this`inputLength, this`inputMask, this`inputPayload, this`outputMask, this`sent
      modifies clock, socket
      ensures Later() && Ordered()
      ensures r.Ok? ==> !socket.connected
      ensures !r.Ok? ==> r.SleepError? && Interrupted()
      ensures old(socket.connected) ==> Concluded(old(socket.input))
      ensures old(socket.connected) ==> Sends(old(sent), sent, CloseFrame(code)) && (Faulty() || LastIsWhole())
      ensures !old(socket.connected) ==> !socket.connected && sent == old(sent)
    {
      hide FrameOf, OnWire, AreItems, Sends, ToClose;
      r := TryCloseWithHandshake(code);
      if !r.Ok? {
        r := CloseConnection();
      }
    }

    // ----- receiving ---------------------------------------------------------------------------

    /** What this socket has assembled when the caller's buffer holds message. */
    ghost function Assembled(message: Bytes): Assembly
      reads this
    {
      Assembly(message, isText, isContinuation)
    }

    /** The frame that is in the fields. */
    ghost function Held(): Frame
      reads this
    {
      Frame(header.fin, header.opcode, inputPayload)
    }

    /** handle_data_payload: its five steps in order. */
    method HandleDataPayload(message: Bytes) returns (r: Try<Bytes>)
      requires IsData(header.opcode) && Within(message)
      modifies this`isText, this`isContinuation, this`events
      ensures var a := old(Assembled(message));
              var got := Accept(a, Held());
              if got.Rejected? then r == RecvError(got.code) && Assembled(message) == a && events == old(events)
              else r.Ok? && Assembled(r.value) == got.assembly
                   && events == old(events) + [Arrival(Held())] && Within(r.value)
    {
      hide Play;
      PlayNext(events, Arrival(Held()));
      if !((header.opcode == CONTINUATION && isContinuation)
           || (header.opcode != CONTINUATION && !isContinuation)) {
        return RecvError(PROTOCOL_ERROR);
      }
      var length := |inputPayload|;
      if header.opcode == CONTINUATION {
        length := length + |message|;
      }
      if length > MAXIMUM_LENGTH {
        return RecvError(TOO_BIG);
      }
      if header.opcode == TEXT {
        isText := true;
      } else if header.opcode == BINARY {
        isText := false;
      }
      var buffer := message;
      if header.opcode == TEXT || header.opcode == BINARY {
        buffer := [];
      }
      buffer := buffer + inputPayload;
      isContinuation := !header.fin;
      events := events + [Arrival(Held())];
      r := Ok(buffer);
    }

    /** What handling one frame did to this socket, as e says. */
    twostate predicate Did(e: Effect, message: Bytes, r: Try<Bytes>)
      reads this, socket
    {
      match e
      case Breaks(code) =>
        && r == RecvError(code) && sent == old(sent) && socket.connected == old(socket.connected)
        && isText == old(isText) && isContinuation == old(isContinuation)
      case Closes(code, _) =>
        && (r == Ok(message) || r.SleepError?)
        && Sends(old(sent), sent, CloseFrame(code)) && (Faulty() || LastIsWhole())
        && (r.Ok? ==> !socket.connected) && !IsComplete()
      case Moves(b, replies, done, _) =>
        && (r.Ok? || (r.SleepError? && replies != []))
        && (r.Ok? ==> Assembled(r.value) == b) && IsComplete() == done
        && (replies == [] ==> sent == old(sent) && socket.connected == old(socket.connected))
        && (replies != [] ==> Sends(old(sent), sent, replies[0]) && (Faulty() || (LastIsWhole() && socket.connected)))
    }

    method ProcessMessage(message: Bytes, ghost size: nat) returns (r: Try<Bytes>)
      requires Valid() && socket.connected && IsOpcode(header.opcode) && Within(message)
      modifies this`isText, this`isContinuation, this`events, this`outputMask, this`sent
      modifies clock, socket`output, socket`connected, socket`trouble
      ensures r.SleepError? ==> Interrupted()
      ensures Later()
      ensures Ordered() && (!r.SleepError? ==> Valid())
      ensures r.Ok? ==> Within(r.value)
      ensures events == old(events) + if r.Ok? && IsData(header.opcode) then [Arrival(Held())] else []
      ensures Did(Process(old(Assembled(message)), Held(), size), message, r)
    {
      hide CloseReason, CloseFrame, BigEndian, Accept, OnWire, AreItems, Play, ForbiddenOnWire, FromBigEndian;
      if header.opcode == CLOSE {
        r := AnswerCloseHandshake(message);
      } else if header.opcode == PING {
        var _ :- SendFrame(PONG, inputPayload);
        r := Ok(message);
      } else if header.opcode == PONG {
        r := Ok(message);
      } else {
        r := HandleDataPayload(message);
      }
    }

    /** handle_one_message. */
    method HandleOneMessage(message: Bytes) returns (r: Try<Bytes>)
      requires Valid() && socket.connected && Within(message)
      modifies this, clock, socket
      ensures r.SleepError? ==> Interrupted()
      ensures Later()
      ensures escaped == old(escaped) && base == old(base)
      ensures r.Ok? ==> Within(r.value)
      ensures events == old(events) + if r.Ok? then ArrivalOf(side, old(socket.input)) else []
      ensures Ordered() && (!r.SleepError? ==> Valid())
      ensures var e := OneFrame(side, old(socket.input), old(Assembled(message)));
              Did(e, message, r) && (!e.Breaks? ==> socket.input == old(socket.input)[e.size..])
    {
      hide ReadFrame, Process, OnWire, AreItems, Play;
      ghost var got := ReadFrame(side, socket.input);
      var _ :- ReadMessage();
      r := ProcessMessage(message, got.size);
    }

    /** The close code is echoed; a payload of any other length than two is answered 1005. */
    method AnswerCloseHandshake(message: Bytes) returns (r: Try<Bytes>)
      requires Valid() && socket.connected
      modifies this`outputMask, this`sent, clock, socket`output, socket`connected, socket`trouble
      ensures r.SleepError? ==> Interrupted()
      ensures Later()
      ensures Ordered() && (r.Ok? ==> Valid())
      ensures r == Ok(message) || r.SleepError?
      ensures r.Ok? ==> !socket.connected
      ensures Sends(old(sent), sent, CloseFrame(CloseReason(inputPayload))) && (Faulty() || LastIsWhole())
      ensures sent[|sent| - 1].reply.payload == if |inputPayload| == 2 then inputPayload else [0x03, 0xED]
      ensures ForbiddenOnWire(FromBigEndian(sent[|sent| - 1].reply.payload))
              <==> |inputPayload| != 2 || ForbiddenOnWire(FromBigEndian(inputPayload))
    {
      hide FromBigEndian, BigEndian, OnWire, AreItems, FrameOf;
      ReasonIsCode(inputPayload);
      CodeReads(CloseReason(inputPayload));
      AnswerForbidden(inputPayload);
      AnswerBytes(inputPayload);
      var reason := MISSING_CODE;
      if |inputPayload| == 2 {
        reason := FromBigEndian(inputPayload);
      }
      var _ :- SendCloseMessage(reason);
      var _ :- CloseConnection();
      r := Ok(message);
    }

    /** has_complete_data_message. */
    predicate IsComplete()
      reads this
    {
      IsData(header.opcode) && header.fin
    }

    /** Where a recv call begins, for the events that it finds. */
    ghost function From(history: seq<Event>): Origin
      reads this, socket
    {
      Origin(sent, history, socket.input, Assembled([]))
    }

    /** What a recv call has made of the stream: the first n frames are gone and the others are
        still there, the frames done are on record, and fields and buffer are as the n frames say. */
    ghost predicate Progressed(from: Origin, n: nat, done: seq<Reply>, message: Bytes)
      reads this, socket
    {
      var p := Along(side, from.input, from.assembly, n);
      && Contents(sent) == Contents(from.sent) + done
      && p.At? && p.rest == socket.input && p.assembly == Assembled(message) && p.replies == done
      && events == from.history + p.arrivals
    }

    /** How try_recv ends after n frames that left it running, for where it began and whether it
        was connected. */
    ghost predicate Ended(from: Origin, connected: bool, r: Try<(RecvStatus, Bytes)>, n: nat, done: seq<Reply>)
      reads this, socket
    {
      var all, p := Receive(side, from.input, from.assembly), Along(side, from.input, from.assembly, n);
      && Contents(sent) == Contents(from.sent) + done && p.At?
      && match r
         case SleepError => true
         case RecvError(code) =>
           && socket.connected == connected && events == from.history + p.arrivals
           && (all == Failed(code, done) || code == INTERNAL_ERROR)
         case Ok(result) =>
           match result.0
           case RecvText =>
             Finished(p, from.history, result.1) && all == Delivered(result.1, true, done, socket.input)
           case RecvBinary =>
             Finished(p, from.history, result.1) && all == Delivered(result.1, false, done, socket.input)
           case RecvTimeOut => socket.connected == connected && Progressed(from, n, done, result.1)
           case RecvClosed =>
             && !socket.connected && done != [] && events == from.history + p.arrivals
             && (Progressed(from, n, done, result.1)
                 || (all.Closed? && all.rest == socket.input && done == all.replies + [CloseFrame(all.code)]))
           case RecvFailed => false
    }

    /** The frame that comes after p has completed the message. */
    ghost predicate Finished(p: Progress, history: seq<Event>, message: Bytes)
      requires p.At?
      reads this, socket
    {
      && socket.connected && !isContinuation && Within(message)
      && events == history + p.arrivals + ArrivalOf(side, p.rest)
    }

    /** wait_and_handle_one_message: false when no data came in time, and then nothing has changed. */
    method WaitAndHandleOneMessage(message: Bytes, ghost from: Origin, ghost n0: nat, ghost sofar: seq<Reply>)
      returns (r: Try<(bool, Bytes)>, ghost n: nat, ghost done: seq<Reply>)
      requires Valid() && Within(message) && Progressed(from, n0, sofar, message)
      modifies this, clock, socket
      ensures Later() && escaped == old(escaped) && base == old(base)
      ensures Ordered() && (if r.SleepError? then Interrupted() else Valid())
      ensures r.Ok? ==> Within(r.value.1)
      ensures r.RecvError? ==> Ended(from, old(socket.connected), RecvError(r.code), n, done)
      ensures r.RecvError? && !Faulty() ==> Receive(side, from.input, from.assembly) == Failed(r.code, done)
      ensures r.Ok? && r.value.0 ==> |socket.input| < |old(socket.input)|
      ensures r.Ok? && r.value.0 && !Faulty() && !socket.connected ==>
                Receive(side, from.input, from.assembly).Closed? && LastIsWhole()
      ensures r.Ok? && !r.value.0 ==>
                && Progressed(from, n, done, r.value.1) && n == n0 && r.value.1 == message
                && socket.connected == old(socket.connected)
                && socket.trouble.timeouts > old(socket.trouble.timeouts)
      ensures r.Ok? && r.value.0 ==>
                if IsComplete() then
                  Ended(from, old(socket.connected), Ok((MessageType(isText), r.value.1)), n, done)
                else if !socket.connected then
                  Ended(from, old(socket.connected), Ok((RecvClosed, r.value.1)), n, done)
                else Progressed(from, n, done, r.value.1) && old(socket.connected)
    {
      hide OneFrame, OnWire, AreItems, Receive, Quiet, FrameOf, LastIsWhole, Play, Along, Onward, ArrivalOf;
      var wait := socket.Wait();
      n, done := n0, sofar;
      if wait == WaitError {
        return RecvError(INTERNAL_ERROR), n, done;
      }
      if wait == WaitTimeout {
        return Ok((false, message)), n, done;
      }
      ghost var e, sent1 := OneFrame(side, socket.input, Assembled(message)), sent;
      UnfoldReceive(side, from.input, from.assembly, n);
      UnfoldAlong(side, from.input, from.assembly, n);
      done := sofar + Due(e);
      n := if e.Moves? && !e.done then n + 1 else n;
      var next :- HandleOneMessage(message);
      RecordGrows(from.sent, sent1, sent, sofar, Due(e));
      r := Ok((true, next));
    }

    /** try_recv. The buffer has just been cleared. n counts the frames that left the call running,
        done lists the frames sent meanwhile. */
    method TryRecv(timeout: real) returns (r: Try<(RecvStatus, Bytes)>, ghost n: nat, ghost done: seq<Reply>)
      requires Valid() && Within([])
      modifies this, clock, socket
      ensures Later()
      ensures escaped == old(escaped) && base == old(base)
      ensures Ordered() && (if r.SleepError? then Interrupted() else Valid())
      ensures !r.SleepError? ==> Ended(old(From(events)), old(socket.connected), r, n, done)
      ensures r.Ok? ==> Within(r.value.1) && r.value.0 != RecvFailed
      ensures r.Ok? && r.value.0 == RecvClosed ==> !socket.connected
      ensures r.RecvError? && !Faulty() ==> Receive(side, old(socket.input), old(Assembled([]))) == Failed(r.code, done)
      ensures r.Ok? && r.value.0 == RecvClosed && !Faulty() ==>
                Receive(side, old(socket.input), old(Assembled([]))).Closed? && LastIsWhole()
      ensures r.Ok? && r.value.0 == RecvTimeOut && timeout >= 0.0 ==> Late() && Listened()
    {
      hide Receive, Ordered, OnWire, AreItems, Play, Onward, ArrivalOf, LastIsWhole;
      ghost var from, connected0 := From(events), socket.connected;
      var message := [];
      var remaining := timeout;
      n, done := 0, [];
      assert Contents(sent) + [] == Contents(sent) && events + [] == events;
      while remaining >= 0.0
        invariant escaped == old(escaped) && base == old(base) && Valid() && socket.connected == connected0
        invariant Within(message) && Progressed(from, n, done, message)
        invariant Later() && |socket.input| <= |from.input|
        invariant remaining == timeout || ((remaining >= 0.0 || Late()) && Listened())
        decreases clock.patience + if remaining >= 0.0 then 1 else 0
      {
        var result;
        result, n, done := WaitAndHandleOneMessage(message, from, n, done);
        if !result.Ok? {
          r := if result.SleepError? then SleepError else RecvError(result.code);
          return;
        }
        message := result.value.1;
        if result.value.0 {
          if IsComplete() {
            r := Ok((MessageType(isText), message));
            return;
          }
          if !socket.connected {
            r := Ok((RecvClosed, message));
            return;
          }
        }
        remaining := clock.Remaining();
      }
      r := Ok((RecvTimeOut, message));
    }

    /** A frame was read, or there was none in time. */
    twostate predicate Listened()
      reads socket
    {
      |socket.input| < |old(socket.input)| || socket.trouble.timeouts > old(socket.trouble.timeouts)
    }

    // ----- the public operations ---------------------------------------------------------------

    /** A recv call begins, with a cleared buffer. */
    ghost method NoteCall()
      requires Valid()
      modifies this`events
      ensures Valid() && Within([]) && events == old(events) + [Call]
    {
      hide Play, OnWire, AreItems, Quiet;
      PlayNext(events, Call);
      events := events + [Call];
    }

    /** A call ends, with an exception of rcom_sleep when thrown. */
    ghost method NoteException(thrown: bool)
      requires Ordered() && (thrown || Valid())
      modifies this`escaped
      ensures Valid() && escaped == (old(escaped) || (thrown && socket.connected))
    {
      hide Play, OnWire, AreItems, Quiet;
      escaped := escaped || (thrown && socket.connected);
    }

    /** The catch clause of recv. */
    method CloseAfterError(code: nat, ghost before: seq<Item>, ghost done: seq<Reply>)
      returns (r: Try<(RecvStatus, Bytes)>)
      requires Valid() && Contents(sent) == Contents(before) + done
      modifies this`header, this`inputLength, this`inputMask, this`inputPayload, this`outputMask, this`sent
      modifies clock, socket
      ensures Later() && Ordered() && (r.Ok? ==> Valid())
      ensures if r.Ok? then r.value == (RecvFailed, []) && !socket.connected else r.SleepError? && Interrupted()
      ensures Contents(sent) == Contents(before) + done + if old(socket.connected) then [CloseFrame(code)] else []
      ensures old(socket.connected) ==> Faulty() || LastIsWhole()
    {
      hide Ordered, OnWire, AreItems, FrameOf, LastIsWhole;
      ghost var sent1, connected1 := sent, socket.connected;
      var closed := CloseWithHandshake(code);
      if connected1 {
        RecordGrows(before, sent1, sent, done, [CloseFrame(code)]);
        assert Contents(before) + (done + [CloseFrame(code)]) == Contents(before) + done + [CloseFrame(code)];
      }
      r := if closed.Ok? then Ok((RecvFailed, [])) else SleepError;
    }

    /** recv. A RecvError never leaves it: the connection is closed with its code instead. */
    method Recv(timeout: real)
      returns (r: Try<(RecvStatus, Bytes)>, ghost n: nat, ghost done: seq<Reply>, ghost code: nat)
      requires Valid()
      modifies this, clock, socket
      ensures Later()
      ensures Valid() && base == old(base) && !r.RecvError?
      ensures r.SleepError? ==> Interrupted()
      ensures escaped == (old(escaped) || (r.SleepError? && socket.connected))
      ensures r.Ok? && r.value.0 in {RecvFailed, RecvClosed} ==> !socket.connected
      ensures r.Ok? && r.value.0 != RecvFailed ==>
                Ended(old(From(events + [Call])), old(socket.connected), r, n, done) && Within(r.value.1)
      ensures isContinuation == Open(Arrivals(events))
      ensures r.Ok? && r.value.0 == RecvClosed && !Faulty() ==>
                Receive(side, old(socket.input), old(Assembled([]))).Closed? && LastIsWhole()
      ensures r.Ok? && r.value.0 == RecvTimeOut && timeout >= 0.0 ==> Late() && Listened()
      ensures r.Ok? && r.value.0 == RecvFailed ==>
                && (code == INTERNAL_ERROR
                    || Receive(side, old(socket.input), old(Assembled([]))) == Failed(code, done))
                && (Faulty() || (Receive(side, old(socket.input), old(Assembled([]))) == Failed(code, done)
                                 && (old(socket.connected) ==> LastIsWhole())))
                && Contents(sent) == Contents(old(sent)) + done
                                     + if old(socket.connected) then [CloseFrame(code)] else []
    {
      hide Receive, Ended, Valid, Ordered, Along, LastIsWhole, FrameOf;
      NoteCall();
      r, n, done := TryRecv(timeout);
      code := 0;
      if r.RecvError? {
        code := r.code;
        CallFailed(old(From(events + [Call])), old(socket.connected), code, n, done);
        r := CloseAfterError(r.code, old(sent), done);
      }
      if r.SleepError? {
        NoteException(true);
      }
      OpenMessage();
    }

    lemma CallFailed(from: Origin, connected: bool, code: nat, n: nat, done: seq<Reply>)
      requires Ended(from, connected, RecvError(code), n, done)
      ensures Contents(sent) == Contents(from.sent) + done && socket.connected == connected
      ensures code == INTERNAL_ERROR || Receive(side, from.input, from.assembly) == Failed(code, done)
    {
      hide Receive, Along;
    }

    /** is_continuation_ says, at any time, whether the last accepted data frame had FIN = 0. */
    lemma OpenMessage()
      requires Valid()
      ensures isContinuation == Open(Arrivals(events)) && WellFragmented(Arrivals(events)) && Bounded(events)
    {
      hide Play, Open, Arrivals, WellFragmented, Bounded, Collected, OnWire, AreItems;
      HistoryAccepted(events);
    }

    /** close. */
    method Close(code: nat) returns (r: Try<()>)
      requires Valid()
      modifies this`header, this`inputLength, this`inputMask, this`inputPayload, this`outputMask, this`sent
      modifies this`escaped, clock, socket
      ensures Later()
      ensures Valid() && base == old(base)
      ensures if r.Ok? then !socket.connected else r.SleepError? && Interrupted()
      ensures escaped == (old(escaped) || (r.SleepError? && socket.connected))
      ensures if old(socket.connected) then
                Sends(old(sent), sent, CloseFrame(code)) && (Faulty() || LastIsWhole()) && Concluded(old(socket.input))
              else sent == old(sent)
    {
      r := CloseWithHandshake(code);
      NoteException(r.SleepError?);
    }

    /** output_send_payload: the client masks the block in its scratch buffer. */
    method OutputSendPayload(data: Bytes, ghost reply: Reply, ghost at: nat, ghost prior: seq<Item>)
      returns (r: Try<bool>)
      requires WellFormed() && data != [] && |data| <= BLOCK && at > 0
      requires IsBlock(Payload(side, data, outputMask), reply, at)
      requires sent == prior + [Item(reply, outputMask, at)] && socket.connected
      modifies this`sent, clock, socket`output, socket`connected, socket`trouble
      ensures Later()
      ensures WellFormed() && Sends(prior, sent, reply)
      ensures r.Ok? && r.value ==> socket.connected && sent == prior + [Item(reply, outputMask, at + |data|)]
      ensures r.Ok? && !r.value ==> !socket.connected && Faulty()
      ensures !r.Ok? ==> r.SleepError? && Interrupted()
    {
      hide FrameOf, OnWire, AreItems, Masked, Sends;
      if side.Client? {
        var buffer := new Byte[BLOCK];
        MaskData(buffer, data);
        r := SocketSend(buffer[..|data|], reply, at, prior);
      } else {
        r := SocketSend(data, reply, at, prior);
      }
    }

    /** send_long_data_message: the header, then the payload in blocks of 1024 bytes. */
    method SendLong(opcode: Byte, message: Bytes) returns (r: Try<bool>)
      requires WellFormed()
      modifies this`outputMask, this`sent, clock, socket`output, socket`connected, socket`trouble
      ensures Later()
      ensures WellFormed() && !r.RecvError?
      ensures r.SleepError? ==> Interrupted()
      ensures r.Ok? && r.value ==>
                old(socket.connected) && socket.connected && Recorded(old(sent), Reply(opcode, message))
      ensures r.Ok? && !r.value ==> !socket.connected && Faulty()
      ensures if old(socket.connected) then Sends(old(sent), sent, Reply(opcode, message))
              else !socket.connected && sent == old(sent)
    {
      hide FrameOf, OnWire, AreItems, PrintedHeader, Payload;
      ghost var reply, prior := Reply(opcode, message), sent;
      var head := OutputAppendHeader([], opcode, |message|);
      assert [] + head == head;
      FrameParts(side, reply, outputMask);
      var success :- SocketSend(head, reply, 0, prior);
      if success {
        success :- SendLongPayload(message, reply, prior, |head|);
      }
      r := Ok(success);
    }

    /** send_long_message_payload: blocks of 1024 bytes, after a header of size bytes. */
    method SendLongPayload(message: Bytes, ghost reply: Reply, ghost prior: seq<Item>, ghost size: nat)
      returns (r: Try<bool>)
      requires WellFormed() && socket.connected && message == reply.payload
      requires size == |PrintedHeader(side, reply.opcode, |message|, outputMask)| > 0
      requires sent == prior + [Item(reply, outputMask, size)]
      modifies this`sent, clock, socket`output, socket`connected, socket`trouble
      ensures Later()
      ensures WellFormed() && !r.RecvError? && Sends(prior, sent, reply)
      ensures r.SleepError? ==> Interrupted()
      ensures r.Ok? && r.value ==> socket.connected && Recorded(prior, reply)
      ensures r.Ok? && !r.value ==> !socket.connected && Faulty()
    {
      hide FrameOf, OnWire, AreItems, PrintedHeader, Payload;
      var done := 0;
      var success := true;
      while success && done < |message|
        invariant done <= |message| && (done == |message| || done % BLOCK == 0)
        invariant WellFormed() && Sends(prior, sent, reply) && Later()
        invariant if success then socket.connected && sent == prior + [Item(reply, outputMask, size + done)]
                  else !socket.connected && Faulty()
      {
        var n := BLOCK;
        if done + n > |message| {
          n := |message| - done;
        }
        PayloadBlock(side, reply, outputMask, done, n);
        success :- OutputSendPayload(message[done..done + n], reply, size + done, prior);
        done := done + n;
      }
      FrameParts(side, reply, outputMask);
      r := Ok(success);
    }

    /** The short path or the long one: the same bytes are put on the wire. */
    method SendMessage(opcode: Byte, message: Bytes) returns (r: Try<bool>)
      requires Valid() && opcode != CLOSE
      modifies this`outputMask, this`sent, clock, socket`output, socket`connected, socket`trouble
      ensures Later()
      ensures Ordered() && !r.RecvError? && (if r.SleepError? then Interrupted() else Valid())
      ensures r.Ok? && r.value ==>
                && socket.connected && Recorded(old(sent), Reply(opcode, message))
                && socket.output == old(socket.output) + PrintedFrame(side, opcode, message, outputMask)
      ensures r.Ok? && !r.value ==> !socket.connected && Faulty()
      ensures if old(socket.connected) then Sends(old(sent), sent, Reply(opcode, message))
              else !socket.connected && sent == old(sent)
    {
      hide FrameOf, PrintedFrame, OnWire, AreItems, Quiet;
      ghost var sent0 := sent;
      assert AreItems(side, sent0);
      if |message| < SHORT_MESSAGE {
        r := SendFrame(opcode, message);
      } else {
        r := SendLong(opcode, message);
      }
      assert sent != sent0 ==> sent[..|sent| - 1] == sent0;
      if r.Ok? && r.value {
        WholeNext(side, sent0, Reply(opcode, message), outputMask);
        FrameIsPrinted(side, opcode, message, outputMask);
      }
    }

    /** send. */
    method Send(message: Bytes, text: bool) returns (r: Try<bool>)
      requires Valid()
      modifies this`outputMask, this`sent, this`escaped, clock, socket`output, socket`connected, socket`trouble
      ensures Later()
      ensures Valid() && !r.RecvError?
      ensures r.SleepError? ==> Interrupted()
      ensures escaped == (old(escaped) || (r.SleepError? && socket.connected))
      ensures r.Ok? && r.value ==>
                && socket.connected && Recorded(old(sent), Reply(TypeOpcode(text), message))
                && socket.output == old(socket.output) + PrintedFrame(side, TypeOpcode(text), message, outputMask)
      ensures r.Ok? && !r.value && |message| < MAXIMUM_LENGTH ==> !socket.connected && Faulty()
      ensures if |message| >= MAXIMUM_LENGTH then
                r.Ok? && !r.value && sent == old(sent) && socket.output == old(socket.output)
                && socket.connected == old(socket.connected) && socket.trouble == old(socket.trouble)
              else if old(socket.connected) then Sends(old(sent), sent, Reply(TypeOpcode(text), message))
              else !socket.connected && sent == old(sent)
    {
      hide PrintedFrame, OnWire, AreItems, Quiet;
      if |message| >= MAXIMUM_LENGTH {
        r := Ok(false);
      } else {
        r := SendMessage(TypeOpcode(text), message);
      }
      NoteException(r.SleepError?);
    }
  }

  lemma FrameIsPrinted(side: Side, opcode: Byte, message: Bytes, mask: Bytes)
    requires |mask| == 4
    ensures FrameOf(side, Reply(opcode, message), mask) == PrintedFrame(side, opcode, message, mask)
  {
  }

  lemma WholeNext(side: Side, items: seq<Item>, reply: Reply, mask: Bytes)
    requires AreItems(side, items) && |mask| == 4
    ensures var frame := FrameOf(side, reply, mask);
            var all := items + [Item(reply, mask, |frame|)];
            && AreItems(side, all)
            && OnWire(side, all) == OnWire(side, items) + frame
            && (Quiet(side, items) && reply.opcode != CLOSE ==> Quiet(side, all))
  {
    hide FrameOf, OnWire;
    var frame := FrameOf(side, reply, mask);
    OnWireNext(side, items, Item(reply, mask, |frame|));
    assert frame[..|frame|] == frame;
  }

  lemma FrameParts(side: Side, reply: Reply, mask: Bytes)
    requires |mask| == 4
    ensures var head := PrintedHeader(side, reply.opcode, |reply.payload|, mask);
            && head != []
            && FrameOf(side, reply, mask) == head + Payload(side, reply.payload, mask)
            && |FrameOf(side, reply, mask)| == |head| + |reply.payload|
            && FrameOf(side, reply, mask)[0..|head|] == head
  {
  }

  /** A block of the payload as it is sent is the block of the frame where it belongs. */
  lemma PayloadBlock(side: Side, reply: Reply, mask: Bytes, done: nat, n: nat)
    requires |mask| == 4 && done % BLOCK == 0 && done + n <= |reply.payload|
    ensures var at := |PrintedHeader(side, reply.opcode, |reply.payload|, mask)| + done;
            && at + n <= |FrameOf(side, reply, mask)|
            && |Payload(side, reply.payload[done..done + n], mask)| == n
            && Payload(side, reply.payload[done..done + n], mask) == FrameOf(side, reply, mask)[at..at + n]
  {
    hide PrintedHeader, Masked;
    var data := reply.payload;
    var head := PrintedHeader(side, reply.opcode, |data|, mask);
    var body := Payload(side, data, mask);
    assert body[done..done + n] == Payload(side, data[done..done + n], mask) by {
      if side.Client? {
        MaskGrows(data, done, n, mask);
        MaskedPrefix(data, done + n, mask);
      }
    }
    assert (head + body)[|head| + done..|head| + done + n] == body[done..done + n];
  }

  lemma MaskedPrefix(data: Bytes, k: nat, mask: Bytes)
    requires |mask| == 4 && k <= |data|
    ensures Masked(data, mask)[..k] == Masked(data[..k], mask)
  {
  }

  /** get_message_type. */
  function MessageType(isText: bool): RecvStatus { if isText then RecvText else RecvBinary }

  datatype RecvStatus = RecvFailed | RecvClosed | RecvTimeOut | RecvText | RecvBinary

  /** The frames that one frame makes the socket send. */
  function Due(e: Effect): seq<Reply> {
    match e
    case Breaks(_) => []
    case Closes(code, _) => [CloseFrame(code)]
    case Moves(_, replies, _, _) => replies
  }

  /** What one more frame says about the whole stream. */
  lemma UnfoldReceive(side: Side, input0: Bytes, a0: Assembly, n: nat)
    requires Along(side, input0, a0, n).At?
    ensures var p, all := Along(side, input0, a0, n), Receive(side, input0, a0);
            match OneFrame(side, p.rest, p.assembly)
            case Breaks(code) => all == Failed(code, p.replies)
            case Closes(code, size) => all == Closed(code, p.replies, p.rest[size..])
            case Moves(b, replies, complete, size) =>
              complete ==> all == Delivered(b.message, b.isText, p.replies, p.rest[size..])
  {
    hide OneFrame, Along;
    AlongReceives(side, input0, a0, n);
    var p := Along(side, input0, a0, n);
    assert p.replies + [] == p.replies;
  }

  lemma UnfoldAlong(side: Side, input0: Bytes, a0: Assembly, n: nat)
    requires Along(side, input0, a0, n).At?
    ensures var p := Along(side, input0, a0, n);
            match OneFrame(side, p.rest, p.assembly)
            case Breaks(_) => true
            case Closes(_, _) => ArrivalOf(side, p.rest) == []
            case Moves(b, replies, complete, size) =>
              !complete ==> Along(side, input0, a0, n + 1)
                            == At(p.rest[size..], b, p.replies + replies, p.arrivals + ArrivalOf(side, p.rest))
  {
    hide ReadFrame, Accept;
  }

  lemma RecordGrows(sent0: seq<Item>, sent1: seq<Item>, sent: seq<Item>, done: seq<Reply>, due: seq<Reply>)
    requires Contents(sent1) == Contents(sent0) + done && |due| <= 1
    requires due == [] ==> sent == sent1
    requires due != [] ==> Sends(sent1, sent, due[0])
    ensures Contents(sent) == Contents(sent0) + (done + due)
  {
    if due != [] {
      assert sent == sent1 + [sent[|sent| - 1]];
      assert Contents(sent) == Contents(sent1) + due;
    }
    assert Contents(sent0) + (done + due) == (Contents(sent0) + done) + due;
  }

  function CloseFrame(code: nat): Reply { Reply(CLOSE, BigEndian(code, 2)) }

  /** One more frame is on record, whole or in part. */
  ghost predicate Sends(before: seq<Item>, after: seq<Item>, reply: Reply) {
    after != [] && after[..|after| - 1] == before && after[|after| - 1].reply == reply
  }

  lemma SendsOne(before: seq<Item>, item: Item)
    ensures Sends(before, before + [item], item.reply)
  {
  }

  lemma SendsDrops(before: seq<Item>, after: seq<Item>, reply: Reply)
    ensures Sends(before, after, reply) ==> after != [] && after[..|after| - 1] == before
  {
  }

  lemma FramesAreNotEmpty(side: Side, reply: Reply, mask: Bytes)
    requires |mask| == 4
    ensures FrameOf(side, reply, mask) != []
  {
  }

  lemma OnWireNext(side: Side, items: seq<Item>, item: Item)
    requires AreItems(side, items) && IsItem(side, item)
    ensures AreItems(side, items + [item])
    ensures OnWire(side, items + [item]) == OnWire(side, items) + FrameOf(side, item.reply, item.mask)[..item.written]
  {
    var all := items + [item];
    assert all[..|all| - 1] == items;
  }

  /** n more bytes of the frame, after the at bytes that are on the wire. */
  lemma BlockBegins(frame: Bytes, data: Bytes, at: nat, n: nat)
    requires at + |data| <= |frame| && data == frame[at..at + |data|] && n <= |data|
    ensures data[..n] == frame[at..at + n]
  {
  }

  lemma AfterBase(base: Bytes, wire: Bytes, more: Bytes)
    ensures (base + wire) + more == base + (wire + more)
    ensures more == [] ==> (base + wire) + more == base + wire
  {
  }

  lemma ProgressOnWire(side: Side, prior: seq<Item>, reply: Reply, mask: Bytes, at: nat, n: nat)
    requires |mask| == 4 && at + n <= |FrameOf(side, reply, mask)|
    requires AreItems(side, if at == 0 then prior else prior + [Item(reply, mask, at)])
    ensures AreItems(side, prior) && AreItems(side, prior + [Item(reply, mask, at + n)])
    ensures OnWire(side, prior + [Item(reply, mask, at + n)])
         == OnWire(side, if at == 0 then prior else prior + [Item(reply, mask, at)])
            + FrameOf(side, reply, mask)[at..at + n]
  {
    hide FrameOf, OnWire;
    var frame := FrameOf(side, reply, mask);
    assert AreItems(side, prior) by {
      if at > 0 {
        assert forall i :: 0 <= i < |prior| ==> prior[i] == (prior + [Item(reply, mask, at)])[i];
      }
    }
    OnWireNext(side, prior, Item(reply, mask, at + n));
    if at > 0 {
      OnWireNext(side, prior, Item(reply, mask, at));
      assert frame[..at + n] == frame[..at] + frame[at..at + n];
    }
  }

  // ----- the header, byte by byte --------------------------------------------------------------

  /** The seven-bit length as the code computes it. */
  function ShortLength(side: Side, n: nat): Byte {
    Flagged(side, Low7(Low(n)))
  }

  lemma ShortPrinted(side: Side, n: nat)
    requires n < 126
    ensures PrintedLength(side, n) == [ShortLength(side, n)]
  {
    hide Val, Low7, Flagged, Small;
    LengthBits(Low(n));
  }

  lemma TwoPrinted(side: Side, n: nat)
    requires 126 <= n <= 65536
    ensures var x := Swapped(n % 65536, 2);
            (PrintedLength(side, n) == [Flagged(side, Small(126)), ByteOf(x, 0), ByteOf(x, 1)])
  {
    hide Small, Flagged, BigEndian, ByteOf, Swapped;
    if n == 65536 {
      Zero16();
    }
    SwappedBytes(n % 65536, 2, 0);
    SwappedBytes(n % 65536, 2, 1);
    assert BigEndian(n, 2) == [BigEndian(n, 2)[0], BigEndian(n, 2)[1]];
  }

  lemma EightPrinted(side: Side, n: nat)
    requires 65536 < n
    ensures var x := Swapped(n, 8);
            (PrintedLength(side, n)
             == [Flagged(side, Small(127)), ByteOf(x, 0), ByteOf(x, 1), ByteOf(x, 2), ByteOf(x, 3),
                 ByteOf(x, 4), ByteOf(x, 5), ByteOf(x, 6), ByteOf(x, 7)])
  {
    hide Small, Flagged, BigEndian, ByteOf, Swapped;
    forall i | 0 <= i < 8
      ensures ByteOf(Swapped(n, 8), i) == BigEndian(n, 8)[i]
    {
      SwappedBytes(n, 8, i);
    }
    EightParts(BigEndian(n, 8));
  }

  lemma EightParts(s: Bytes)
    requires |s| == 8
    ensures s == [s[0], s[1], s[2], s[3], s[4], s[5], s[6], s[7]]
  {
  }

  lemma NothingMasked(mask: Bytes)
    requires |mask| == 4
    ensures Masked([], mask) == []
  {
  }

  lemma MaskGrows(data: Bytes, done: nat, more: nat, mask: Bytes)
    requires |mask| == 4 && done % BLOCK == 0 && done + more <= |data|
    ensures Masked(data[..done + more], mask) == Masked(data[..done], mask) + Masked(data[done..done + more], mask)
  {
    assert data[..done + more] == data[..done] + data[done..done + more];
    FullBlocks(done);
    MaskRestarts(data[..done], data[done..done + more], mask);
  }

  /** Unmasking block by block is unmasking at once, as every block but the last is full. */
  lemma UnmaskGrows(side: Side, s: Bytes, done: nat, more: nat, mask: Bytes)
    requires |mask| == 4 && done % BLOCK == 0 && done + more <= |s|
    ensures s[done..][..more] == s[done..done + more] && s[done..][more..] == s[done + more..]
    ensures Unmasked(side, s[..done + more], mask)
         == Unmasked(side, s[..done], mask) + Unmasked(side, s[done..done + more], mask)
  {
    assert s[..done + more] == s[..done] + s[done..done + more];
    FullBlocks(done);
    if side.Server? {
      MaskRestarts(s[..done], s[done..done + more], mask);
    }
  }

  lemma FullBlocks(n: nat)
    requires n % 1024 == 0
    ensures n % 4 == 0
  {
    var q := n / 1024;
    assert n == 1024 * q;
    FourLater(0, 256 * q);
  }

  lemma UnmaskedByClient(side: Side, mask: Bytes, key: Bytes, s: Bytes)
    requires |mask| == 4 && (side.Server? ==> mask == key)
    ensures forall i, j :: 0 <= i <= j <= |s| ==> Unmasked(side, s[i..j], mask) == Unmasked(side, s[i..j], key)
  {
  }
}
