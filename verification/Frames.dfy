/** The frame format: what the two subclasses print, what a conforming peer prints (section
    5.2 of RFC 6455), and what the code makes of any bytes it reads. */
module Frames {
  import opened Octets
  import opened Masking

  // ----- constants of WebSocketConstants.h, WebSocket.h and Frames.h ------------------------

  const CONTINUATION: Byte := 0
  const TEXT: Byte := 1
  const BINARY: Byte := 2
  const CLOSE: Byte := 8
  const PING: Byte := 9
  const PONG: Byte := 10

  const CLOSE_NORMAL: nat := 1000
  const GOING_AWAY: nat := 1001
  const PROTOCOL_ERROR: nat := 1002
  const MISSING_CODE: nat := 1005
  const TOO_BIG: nat := 1009
  const INTERNAL_ERROR: nat := 1011

  const MAXIMUM_LENGTH: nat := 128 * 1024 * 1024
  const SHORT_MESSAGE: nat := 128 * 1024
  const BLOCK: nat := 1024

  datatype Side = Client | Server {
    function Peer(): Side { if Client? then Server else Client }
  }

  datatype Frame = Frame(fin: bool, opcode: Byte, payload: Bytes)

  predicate IsOpcode(op: Byte) {
    op == CONTINUATION || op == TEXT || op == BINARY || op == CLOSE || op == PING || op == PONG
  }

  predicate IsControl(op: Byte) { op == CLOSE || op == PING || op == PONG }

  // ----- the bits of the first two bytes -----------------------------------------------------

  function Top(b: Byte): bool { b & 0x80 != 0 }

  function WithTop(b: Byte): Byte { 0x80 | b }

  function Low4(b: Byte): Byte { b & 0x0f }

  function Low7(b: Byte): Byte { b & 0x7f }

  lemma OpcodeBits(op: Byte)
    requires IsOpcode(op)
    ensures Low4(op) == op && !Top(op) && Low4(WithTop(op)) == op && Top(WithTop(op))
  {
    assert op < 16;
    Bits4(op);
  }

  lemma Bits4(b: Byte)
    requires b < 16
    ensures b & 0x0f == b && b & 0x80 == 0 && (0x80 | b) & 0x0f == b && (0x80 | b) & 0x80 != 0
  {
  }

  lemma LengthBits(b: Byte)
    requires Val(b) < 128
    ensures Low7(b) == b && !Top(b) && Low7(WithTop(b)) == b && Top(WithTop(b))
  {
    Below128(b);
    Bits7(b);
  }

  lemma Below128(b: Byte)
    requires b as int < 128
    ensures b < 128
  {
  }

  lemma Bits7(b: Byte)
    requires b < 128
    ensures b & 0x7f == b && b & 0x80 == 0 && (0x80 | b) & 0x7f == b && (0x80 | b) & 0x80 != 0
  {
  }

  lemma SevenBits(b: Byte)
    ensures Val(Low7(b)) < 128
  {
    Below127(b & 0x7f);
  }

  lemma Below127(b: Byte)
    requires b <= 0x7f
    ensures b as int < 128
  {
  }

  // ----- printing ----------------------------------------------------------------------------

  function Flagged(side: Side, b: Byte): Byte { if side.Client? then WithTop(b) else b }

  /** The length field of section 5.2: the shortest of the three forms. */
  function RfcLength(side: Side, n: nat): (s: Bytes)
    ensures |s| == if n < 126 then 1 else if n < 65536 then 3 else 9
  {
    if n < 126 then [Flagged(side, Small(n))]
    else if n < 65536 then [Flagged(side, Small(126))] + BigEndian(n, 2)
    else [Flagged(side, Small(127))] + BigEndian(n, 8)
  }

  /** The length field as the code prints it: the 16-bit form also for 65536. */
  function PrintedLength(side: Side, n: nat): (s: Bytes) {
    if n < 126 then [Flagged(side, Small(n))]
    else if n <= 65536 then [Flagged(side, Small(126))] + BigEndian(n, 2)
    else [Flagged(side, Small(127))] + BigEndian(n, 8)
  }

  function MaskField(side: Side, mask: Bytes): Bytes { if side.Client? then mask else [] }

  function Payload(side: Side, data: Bytes, mask: Bytes): Bytes
    requires |mask| == 4
  {
    if side.Client? then Masked(data, mask) else data
  }

  function FirstByte(f: Frame): Byte { if f.fin then WithTop(f.opcode) else f.opcode }

  /** A frame as a conforming peer of the other side prints it. */
  function RfcFrame(side: Side, f: Frame, mask: Bytes): Bytes
    requires |mask| == 4
  {
    [FirstByte(f)] + RfcLength(side, |f.payload|) + MaskField(side, mask) + Payload(side, f.payload, mask)
  }

  function PrintedHeader(side: Side, op: Byte, n: nat, mask: Bytes): Bytes {
    [WithTop(op)] + PrintedLength(side, n) + MaskField(side, mask)
  }

  /** A frame as make_message prints it; FIN is always set. */
  function PrintedFrame(side: Side, op: Byte, data: Bytes, mask: Bytes): Bytes
    requires |mask| == 4
  {
    PrintedHeader(side, op, |data|, mask) + Payload(side, data, mask)
  }

  // ----- reading -----------------------------------------------------------------------------

  datatype Header = Header(fin: bool, opcode: Byte, masked: bool, length: nat, mask: Bytes, size: nat)

  datatype HeaderRead = Short | Got(header: Header)

  /** How many bytes of length follow a seven-bit length. */
  function LengthSize(v: nat): nat { if v < 126 then 0 else if v == 126 then 2 else 8 }

  function Extended(b: Byte): nat { LengthSize(Val(Low7(b))) }

  /** The header at the start of s; the server reads four mask bytes whatever the flag says. */
  function ReadHeader(side: Side, s: Bytes): (r: HeaderRead)
    ensures r.Got? ==> 2 <= r.header.size <= |s| && (side.Server? ==> |r.header.mask| == 4)
  {
    if |s| < 2 then Short
    else
      var ext, key := Extended(s[1]), if side.Server? then 4 else 0;
      if |s| < 2 + ext + key then Short
      else
        Got(Header(Top(s[0]), Low4(s[0]), Top(s[1]),
                   if ext == 0 then Val(Low7(s[1])) else FromBigEndian(s[2..2 + ext]),
                   s[2 + ext..2 + ext + key], 2 + ext + key))
  }

  datatype Check = Fine | Refused(code: nat)

  /** input_assert_valid_message. */
  function CheckHeader(side: Side, h: Header): Check {
    if h.masked != side.Server? then Refused(PROTOCOL_ERROR)
    else if !IsOpcode(h.opcode) then Refused(PROTOCOL_ERROR)
    else if h.length > MAXIMUM_LENGTH then Refused(TOO_BIG)
    else Fine
  }

  datatype FrameRead = Fault(code: nat) | Read(frame: Frame, size: nat)

  function Unmasked(side: Side, data: Bytes, mask: Bytes): (r: Bytes)
    requires side.Server? ==> |mask| == 4
    ensures |r| == |data|
  {
    if side.Server? then Masked(data, mask) else data
  }

  /** read_message on the bytes s, when no more bytes will ever follow them. */
  function ReadFrame(side: Side, s: Bytes): (r: FrameRead)
    ensures r.Read? ==> 2 <= r.size <= |s| && IsOpcode(r.frame.opcode) && |r.frame.payload| <= MAXIMUM_LENGTH
  {
    match ReadHeader(side, s)
    case Short => Fault(INTERNAL_ERROR)
    case Got(h) =>
      match CheckHeader(side, h)
      case Refused(code) => Fault(code)
      case Fine =>
        if |s| < h.size + h.length then Fault(INTERNAL_ERROR)
        else Read(Frame(h.fin, h.opcode, Unmasked(side, s[h.size..h.size + h.length], h.mask)), h.size + h.length)
  }

  // ----- what is printed is read ---------------------------------------------------------------

  lemma FlaggedBits(side: Side, b: Byte)
    requires Val(b) < 128
    ensures Low7(Flagged(side, b)) == b && Top(Flagged(side, b)) == side.Client?
  {
    hide Low7, Top, WithTop;
    LengthBits(b);
  }

  /** The length field, whatever follows it, gives back the length. */
  lemma LengthReads(side: Side, n: nat, first: Byte, rest: Bytes)
    requires n < 0x1_0000_0000_0000_0000
    ensures var s := [first] + RfcLength(side, n) + rest;
            && |s| >= 2 && Top(s[1]) == side.Client?
            && 2 + Extended(s[1]) == 1 + |RfcLength(side, n)|
            && n == (if Extended(s[1]) == 0 then Val(Low7(s[1])) else FromBigEndian(s[2..2 + Extended(s[1])]))
  {
    hide Low7, Top, WithTop, Small, Flagged, FromBigEndian, BigEndian;
    var field := RfcLength(side, n);
    var s := [first] + field + rest;
    if n < 126 {
      FlaggedBits(side, Small(n));
    } else if n < 65536 {
      FlaggedBits(side, Small(126));
      Powers();
      BigEndianReads(n, 2);
      assert s[2..4] == BigEndian(n, 2);
    } else {
      FlaggedBits(side, Small(127));
      Powers();
      BigEndianReads(n, 8);
      assert s[2..10] == BigEndian(n, 8);
    }
  }

  lemma Powers()
    ensures Power256(2) == 65536 && Power256(8) == 0x1_0000_0000_0000_0000
  {
    assert Power256(4) == 0x1_0000_0000;
  }

  lemma PayloadReads(side: Side, data: Bytes, mask: Bytes)
    requires |mask| == 4
    ensures |Payload(side, data, mask)| == |data|
    ensures Unmasked(side.Peer(), Payload(side, data, mask), MaskField(side, mask)) == data
  {
    if side.Client? {
      MaskTwice(data, mask);
    }
  }

  lemma FirstByteReads(f: Frame)
    requires IsOpcode(f.opcode)
    ensures Top(FirstByte(f)) == f.fin && Low4(FirstByte(f)) == f.opcode
  {
    hide Low4, Top, WithTop;
    OpcodeBits(f.opcode);
  }

  function RfcSize(side: Side, n: nat): nat {
    1 + |RfcLength(side, n)| + if side.Client? then 4 else 0
  }

  lemma HeaderReads(side: Side, f: Frame, mask: Bytes, rest: Bytes)
    requires IsOpcode(f.opcode) && |mask| == 4 && |f.payload| < 0x1_0000_0000_0000_0000
    ensures ReadHeader(side.Peer(), RfcFrame(side, f, mask) + rest)
         == Got(Header(f.fin, f.opcode, side.Client?, |f.payload|, MaskField(side, mask), RfcSize(side, |f.payload|)))
  {
    hide Low4, Low7, Top, FirstByte, RfcLength, Payload, IsOpcode, Extended, FromBigEndian, Val, Masked;
    var key, body := MaskField(side, mask), Payload(side, f.payload, mask);
    var field := RfcLength(side, |f.payload|);
    var s := RfcFrame(side, f, mask) + rest;
    LengthReads(side, |f.payload|, FirstByte(f), key + body + rest);
    FirstByteReads(f);
    assert s == [FirstByte(f)] + field + (key + body + rest);
    assert s == ([FirstByte(f)] + field) + key + (body + rest);
    Middle([FirstByte(f)] + field, key, body + rest);
  }

  lemma Middle(a: Bytes, b: Bytes, c: Bytes)
    ensures (a + b + c)[|a|..|a| + |b|] == b
  {
  }

  /** A frame that a conforming peer prints is read back, and nothing after it is touched;
      only a payload over 128 MB is refused. */
  lemma RfcRoundTrip(side: Side, f: Frame, mask: Bytes, rest: Bytes)
    requires IsOpcode(f.opcode) && |mask| == 4 && |f.payload| < 0x1_0000_0000_0000_0000
    ensures ReadFrame(side.Peer(), RfcFrame(side, f, mask) + rest)
         == if |f.payload| <= MAXIMUM_LENGTH then Read(f, |RfcFrame(side, f, mask)|) else Fault(TOO_BIG)
  {
    hide Low4, Low7, Top, FirstByte, RfcLength, Payload, IsOpcode, ReadHeader, Unmasked;
    var s := RfcFrame(side, f, mask) + rest;
    var h := RfcSize(side, |f.payload|);
    HeaderReads(side, f, mask, rest);
    PayloadReads(side, f.payload, mask);
    var head := [FirstByte(f)] + RfcLength(side, |f.payload|) + MaskField(side, mask);
    assert s == head + Payload(side, f.payload, mask) + rest && |head| == h;
    assert s[h..h + |f.payload|] == Payload(side, f.payload, mask);
  }

  /** The code prints the frame of section 5.2 for every length but one. */
  lemma PrintsRfcExcept65536(side: Side, op: Byte, data: Bytes, mask: Bytes)
    requires |mask| == 4
    ensures PrintedFrame(side, op, data, mask) == RfcFrame(side, Frame(true, op, data), mask) <==> |data| != 65536
  {
    hide Small, BigEndian, WithTop;
    if |data| == 65536 {
      var p, r := PrintedFrame(side, op, data, mask), RfcFrame(side, Frame(true, op, data), mask);
      assert |r| == |p| + 6 by { PayloadReads(side, data, mask); }
    }
  }

  lemma Zero16()
    ensures BigEndian(65536, 2) == BigEndian(0, 2)
  {
    hide *;
    TwoBytes(65536);
    TwoBytes(0);
    Multiples(65536, 256);
  }

  lemma TwoBytes(n: nat)
    ensures BigEndian(n, 2) == [Low(n / 256), Low(n)]
  {
    hide Low;
    assert BigEndian(n / 256, 1) == [Low(n / 256)];
  }

  lemma Multiples(n: nat, m: nat)
    requires n % 256 == 0 && m % 256 == 0
    ensures Low(n) == Low(0) == Low(m)
  {
    hide Val, Small;
    SameVal(Low(n), Low(0));
    SameVal(Low(m), Low(0));
  }

  /** What is read instead: a frame of length 0, so that the payload is left to be taken for
      the frames that follow. */
  lemma Reads65536AsEmpty(side: Side, op: Byte, data: Bytes, mask: Bytes, rest: Bytes)
    requires IsOpcode(op) && |mask| == 4 && |data| == 65536
    ensures ReadFrame(side.Peer(), PrintedFrame(side, op, data, mask) + rest)
         == Read(Frame(true, op, []), if side.Client? then 8 else 4)
  {
    hide Low4, Low7, Top, WithTop, Small, BigEndian, IsOpcode, Payload, Unmasked;
    var s := PrintedFrame(side, op, data, mask) + rest;
    FirstByteReads(Frame(true, op, data));
    FlaggedBits(side, Small(126));
    Zero16();
    Powers();
    BigEndianReads(0, 2);
    assert s[0] == WithTop(op) && s[1] == Flagged(side, Small(126)) && s[2..4] == BigEndian(0, 2);
    if side.Client? {
      assert s[4..8] == mask;
      assert s[8..8] == [];
    } else {
      assert s[4..4] == [];
    }
    NothingUnmasked(side.Peer(), if side.Client? then mask else []);
  }

  lemma NothingUnmasked(side: Side, mask: Bytes)
    requires side.Server? ==> |mask| == 4
    ensures Unmasked(side, [], mask) == []
  {
  }

  /** The peer reads back exactly what was sent, and exactly its bytes, if and only if the
      length is neither 65536 nor over 128 MB. */
  lemma PrintRoundTrip(side: Side, op: Byte, data: Bytes, mask: Bytes, rest: Bytes)
    requires IsOpcode(op) && |mask| == 4 && |data| < 0x1_0000_0000_0000_0000
    ensures var p := PrintedFrame(side, op, data, mask);
            ReadFrame(side.Peer(), p + rest) == Read(Frame(true, op, data), |p|)
            <==> |data| != 65536 && |data| <= MAXIMUM_LENGTH
  {
    hide ReadFrame, PrintedFrame, RfcFrame, IsOpcode;
    PrintsRfcExcept65536(side, op, data, mask);
    if |data| == 65536 {
      Reads65536AsEmpty(side, op, data, mask, rest);
    } else {
      RfcRoundTrip(side, Frame(true, op, data), mask, rest);
    }
  }
}
