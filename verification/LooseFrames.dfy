/** Which bytes read_message takes for a frame: more than section 5.2 of RFC 6455 allows. */
module LooseFrames {
  import opened Octets
  import opened Masking
  import opened Frames

  datatype Form = Seven | Sixteen | SixtyFour

  /** What the bytes of a frame leave open: the three RSV bits, the form of the length, the key. */
  datatype Dress = Dress(rsv: Byte, form: Form, mask: Bytes)

  predicate Fits(form: Form, n: nat) {
    match form
    case Seven => n < 126
    case Sixteen => n < 65536
    case SixtyFour => n < 0x1_0000_0000_0000_0000
  }

  predicate Wears(f: Frame, d: Dress) { d.rsv < 8 && |d.mask| == 4 && Fits(d.form, |f.payload|) }

  function LengthField(side: Side, n: nat, form: Form): (s: Bytes)
    requires Fits(form, n)
    ensures |s| > 0
  {
    match form
    case Seven => [Flagged(side, Small(n))]
    case Sixteen => [Flagged(side, Small(126))] + BigEndian(n, 2)
    case SixtyFour => [Flagged(side, Small(127))] + BigEndian(n, 8)
  }

  function WithRsv(b: Byte, rsv: Byte): Byte { b | (rsv << 4) }

  function RsvOf(b: Byte): Byte { (b >> 4) & 7 }

  function Dressed(side: Side, f: Frame, d: Dress): Bytes
    requires Wears(f, d)
  {
    [WithRsv(FirstByte(f), d.rsv)] + LengthField(side, |f.payload|, d.form) + MaskField(side, d.mask)
    + Payload(side, f.payload, d.mask)
  }

  /** The shortest form, which is the only one that section 5.2 allows. */
  function Shortest(n: nat): Form { if n < 126 then Seven else if n < 65536 then Sixteen else SixtyFour }

  // ----- bits ------------------------------------------------------------------------------------

  lemma RsvBits(b: Byte, rsv: Byte)
    requires rsv < 8 && b & 0x70 == 0
    ensures (b | (rsv << 4)) & 0x0f == b & 0x0f && (b | (rsv << 4)) & 0x80 == b & 0x80
  {
  }

  lemma PlainBits(b: Byte)
    requires b < 16
    ensures b & 0x70 == 0 && (0x80 | b) & 0x70 == 0
  {
  }

  lemma RsvShows(b: Byte, rsv: Byte)
    requires rsv < 8 && b & 0x70 == 0
    ensures b | (rsv << 4) == b <==> rsv == 0
  {
  }

  lemma FirstBits(b: Byte)
    ensures (b & 0x80 != 0 ==> b == (0x80 | (b & 0x0f)) | (((b >> 4) & 7) << 4))
    ensures (b & 0x80 == 0 ==> b == (b & 0x0f) | (((b >> 4) & 7) << 4))
    ensures (b >> 4) & 7 < 8
  {
  }

  lemma SecondBits(b: Byte)
    ensures (b & 0x80 != 0 ==> b == 0x80 | (b & 0x7f)) && (b & 0x80 == 0 ==> b == b & 0x7f)
  {
  }

  lemma OpcodesAreSmall(op: Byte)
    requires IsOpcode(op)
    ensures op < 16
  {
  }

  lemma FirstByteRead(f: Frame, rsv: Byte)
    requires IsOpcode(f.opcode) && rsv < 8
    ensures var b := WithRsv(FirstByte(f), rsv); Top(b) == f.fin && Low4(b) == f.opcode
  {
    FirstByteReads(f);
    OpcodesAreSmall(f.opcode);
    PlainBits(f.opcode);
    RsvBits(FirstByte(f), rsv);
  }

  lemma FirstByteWritten(f: Frame, b: Byte)
    requires f.fin == Top(b) && f.opcode == Low4(b)
    ensures RsvOf(b) < 8 && b == WithRsv(FirstByte(f), RsvOf(b))
  {
    FirstBits(b);
  }

  lemma SecondByteWritten(side: Side, b: Byte)
    requires Top(b) == side.Client?
    ensures b == Flagged(side, Low7(b))
  {
    SecondBits(b);
  }

  // ----- what is read ----------------------------------------------------------------------------

  lemma LengthFieldReads(side: Side, n: nat, form: Form, first: Byte, rest: Bytes)
    requires Fits(form, n)
    ensures var field := LengthField(side, n, form);
            var s := [first] + field + rest;
            && Top(s[1]) == side.Client? && 2 + Extended(s[1]) == 1 + |field|
            && n == (if Extended(s[1]) == 0 then Val(Low7(s[1])) else FromBigEndian(s[2..2 + Extended(s[1])]))
  {
    hide Low7, Top, WithTop, Small, Flagged, FromBigEndian, BigEndian;
    var s := [first] + LengthField(side, n, form) + rest;
    Powers();
    match form {
      case Seven =>
        FlaggedBits(side, Small(n));
      case Sixteen =>
        FlaggedBits(side, Small(126));
        BigEndianReads(n, 2);
        assert s[2..4] == BigEndian(n, 2);
      case SixtyFour =>
        FlaggedBits(side, Small(127));
        BigEndianReads(n, 8);
        assert s[2..10] == BigEndian(n, 8);
    }
  }

  lemma DressedHeaderReads(side: Side, f: Frame, d: Dress, rest: Bytes)
    requires Wears(f, d) && IsOpcode(f.opcode)
    ensures ReadHeader(side.Peer(), Dressed(side, f, d) + rest)
         == Got(Header(f.fin, f.opcode, side.Client?, |f.payload|, MaskField(side, d.mask),
                       1 + |LengthField(side, |f.payload|, d.form)| + |MaskField(side, d.mask)|))
  {
    hide Low4, Low7, Top, FirstByte, WithRsv, LengthField, Payload, IsOpcode, Extended, FromBigEndian;
    var first, key, body := WithRsv(FirstByte(f), d.rsv), MaskField(side, d.mask), Payload(side, f.payload, d.mask);
    var field := LengthField(side, |f.payload|, d.form);
    var s := Dressed(side, f, d) + rest;
    LengthFieldReads(side, |f.payload|, d.form, first, key + body + rest);
    FirstByteRead(f, d.rsv);
    assert s == [first] + field + (key + body + rest);
    assert s == ([first] + field) + key + (body + rest);
    Middle([first] + field, key, body + rest);
  }

  /** Whatever the RSV bits, the form of the length and the key, and whether or not a control frame
      is final and short: the frame is read. */
  lemma DressedReads(side: Side, f: Frame, d: Dress, rest: Bytes)
    requires Wears(f, d) && IsOpcode(f.opcode) && |f.payload| <= MAXIMUM_LENGTH
    ensures ReadFrame(side.Peer(), Dressed(side, f, d) + rest) == Read(f, |Dressed(side, f, d)|)
  {
    hide WithRsv, FirstByte, LengthField, Payload, IsOpcode, ReadHeader, Unmasked;
    var s := Dressed(side, f, d) + rest;
    DressedHeaderReads(side, f, d, rest);
    PayloadReads(side, f.payload, d.mask);
    var head := [WithRsv(FirstByte(f), d.rsv)] + LengthField(side, |f.payload|, d.form) + MaskField(side, d.mask);
    assert s == head + Payload(side, f.payload, d.mask) + rest;
    assert s[|head|..|head| + |f.payload|] == Payload(side, f.payload, d.mask);
  }

  // ----- and only that ---------------------------------------------------------------------------

  function FormOf(v: nat): Form { if v < 126 then Seven else if v == 126 then Sixteen else SixtyFour }

  /** A length that has been read was written in one of the three forms. */
  lemma LengthFieldWritten(side: Side, s: Bytes, n: nat)
    requires |s| >= 2 && |s| >= 2 + Extended(s[1]) && Top(s[1]) == side.Client?
    requires n == (if Extended(s[1]) == 0 then Val(Low7(s[1])) else FromBigEndian(s[2..2 + Extended(s[1])]))
    ensures var form := FormOf(Val(Low7(s[1])));
            Fits(form, n) && s[1..2 + Extended(s[1])] == LengthField(side, n, form)
  {
    hide Low7, Top, WithTop, Small, Flagged, FromBigEndian, BigEndian;
    var v, k := Low7(s[1]), Extended(s[1]);
    SevenBits(s[1]);
    SecondByteWritten(side, s[1]);
    SameVal(v, Small(Val(v)));
    var more := s[2..2 + k];
    assert s[1..2 + k] == [s[1]] + more;
    Powers();
    BigEndianBound(more);
    BigEndianWrites(more);
  }

  lemma HeaderWritten(side: Side, s: Bytes, h: Header, f: Frame, mask: Bytes)
    requires ReadHeader(side.Peer(), s) == Got(h) && h.masked == side.Client? && |mask| == 4
    requires f.fin == h.fin && f.opcode == h.opcode && |f.payload| == h.length
    requires side.Client? ==> mask == h.mask
    ensures var d := Dress(RsvOf(s[0]), FormOf(Val(Low7(s[1]))), mask);
            && Wears(f, d)
            && s[..h.size] == [WithRsv(FirstByte(f), d.rsv)] + LengthField(side, |f.payload|, d.form)
                              + MaskField(side, mask)
  {
    hide Low4, Low7, Top, FirstByte, WithRsv, RsvOf, LengthField, Extended, FromBigEndian, Fits, FormOf;
    var k := Extended(s[1]);
    FirstByteWritten(f, s[0]);
    LengthFieldWritten(side, s, h.length);
    assert s[..h.size] == [s[0]] + s[1..2 + k] + s[2 + k..h.size];
  }

  /** read_message accepts exactly the frames that are dressed in some way. */
  lemma ReadExactly(side: Side, s: Bytes, f: Frame, size: nat)
    ensures ReadFrame(side.Peer(), s) == Read(f, size)
            <==> && IsOpcode(f.opcode) && |f.payload| <= MAXIMUM_LENGTH
                 && exists d :: Wears(f, d) && size == |Dressed(side, f, d)| <= |s| && s[..size] == Dressed(side, f, d)
  {
    hide Dressed, ReadFrame, IsOpcode, Fits;
    if ReadFrame(side.Peer(), s) == Read(f, size) {
      var d := ReadIsDressed(side, s, f, size);
    }
    if IsOpcode(f.opcode) && |f.payload| <= MAXIMUM_LENGTH {
      forall d | Wears(f, d) && size == |Dressed(side, f, d)| <= |s| && s[..size] == Dressed(side, f, d)
        ensures ReadFrame(side.Peer(), s) == Read(f, size)
      {
        assert s == s[..size] + s[size..];
        DressedReads(side, f, d, s[size..]);
      }
    }
  }

  lemma ReadIsDressed(side: Side, s: Bytes, f: Frame, size: nat) returns (d: Dress)
    requires ReadFrame(side.Peer(), s) == Read(f, size)
    ensures IsOpcode(f.opcode) && |f.payload| <= MAXIMUM_LENGTH
    ensures Wears(f, d) && size == |Dressed(side, f, d)| <= |s| && s[..size] == Dressed(side, f, d)
  {
    hide ReadHeader, FirstByte, WithRsv, RsvOf, LengthField, FormOf, IsOpcode, Low7;
    var h := ReadHeader(side.Peer(), s).header;
    var mask := if side.Client? then h.mask else [0, 0, 0, 0];
    d := Dress(RsvOf(s[0]), FormOf(Val(Low7(s[1]))), mask);
    HeaderWritten(side, s, h, f, mask);
    var body := s[h.size..size];
    BodyWritten(side, body, mask, f.payload);
    assert s[..size] == s[..h.size] + body;
  }

  lemma BodyWritten(side: Side, body: Bytes, mask: Bytes, payload: Bytes)
    requires |mask| == 4 && payload == Unmasked(side.Peer(), body, if side.Client? then mask else [])
    ensures body == Payload(side, payload, mask) && |payload| == |body|
  {
    if side.Client? {
      MaskTwice(body, mask);
    }
  }

  /** Among these, the frame of section 5.2 is the one without RSV bits in the shortest form. */
  lemma RfcExactly(side: Side, f: Frame, d: Dress)
    requires Wears(f, d) && IsOpcode(f.opcode)
    ensures Dressed(side, f, d) == RfcFrame(side, f, d.mask) <==> d.rsv == 0 && d.form == Shortest(|f.payload|)
  {
    hide FirstByte, Small, BigEndian, Flagged, WithRsv, MaskField, Payload;
    PlainFirstByte(f, d.rsv);
    var field, rfc := LengthField(side, |f.payload|, d.form), RfcLength(side, |f.payload|);
    var x, y := Dressed(side, f, d), RfcFrame(side, f, d.mask);
    PayloadReads(side, f.payload, d.mask);
    assert |x| - |field| == |y| - |rfc|;
    assert x[0] == WithRsv(FirstByte(f), d.rsv) && y[0] == FirstByte(f);
    if d.form == Shortest(|f.payload|) {
      assert field == rfc;
    } else {
      assert |field| != |rfc|;
    }
  }

  lemma PlainFirstByte(f: Frame, rsv: Byte)
    requires IsOpcode(f.opcode) && rsv < 8
    ensures WithRsv(FirstByte(f), rsv) == FirstByte(f) <==> rsv == 0
  {
    OpcodesAreSmall(f.opcode);
    PlainBits(f.opcode);
    RsvShows(FirstByte(f), rsv);
  }
}
