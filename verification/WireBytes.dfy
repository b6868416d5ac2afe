/** The bytes on the wire as RFC 6455 has them, number by number: nothing here is said in terms of the
    constants and the bit operations that the code and its specification share. */
module WireBytes {
  import opened Octets
  import opened Masking
  import opened Frames
  import opened Messages

  // ----- numbers ---------------------------------------------------------------------------------

  lemma TwoBytesAre(s: Bytes)
    requires |s| == 2
    ensures FromBigEndian(s) == 256 * Val(s[0]) + Val(s[1])
  {
    hide Val, FromBigEndian;
    FromBigNothing([]);
    FromBigAppend([], s[0]);
    FromBigAppend([s[0]], s[1]);
    assert [] + [s[0]] == [s[0]] && [s[0]] + [s[1]] == s;
  }

  /** Eight bytes are two numbers of four bytes, and these two numbers of two. */
  lemma {:induction false} PartsAre(s: Bytes, t: Bytes)
    ensures FromBigEndian(s + t) == FromBigEndian(s) * Power256(|t|) + FromBigEndian(t)
    decreases |t|
  {
    hide Val, FromBigEndian;
    if t == [] {
      FromBigNothing(t);
      assert s + t == s;
    } else {
      var front, x := t[..|t| - 1], t[|t| - 1];
      PartsAre(s, front);
      FromBigAppend(s + front, x);
      FromBigAppend(front, x);
      assert s + t == (s + front) + [x] && t == front + [x];
      Spread(FromBigEndian(s), Power256(|front|), FromBigEndian(front), Val(x));
    }
  }

  lemma Spread(a: nat, p: nat, b: nat, v: nat)
    ensures (a * p + b) * 256 + v == a * (256 * p) + (b * 256 + v)
  {
  }

  lemma Limits()
    ensures MAXIMUM_LENGTH == 134217728 && SHORT_MESSAGE == 131072 && BLOCK == 1024
  {
  }

  // ----- bits ------------------------------------------------------------------------------------

  lemma LowBits(b: Byte)
    ensures Low4(b) < 16 && Low7(b) < 128
    ensures Top(b) <==> b >= 128
    ensures b == Low7(b) + if Top(b) then 128 else 0
    ensures WithTop(b) == if b < 128 then b + 128 else b
  {
  }

  lemma Numbers(b: Byte)
    ensures b < 128 ==> Val(b) < 128 && Val(b + 128) == Val(b) + 128
    ensures b >= 128 ==> Val(b) >= 128
  {
  }

  /** The flag bit as a number. */
  lemma TopIs(b: Byte)
    ensures Top(b) <==> Val(b) >= 128
    ensures Val(Low7(b)) == Val(b) - if Top(b) then 128 else 0
  {
    hide Low7, Top, WithTop, Val;
    LowBits(b);
    Numbers(Low7(b));
    Numbers(b);
  }

  lemma WithTopIs(b: Byte)
    requires Val(b) < 128
    ensures Val(WithTop(b)) == 128 + Val(b)
  {
    hide Low7, Top, WithTop, Val;
    LowBits(b);
    Numbers(b);
  }

  lemma Low4Is(b: Byte)
    ensures Val(Low4(b)) == Val(b) % 16
  {
  }

  // ----- what is printed -------------------------------------------------------------------------

  /** The mask bit of section 5.2, as a number. */
  function MaskBit(side: Side): nat { if side.Client? then 128 else 0 }

  function HeaderSize(side: Side, n: nat): nat {
    (if n < 126 then 2 else if n <= 65536 then 4 else 10) + if side.Client? then 4 else 0
  }

  lemma FlaggedIs(side: Side, b: Byte)
    requires Val(b) < 128
    ensures Val(Flagged(side, b)) == MaskBit(side) + Val(b)
  {
    hide WithTop, Val;
    if side.Client? {
      WithTopIs(b);
    }
  }

  /** The length field, number by number; 65536 is printed as 0 in two bytes. */
  lemma LengthBytes(side: Side, n: nat)
    requires n < 0x1_0000_0000_0000_0000
    ensures var s := PrintedLength(side, n);
            && |s| == HeaderSize(side, n) - 1 - |MaskField(side, [0, 0, 0, 0])|
            && (n < 126 ==> Val(s[0]) == MaskBit(side) + n)
            && (126 <= n < 65536 ==> Val(s[0]) == MaskBit(side) + 126 && 256 * Val(s[1]) + Val(s[2]) == n)
            && (n == 65536 ==> Val(s[0]) == MaskBit(side) + 126 && 256 * Val(s[1]) + Val(s[2]) == 0)
            && (n > 65536 ==> Val(s[0]) == MaskBit(side) + 127 && FromBigEndian(s[1..]) == n)
  {
    hide Flagged, Small, BigEndian, FromBigEndian, Val, MaskBit;
    var s := PrintedLength(side, n);
    Powers();
    if n < 126 {
      FlaggedIs(side, Small(n));
    } else if n <= 65536 {
      FlaggedIs(side, Small(126));
      var field := BigEndian(n, 2);
      if n < 65536 {
        BigEndianReads(n, 2);
      } else {
        Zero16();
        BigEndianReads(0, 2);
      }
      TwoBytesAre(field);
    } else {
      FlaggedIs(side, Small(127));
      BigEndianReads(n, 8);
      assert s[1..] == BigEndian(n, 8);
    }
  }

  /** Byte i of a payload on the wire: of a client, the bits that exactly one of payload and key has. */
  function OnTheWire(side: Side, data: Bytes, mask: Bytes, i: nat): Byte
    requires |mask| == 4 && i < |data|
  {
    if side.Client? then (data[i] | mask[i % 4]) - (data[i] & mask[i % 4]) else data[i]
  }

  lemma PayloadBytes(side: Side, data: Bytes, mask: Bytes)
    requires |mask| == 4
    ensures |Payload(side, data, mask)| == |data|
    ensures forall i :: 0 <= i < |data| ==> Payload(side, data, mask)[i] == OnTheWire(side, data, mask, i)
  {
    hide Masked;
    if side.Client? {
      forall i | 0 <= i < |data|
        ensures Masked(data, mask)[i] == OnTheWire(side, data, mask, i)
      {
        MaskedIs(data, mask, i);
      }
    }
  }

  /** A frame of the code: FIN and the opcode, the length, the key of a client, and the payload. */
  lemma PrintedBytes(side: Side, op: Byte, data: Bytes, mask: Bytes)
    requires Val(op) < 128 && |mask| == 4 && |data| < 0x1_0000_0000_0000_0000
    ensures var p, h := PrintedFrame(side, op, data, mask), HeaderSize(side, |data|);
            && |p| == h + |data| && Val(p[0]) == 128 + Val(op)
            && p[1..h] == PrintedLength(side, |data|) + MaskField(side, mask)
            && (side.Client? ==> p[h - 4..h] == mask)
            && forall i :: 0 <= i < |data| ==> p[h..][i] == OnTheWire(side, data, mask, i)
  {
    hide PrintedLength, WithTop, Val, Payload, MaskBit, OnTheWire;
    var p, h := PrintedFrame(side, op, data, mask), HeaderSize(side, |data|);
    var field, key, body := PrintedLength(side, |data|), MaskField(side, mask), Payload(side, data, mask);
    LengthBytes(side, |data|);
    WithTopIs(op);
    PayloadBytes(side, data, mask);
    assert p == [WithTop(op)] + field + key + body && |[WithTop(op)] + field + key| == h;
    assert p[1..h] == field + key && p[h..] == body;
    if side.Client? {
      assert p[h - 4..h] == mask;
    }
  }

  lemma FirstBytes()
    ensures TypeOpcode(true) == 1 && TypeOpcode(false) == 2 && PONG == 10 && CLOSE == 8
    ensures WithTop(TypeOpcode(true)) == 0x81 && WithTop(TypeOpcode(false)) == 0x82
    ensures WithTop(PONG) == 0x8A && WithTop(CLOSE) == 0x88
  {
  }

  /** The examples of section 5.7 of RFC 6455, byte by byte. */
  lemma HelloIsPrinted()
    ensures var hello := [0x48, 0x65, 0x6C, 0x6C, 0x6F];
            && PrintedFrame(Server, TypeOpcode(true), hello, [0, 0, 0, 0]) == [0x81, 0x05] + hello
            && PrintedFrame(Client, TypeOpcode(true), hello, [0x37, 0xFA, 0x21, 0x3D])
               == [0x81, 0x85, 0x37, 0xFA, 0x21, 0x3D, 0x7F, 0x9F, 0x4D, 0x51, 0x58]
  {
    hide WithTop, Small, Masked;
    var hello, key := [0x48, 0x65, 0x6C, 0x6C, 0x6F], [0x37, 0xFA, 0x21, 0x3D];
    FirstBytes();
    FiveIs();
    var masked := Masked(hello, key);
    HelloMasked(hello, key);
  }

  lemma FiveIs()
    ensures Small(5) == 5 && WithTop(5) == 0x85
  {
    SameVal(Small(5), 5);
  }

  lemma HelloMasked(hello: Bytes, key: Bytes)
    requires hello == [0x48, 0x65, 0x6C, 0x6C, 0x6F] && key == [0x37, 0xFA, 0x21, 0x3D]
    ensures Masked(hello, key) == [0x7F, 0x9F, 0x4D, 0x51, 0x58]
  {
    var m := Masked(hello, key);
    assert m[0] == 0x7F && m[1] == 0x9F && m[2] == 0x4D && m[3] == 0x51 && m[4] == 0x58;
  }

  // ----- what is read, and what is refused -------------------------------------------------------

  /** The size of the header, for the numbers in its second byte. */
  function Needed(side: Side, second: Byte): nat {
    var v := Val(second) % 128;
    (if v < 126 then 2 else if v == 126 then 4 else 10) + if side.Server? then 4 else 0
  }

  function Announced(s: Bytes): nat
    requires |s| >= 2 && |s| >= Needed(Client, s[1])
  {
    var v := Val(s[1]) % 128;
    if v < 126 then v else if v == 126 then 256 * Val(s[2]) + Val(s[3]) else FromBigEndian(s[2..10])
  }

  predicate Known(op: nat) { op == 0 || op == 1 || op == 2 || op == 8 || op == 9 || op == 10 }

  lemma OpcodeNumbers(b: Byte)
    ensures IsOpcode(Low4(b)) <==> Known(Val(b) % 16)
  {
    Low4Is(b);
    KnownOpcodes(Low4(b));
  }

  lemma KnownOpcodes(b: Byte)
    ensures IsOpcode(b) <==> Known(Val(b))
  {
    Named(b, 0);
    Named(b, 1);
    Named(b, 2);
    Named(b, 8);
    Named(b, 9);
    Named(b, 10);
  }

  lemma Named(b: Byte, c: Byte)
    ensures b == c <==> Val(b) == Val(c)
    ensures c == 0 ==> Val(c) == 0
    ensures c == 1 ==> Val(c) == 1
    ensures c == 2 ==> Val(c) == 2
    ensures c == 8 ==> Val(c) == 8
    ensures c == 9 ==> Val(c) == 9
    ensures c == 10 ==> Val(c) == 10
  {
    if Val(b) == Val(c) {
      SameVal(b, c);
    }
  }

  /** Section 5.5: control frames are those whose opcode has its highest bit set. */
  lemma KindsAre(op: Byte)
    requires IsOpcode(op)
    ensures IsControl(op) <==> Val(op) >= 8
    ensures IsData(op) <==> Val(op) <= 2
  {
    hide Val;
    KnownOpcodes(op);
    Named(op, 0);
    Named(op, 1);
    Named(op, 2);
    Named(op, 8);
    Named(op, 9);
    Named(op, 10);
  }

  /** The header of any bytes that are long enough for one, number by number. */
  lemma HeaderNumbers(side: Side, s: Bytes)
    requires |s| >= 2
    ensures var r := ReadHeader(side, s);
            if |s| < Needed(side, s[1]) then r.Short?
            else
              && r.Got? && r.header.size == Needed(side, s[1]) && r.header.length == Announced(s)
              && (r.header.fin <==> Val(s[0]) >= 128) && r.header.opcode == Low4(s[0])
              && (r.header.masked <==> Val(s[1]) >= 128)
              && (side.Server? ==> r.header.mask == s[Needed(side, s[1]) - 4..Needed(side, s[1])])
  {
    hide Top, Low4, Low7, Val, FromBigEndian;
    TopIs(s[0]);
    TopIs(s[1]);
    SevenBits(s[1]);
    Seven(s[1]);
    if |s| >= 4 {
      TwoBytesAre(s[2..4]);
    }
  }

  lemma Seven(b: Byte)
    ensures Val(Low7(b)) == Val(b) % 128
  {
    hide Top, Low7, Val;
    TopIs(b);
    SevenBits(b);
  }

  /** For all bytes: an input that ends too early is an internal error (1011); a wrong mask bit or an
      unknown opcode is a protocol error (1002), before the length is looked at; a length over
      134217728 is too big (1009); and everything else is read, with FIN, opcode and length as the
      numbers in the first bytes say. */
  lemma ReadsExactly(side: Side, s: Bytes)
    ensures var r := ReadFrame(side, s);
            if |s| < 2 || |s| < Needed(side, s[1]) then r == Fault(1011)
            else if (Val(s[1]) >= 128) != side.Server? || !Known(Val(s[0]) % 16) then r == Fault(1002)
            else if Announced(s) > 134217728 then r == Fault(1009)
            else if |s| < Needed(side, s[1]) + Announced(s) then r == Fault(1011)
            else
              && r.Read? && r.size == Needed(side, s[1]) + Announced(s) && |r.frame.payload| == Announced(s)
              && (r.frame.fin <==> Val(s[0]) >= 128) && Val(r.frame.opcode) == Val(s[0]) % 16
  {
    hide Top, Low4, Low7, Val, FromBigEndian, ReadHeader, IsOpcode, Known, Needed, Announced;
    if |s| >= 2 {
      HeaderNumbers(side, s);
      OpcodeNumbers(s[0]);
      Low4Is(s[0]);
    } else {
      TooShort(side, s);
    }
  }

  lemma TooShort(side: Side, s: Bytes)
    requires |s| < 2
    ensures ReadHeader(side, s).Short?
  {
  }

  // ----- messages and replies --------------------------------------------------------------------

  /** When a data frame is refused and with which code, and what it leaves otherwise. */
  lemma AcceptsExactly(a: Assembly, f: Frame)
    requires IsData(f.opcode)
    ensures var begins := Val(f.opcode) != 0;
            var whole := (if begins then [] else a.message) + f.payload;
            Accept(a, f)
            == if begins == a.isContinuation then Rejected(1002)
               else if |whole| > 134217728 then Rejected(1009)
               else
                 Accepted(Assembly(whole, Val(f.opcode) == 1 || (Val(f.opcode) != 2 && a.isText), !f.fin))
  {
    hide Val;
    Named(f.opcode, 0);
    Named(f.opcode, 1);
    Named(f.opcode, 2);
    assert [] + f.payload == f.payload;
  }

  /** What one frame of each kind does, by the number of its opcode. */
  lemma ProcessesExactly(a: Assembly, f: Frame, size: nat)
    requires IsOpcode(f.opcode)
    ensures var e, op := Process(a, f, size), Val(f.opcode);
            if op == 8 then e.Closes? && e.size == size
            else if op == 9 then e == Moves(a, [Reply(10, f.payload)], false, size)
            else if op == 10 then e == Moves(a, [], false, size)
            else
              match Accept(a, f)
              case Rejected(code) => e == Breaks(code)
              case Accepted(b) => e == Moves(b, [], f.fin, size)
  {
    hide Val, Accept;
    Named(f.opcode, 8);
    Named(f.opcode, 9);
    Named(f.opcode, 10);
  }

  /** The payload of the answer to a close frame: its two bytes, or those of 1005. */
  lemma AnswerBytes(payload: Bytes)
    ensures BigEndian(CloseReason(payload), 2) == if |payload| == 2 then payload else [0x03, 0xED]
  {
    hide BigEndian, FromBigEndian;
    if |payload| == 2 {
      BigEndianWrites(payload);
    } else {
      CodeNumbers();
      CodeBytes(1005, 3, 0xED);
    }
  }

  lemma CodeBytes(code: nat, x: Byte, y: Byte)
    requires code == 256 * Val(x) + Val(y)
    ensures BigEndian(code, 2) == [x, y]
  {
    hide Val, BigEndian, FromBigEndian;
    TwoBytesAre([x, y]);
    BigEndianWrites([x, y]);
  }

  lemma CodeNumbers()
    ensures Val(3) == 3 && Val(0xE8) == 232 && Val(0xE9) == 233 && Val(0xEA) == 234
    ensures Val(0xED) == 237 && Val(0xF1) == 241 && Val(0xF3) == 243
  {
  }

  /** The close codes of the code, as they stand in its close frames. */
  lemma CloseBytes()
    ensures BigEndian(CLOSE_NORMAL, 2) == [0x03, 0xE8] && BigEndian(GOING_AWAY, 2) == [0x03, 0xE9]
    ensures BigEndian(PROTOCOL_ERROR, 2) == [0x03, 0xEA] && BigEndian(MISSING_CODE, 2) == [0x03, 0xED]
    ensures BigEndian(TOO_BIG, 2) == [0x03, 0xF1] && BigEndian(INTERNAL_ERROR, 2) == [0x03, 0xF3]
  {
    hide Val, BigEndian;
    CodeNumbers();
    CodeBytes(1000, 3, 0xE8);
    CodeBytes(1001, 3, 0xE9);
    CodeBytes(1002, 3, 0xEA);
    CodeBytes(1005, 3, 0xED);
    CodeBytes(1009, 3, 0xF1);
    CodeBytes(1011, 3, 0xF3);
  }

  /** A close frame with 1000, of a server and of a client. */
  lemma CloseIsPrinted(mask: Bytes)
    requires |mask| == 4
    ensures PrintedFrame(Server, CLOSE, BigEndian(1000, 2), mask) == [0x88, 0x02, 0x03, 0xE8]
    ensures var p := PrintedFrame(Client, CLOSE, BigEndian(1000, 2), mask);
            |p| == 8 && p[..6] == [0x88, 0x82] + mask && p[6..] == Masked([0x03, 0xE8], mask)
  {
    hide WithTop, Small, Masked, BigEndian;
    FirstBytes();
    TwoIs();
    CloseBytes();
  }

  lemma TwoIs()
    ensures Small(2) == 2 && WithTop(2) == 0x82
  {
    SameVal(Small(2), 2);
  }
}
