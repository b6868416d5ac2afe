/** encode_base64 and is_base64_string of util.cpp. The reference is the decoder of section 4
    of RFC 4648. */
module Base64 {
  import opened Wrappers
  import opened Octets

  predicate IsLetter(c: char) {
    'A' <= c <= 'Z' || 'a' <= c <= 'z' || '0' <= c <= '9' || c == '+' || c == '/'
  }

  // ----- the reference decoder -------------------------------------------------------------

  function ValueOf(c: char): (v: nat)
    requires IsLetter(c)
    ensures v < 64
  {
    if 'A' <= c <= 'Z' then c as int - 'A' as int
    else if 'a' <= c <= 'z' then c as int - 'a' as int + 26
    else if '0' <= c <= '9' then c as int - '0' as int + 52
    else if c == '+' then 62
    else 63
  }

  /** Four characters stand for 24 bits; each '=' at the end of the last four takes one byte
      away and its bits must be zero. Anything else is malformed. */
  function Decode(s: string): Option<Bytes> {
    if s == [] then Some([])
    else if |s| < 4 || !IsLetter(s[0]) || !IsLetter(s[1]) then None
    else
      var p := ValueOf(s[0]) * 0x4_0000 + ValueOf(s[1]) * 0x1000;
      if |s| == 4 && s[2] == '=' && s[3] == '=' then
        if p % 0x1_0000 == 0 then Some([Low(p / 0x1_0000)]) else None
      else if !IsLetter(s[2]) then None
      else
        var q := p + ValueOf(s[2]) * 0x40;
        if |s| == 4 && s[3] == '=' then
          if q % 0x100 == 0 then Some([Low(q / 0x1_0000), Low(q / 0x100)]) else None
        else if !IsLetter(s[3]) then None
        else
          var r := q + ValueOf(s[3]);
          match Decode(s[4..])
          case None => None
          case Some(rest) => Some([Low(r / 0x1_0000), Low(r / 0x100), Low(r)] + rest)
  }

  // ----- the encoder -----------------------------------------------------------------------

  /** The table of encode_base64, which is written as eight rows of eight characters. */
  function Row(r: nat): (s: string)
    requires r < 8
    ensures |s| == 8
  {
    if r == 0 then "ABCDEFGH" else if r == 1 then "IJKLMNOP"
    else if r == 2 then "QRSTUVWX" else if r == 3 then "YZabcdef"
    else if r == 4 then "ghijklmn" else if r == 5 then "opqrstuv"
    else if r == 6 then "wxyz0123" else "456789+/"
  }

  function Table(v: nat): char
    requires v < 64
  {
    Row(v / 8)[v % 8]
  }

  /** table[(p >> bits) & 0x3F], with 2 to the power bits given as scale. */
  function Letter(p: nat, scale: nat): (c: char)
    requires scale > 0
    ensures IsLetter(c) && ValueOf(c) == p / scale % 64
  {
    TableHasValue(p / scale % 64);
    Table(p / scale % 64)
  }

  lemma TableHasValue(v: nat)
    requires v < 64
    ensures IsLetter(Table(v)) && ValueOf(Table(v)) == v
  {
    var r, k := v / 8, v % 8;
    assert v == 8 * r + k;
    assert r == 0 || r == 1 || r == 2 || r == 3 || r == 4 || r == 5 || r == 6 || r == 7;
    assert k == 0 || k == 1 || k == 2 || k == 3 || k == 4 || k == 5 || k == 6 || k == 7;
  }

  function Group3(a: bv8, b: bv8, c: bv8): string {
    var p := Val(a) * 0x1_0000 + Val(b) * 0x100 + Val(c);
    [Letter(p, 0x4_0000), Letter(p, 0x1000), Letter(p, 0x40), Letter(p, 1)]
  }

  function Group2(a: bv8, b: bv8): string {
    var p := Val(a) * 0x1_0000 + Val(b) * 0x100;
    [Letter(p, 0x4_0000), Letter(p, 0x1000), Letter(p, 0x40), '=']
  }

  function Group1(a: bv8): string {
    var p := Val(a) * 0x1_0000;
    [Letter(p, 0x4_0000), Letter(p, 0x1000), '=', '=']
  }

  /** What the loop appends from a position on. */
  function Encoded(data: Bytes): string {
    if |data| >= 3 then Group3(data[0], data[1], data[2]) + Encoded(data[3..])
    else if |data| == 2 then Group2(data[0], data[1])
    else if |data| == 1 then Group1(data[0])
    else ""
  }

  method Encode(data: Bytes) returns (out: string)
    ensures out == Encoded(data)
    ensures Decode(out) == Some(data)
    ensures |out| == (|data| + 2) / 3 * 4
  {
    hide Group3, Group2, Group1, Decode;
    out := "";
    var i := 0;
    while i < |data|
      invariant i <= |data| && Encoded(data) == out + Encoded(data[i..])
    {
      var n := |data| - i;
      if n > 3 {
        n := 3;
      }
      ghost var rest := data[i..];
      assert n == 3 ==> rest[3..] == data[i + 3..];
      if n == 3 {
        out := out + Group3(data[i], data[i + 1], data[i + 2]);
        i := i + 3;
      } else if n == 2 {
        out := out + Group2(data[i], data[i + 1]);
        i := i + 2;
      } else {
        out := out + Group1(data[i]);
        i := i + 1;
      }
    }
    assert data[i..] == [];
    RoundTrip(data);
    EncodedShape(data);
  }

  /** A 24-bit number is its four groups of six bits. */
  lemma Sextets(p: nat)
    requires p < 0x100_0000
    ensures p == p / 0x4_0000 % 64 * 0x4_0000 + p / 0x1000 % 64 * 0x1000 + p / 0x40 % 64 * 0x40 + p / 1 % 64
  {
    var a := p / 0x40;
    var b := a / 0x40;
    assert a == p / 0x40 && b == p / 0x1000 && b / 0x40 == p / 0x4_0000;
  }

  lemma Digits(v0: nat, v1: nat, v2: nat, v3: nat)
    requires v0 < 64 && v1 < 64 && v2 < 64 && v3 < 64
    ensures var p := v0 * 0x4_0000 + v1 * 0x1000 + v2 * 0x40 + v3;
            && p / 0x4_0000 % 64 == v0 && p / 0x1000 % 64 == v1
            && p / 0x40 % 64 == v2 && p / 1 % 64 == v3
  {
    var p := v0 * 0x4_0000 + v1 * 0x1000 + v2 * 0x40 + v3;
    assert p / 0x4_0000 == v0;
    assert p / 0x1000 == v0 * 64 + v1;
    assert p / 0x40 == (v0 * 64 + v1) * 64 + v2;
  }

  lemma ThreeOctets(x: nat, y: nat, z: nat)
    requires x < 256 && y < 256 && z < 256
    ensures var p := x * 0x1_0000 + y * 0x100 + z;
            p < 0x100_0000 && p / 0x1_0000 % 256 == x && p / 0x100 % 256 == y && p % 256 == z
  {
    var p := x * 0x1_0000 + y * 0x100 + z;
    assert p / 0x1_0000 == x;
    assert p / 0x100 == x * 0x100 + y;
  }

  /** Two bytes fill 18 bits, the last two of them zero. */
  lemma TwoOctets(x: nat, y: nat)
    requires x < 256 && y < 256
    ensures var p := x * 0x1_0000 + y * 0x100;
            && p % 0x100 == 0
            && p == p / 0x4_0000 % 64 * 0x4_0000 + p / 0x1000 % 64 * 0x1000 + p / 0x40 % 64 * 0x40
  {
    var h, l, m, k := x / 4, x % 4, y / 16, y % 16;
    assert x == 4 * h + l && y == 16 * m + k;
    Digits(h, 16 * l + m, 4 * k, 0);
  }

  lemma OneOctet(x: nat)
    requires x < 256
    ensures var p := x * 0x1_0000;
            && p % 0x1_0000 == 0
            && p == p / 0x4_0000 % 64 * 0x4_0000 + p / 0x1000 % 64 * 0x1000
  {
    var h, l := x / 4, x % 4;
    assert x == 4 * h + l;
    Digits(h, 16 * l, 0, 0);
  }

  lemma SameByte(n: nat, b: bv8)
    requires n % 256 == Val(b)
    ensures Low(n) == b
  {
    hide Val;
    SameVal(Low(n), b);
  }

  /** What the decoder makes of three bytes packed into 24 bits. */
  lemma Unpacks(a: bv8, b: bv8, c: bv8)
    ensures var p := Val(a) * 0x1_0000 + Val(b) * 0x100 + Val(c);
            && p < 0x100_0000
            && Low(p / 0x1_0000) == a && Low(p / 0x100) == b && Low(p) == c
  {
    hide Val, Low;
    var p := Val(a) * 0x1_0000 + Val(b) * 0x100 + Val(c);
    ThreeOctets(Val(a), Val(b), Val(c));
    SameByte(p / 0x1_0000, a);
    SameByte(p / 0x100, b);
    SameByte(p, c);
  }

  lemma Group3Decodes(a: bv8, b: bv8, c: bv8, rest: string)
    ensures Decode(Group3(a, b, c) + rest)
         == match Decode(rest) case None => None case Some(more) => Some([a, b, c] + more)
  {
    hide Letter, IsLetter, ValueOf, Low, Val, Decode;
    var p := Val(a) * 0x1_0000 + Val(b) * 0x100 + Val(c);
    NotPads();
    Unpacks(a, b, c);
    Sextets(p);
    FourDecode(Letter(p, 0x4_0000), Letter(p, 0x1000), Letter(p, 0x40), Letter(p, 1), p, rest);
  }

  /** Four letters decode to the 24 bits they stand for. */
  lemma FourDecode(w: char, x: char, y: char, z: char, p: nat, rest: string)
    requires IsLetter(w) && IsLetter(x) && IsLetter(y) && IsLetter(z) && z != '='
    requires p == ValueOf(w) * 0x4_0000 + ValueOf(x) * 0x1000 + ValueOf(y) * 0x40 + ValueOf(z)
    ensures Decode([w, x, y, z] + rest)
         == match Decode(rest)
            case None => None
            case Some(more) => Some([Low(p / 0x1_0000), Low(p / 0x100), Low(p)] + more)
  {
    hide IsLetter, ValueOf, Low, Decode;
    var s := [w, x, y, z] + rest;
    assert s[0] == w && s[1] == x && s[2] == y && s[3] == z && s[4..] == rest;
    NotPads();
    DecodeUnfolds(s);
  }

  lemma DecodeUnfolds(s: string)
    requires |s| >= 4 && IsLetter(s[0]) && IsLetter(s[1]) && IsLetter(s[2]) && IsLetter(s[3])
    requires s[2] != '=' && s[3] != '='
    ensures var p := ValueOf(s[0]) * 0x4_0000 + ValueOf(s[1]) * 0x1000;
            var q := p + ValueOf(s[2]) * 0x40;
            var r := q + ValueOf(s[3]);
            Decode(s) == match Decode(s[4..])
                         case None => None
                         case Some(more) => Some([Low(r / 0x1_0000), Low(r / 0x100), Low(r)] + more)
  {
    hide IsLetter, ValueOf, Low;
  }

  lemma NotPads()
    ensures !IsLetter('=')
  {
  }

  lemma Group2Decodes(a: bv8, b: bv8)
    ensures Decode(Group2(a, b)) == Some([a, b])
  {
    hide Letter, IsLetter, ValueOf, Low, Val;
    var p := Val(a) * 0x1_0000 + Val(b) * 0x100;
    NotPads();
    Unpacks(a, b, 0);
    Zero();
    TwoOctets(Val(a), Val(b));
  }

  lemma Zero()
    ensures Val(0) == 0
  {
  }

  lemma Group1Decodes(a: bv8)
    ensures Decode(Group1(a)) == Some([a])
  {
    hide Letter, IsLetter, ValueOf, Low, Val;
    var p := Val(a) * 0x1_0000;
    NotPads();
    Unpacks(a, 0, 0);
    Zero();
    OneOctet(Val(a));
  }

  lemma {:induction false} RoundTrip(data: Bytes)
    ensures Decode(Encoded(data)) == Some(data)
  {
    hide Decode, Group3, Group2, Group1;
    if |data| >= 3 {
      RoundTrip(data[3..]);
      Group3Decodes(data[0], data[1], data[2], Encoded(data[3..]));
      assert data == [data[0], data[1], data[2]] + data[3..];
    } else if |data| == 2 {
      Group2Decodes(data[0], data[1]);
      assert data == [data[0], data[1]];
    } else if |data| == 1 {
      Group1Decodes(data[0]);
      assert data == [data[0]];
    } else {
      EmptyDecodes();
    }
  }

  lemma EmptyDecodes()
    ensures Decode("") == Some([])
  {
  }

  /** Number of '=' that end the encoding of n bytes. */
  function Padding(n: nat): nat { (3 - n % 3) % 3 }

  predicate LettersThenPads(s: string, k: nat) {
    && k <= |s|
    && (forall i :: 0 <= i < |s| - k ==> IsLetter(s[i]))
    && (forall i :: |s| - k <= i < |s| ==> s[i] == '=')
  }

  lemma {:induction false} EncodedShape(data: Bytes)
    ensures |Encoded(data)| == (|data| + 2) / 3 * 4
    ensures LettersThenPads(Encoded(data), Padding(|data|))
  {
    hide Group3, Group2, Group1, LettersThenPads, Padding;
    ThreeMore(|data|);
    if |data| >= 3 {
      EncodedShape(data[3..]);
      GroupShapes(data[0], data[1], data[2]);
      LettersBefore(Group3(data[0], data[1], data[2]), Encoded(data[3..]), Padding(|data|));
    } else if |data| == 2 {
      GroupShapes(data[0], data[1], 0);
    } else if |data| == 1 {
      GroupShapes(data[0], 0, 0);
    } else {
      NothingShape();
    }
  }

  lemma ThreeMore(n: nat)
    ensures n >= 3 ==> Padding(n) == Padding(n - 3) && (n + 2) / 3 * 4 == (n - 3 + 2) / 3 * 4 + 4
    ensures 1 <= n < 3 ==> Padding(n) == 3 - n && (n + 2) / 3 * 4 == 4
    ensures n == 0 ==> Padding(n) == 0 && (n + 2) / 3 * 4 == 0
  {
  }

  lemma GroupShapes(a: bv8, b: bv8, c: bv8)
    ensures |Group3(a, b, c)| == |Group2(a, b)| == |Group1(a)| == 4
    ensures LettersThenPads(Group3(a, b, c), 0)
    ensures LettersThenPads(Group2(a, b), 1) && LettersThenPads(Group1(a), 2)
  {
    hide Letter, IsLetter, ValueOf, Val;
  }

  lemma NothingShape()
    ensures LettersThenPads("", 0)
  {
  }

  lemma LettersBefore(s: string, rest: string, k: nat)
    requires LettersThenPads(rest, k) && LettersThenPads(s, 0)
    ensures LettersThenPads(s + rest, k)
  {
  }

  // ----- is_base64_string ------------------------------------------------------------------

  /** The regular expression: one or more letters, then at most two '='. */
  predicate IsBase64String(s: string) {
    exists k :: 0 <= k <= 2 && k < |s| && LettersThenPads(s, k)
  }

  /** Every encoding of a non-empty byte string is recognised. */
  lemma EncodedIsRecognised(data: Bytes)
    requires data != []
    ensures IsBase64String(Encoded(data))
  {
    EncodedShape(data);
    assert LettersThenPads(Encoded(data), Padding(|data|)) && Padding(|data|) <= 2;
  }

  lemma EncodedIsInjective(a: Bytes, b: Bytes)
    ensures Encoded(a) == Encoded(b) <==> a == b
  {
    hide Encoded, Decode;
    RoundTrip(a);
    RoundTrip(b);
  }

  // ----- the alphabet and the groups, said without the table ----------------------------------------

  lemma TableIs(v: nat)
    requires v < 64
    ensures Table(v) == if v < 26 then 'A' + v as char else if v < 52 then 'a' + (v - 26) as char
                        else if v < 62 then '0' + (v - 52) as char else if v == 62 then '+' else '/'
  {
    TableHasValue(v);
    LetterIs(Table(v));
  }

  lemma LetterIs(c: char)
    requires IsLetter(c)
    ensures var v := ValueOf(c);
            c == if v < 26 then 'A' + v as char else if v < 52 then 'a' + (v - 26) as char
                 else if v < 62 then '0' + (v - 52) as char else if v == 62 then '+' else '/'
  {
  }

  // The four groups of six bits of three bytes, from the most significant on.
  function Six0(x: nat): (v: nat)
    requires x < 256
    ensures v < 64
  {
    x / 4
  }

  function Six1(x: nat, y: nat): (v: nat)
    requires x < 256 && y < 256
    ensures v < 64
  {
    x % 4 * 16 + y / 16
  }

  function Six2(y: nat, z: nat): (v: nat)
    requires y < 256 && z < 256
    ensures v < 64
  {
    y % 16 * 4 + z / 64
  }

  function Six3(z: nat): (v: nat)
    ensures v < 64
  {
    z % 64
  }

  /** Three bytes are four letters for six bits each, two bytes are three letters and one '=', and one
      byte two letters and two. */
  lemma GroupsAre(a: bv8, b: bv8, c: bv8)
    ensures Group3(a, b, c) == [Table(Six0(Val(a))), Table(Six1(Val(a), Val(b))), Table(Six2(Val(b), Val(c))),
                                Table(Six3(Val(c)))]
    ensures Group2(a, b) == [Table(Six0(Val(a))), Table(Six1(Val(a), Val(b))), Table(Six2(Val(b), 0)), '=']
    ensures Group1(a) == [Table(Six0(Val(a))), Table(Six1(Val(a), 0)), '=', '=']
  {
    hide Table, Val, Letter, Six0, Six1, Six2, Six3;
    FourLetters(Val(a), Val(b), Val(c));
    FourLetters(Val(a), Val(b), 0);
    FourLetters(Val(a), 0, 0);
  }

  lemma FourLetters(x: nat, y: nat, z: nat)
    requires x < 256 && y < 256 && z < 256
    ensures var p := x * 0x1_0000 + y * 0x100 + z;
            && Letter(p, 0x4_0000) == Table(Six0(x)) && Letter(p, 0x1000) == Table(Six1(x, y))
            && Letter(p, 0x40) == Table(Six2(y, z)) && Letter(p, 1) == Table(Six3(z))
  {
    hide Table;
    SixBits(x, y, z);
  }

  lemma SixBits(x: nat, y: nat, z: nat)
    requires x < 256 && y < 256 && z < 256
    ensures var p := x * 0x1_0000 + y * 0x100 + z;
            && p / 0x4_0000 % 64 == x / 4 && p / 0x1000 % 64 == x % 4 * 16 + y / 16
            && p / 0x40 % 64 == y % 16 * 4 + z / 64 && p / 1 % 64 == z % 64
  {
    var p := x * 0x1_0000 + y * 0x100 + z;
    var x1, x0, y1, y0, z1, z0 := x / 4, x % 4, y / 16, y % 16, z / 64, z % 64;
    assert x == 4 * x1 + x0 && y == 16 * y1 + y0 && z == 64 * z1 + z0;
    Quotients(p, 0x4_0000, x1, x0 * 0x1_0000 + y * 0x100 + z);
    Quotients(p, 0x1000, 64 * x1 + (x0 * 16 + y1), y0 * 0x100 + z);
    Quotients(p, 0x40, 64 * (64 * x1 + (x0 * 16 + y1)) + (y0 * 4 + z1), z0);
    Quotients(64 * x1 + (x0 * 16 + y1), 64, x1, x0 * 16 + y1);
    Quotients(64 * (64 * x1 + (x0 * 16 + y1)) + (y0 * 4 + z1), 64, 64 * x1 + (x0 * 16 + y1), y0 * 4 + z1);
    Quotients(p, 64, 64 * (64 * x1 + (x0 * 16 + y1)) + (y0 * 4 + z1), z0);
  }

  lemma Quotients(n: nat, d: nat, q: nat, r: nat)
    requires n == d * q + r && r < d
    ensures n / d == q && n % d == r
  {
    if n / d < q {
      Multiply(d, n / d + 1, q);
    } else if n / d > q {
      Multiply(d, q + 1, n / d);
    }
  }

  lemma Multiply(d: nat, a: nat, b: nat)
    requires a <= b
    ensures d * a <= d * b
  {
  }

  predicate InAlphabet(c: char) {
    'A' <= c <= 'Z' || 'a' <= c <= 'z' || '0' <= c <= '9' || c == '+' || c == '/'
  }

  /** One or more letters, and then at most two '='. */
  predicate IsSplit(s: string, letters: string, equals: string) {
    && s == letters + equals && letters != "" && |equals| <= 2
    && (forall i :: 0 <= i < |letters| ==> InAlphabet(letters[i]))
    && (forall i :: 0 <= i < |equals| ==> equals[i] == '=')
  }

  /** Exactly the strings of the regular expression are recognised. */
  lemma RecognisedExactly(s: string)
    ensures IsBase64String(s) <==> exists letters, equals :: IsSplit(s, letters, equals)
  {
    if IsBase64String(s) {
      var k :| 0 <= k <= 2 && k < |s| && LettersThenPads(s, k);
      assert IsSplit(s, s[..|s| - k], s[|s| - k..]);
    }
    forall letters, equals | IsSplit(s, letters, equals)
      ensures IsBase64String(s)
    {
      var k := |equals|;
      forall i | |s| - k <= i < |s|
        ensures s[i] == '='
      {
        assert s[i] == equals[i - |letters|];
      }
      assert forall i :: 0 <= i < |letters| ==> s[i] == letters[i];
      assert LettersThenPads(s, k);
    }
  }
}
