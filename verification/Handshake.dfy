/** The opening handshake: what each side prints, and that the other side understands it. */
module Handshake {
  import opened Wrappers
  import opened Octets
  import opened HttpSyntax
  import opened HttpHeaders
  import opened FirstLines
  import opened HttpMessages
  import opened HttpParsers
  import B = Base64
  import H = Sha1Standard
  import C = Sha1Context
  import T = Transport
  import opened Closing

  // ----- strings as bytes ------------------------------------------------------------------------

  function ToBytes(s: string): (bs: Bytes)
    ensures |bs| == |s|
  {
    seq(|s|, i requires 0 <= i < |s| => Low(s[i] as int))
  }

  lemma TextOfBytes(s: string, rest: Bytes)
    requires IsLatin(s)
    ensures Text(ToBytes(s) + rest) == s + Text(rest)
  {
    hide Val, Low;
    forall i | 0 <= i < |s|
      ensures CharOf(ToBytes(s)[i]) == s[i]
    {
    }
  }

  // ----- the key and the accept string -----------------------------------------------------------

  const GUID := "258EAFA5-E914-47DA-95CA-C5AB0DC85B11"

  /** base64 of the SHA-1 of the key and the GUID (section 4.2.2 of RFC 6455). */
  function AcceptOf(key: string): string {
    var data := ToBytes(key + GUID);
    B.Encoded(H.Digest(data[..C.Wrap(|data|)]))
  }

  method MakeAcceptString(key: string) returns (accept: string)
    ensures accept == AcceptOf(key)
  {
    hide H.Digest, B.Encoded, C.Wrap;
    var digest := new bv8[21](_ => 0);
    C.HashString(ToBytes(key + GUID), digest);
    accept := B.Encode(digest[..20]);
  }

  /** For every key up to nearly 4 GB, those of 24 characters that RFC 6455 knows among them, this is
      the digest of the whole of key and GUID. */
  lemma AcceptIsWhole(key: string)
    requires |key| < 0xFFFF_FFDC
    ensures var data := ToBytes(key + "258EAFA5-E914-47DA-95CA-C5AB0DC85B11");
            8 * |data| < H.COUNT_LIMIT && AcceptOf(key) == B.Encoded(H.Digest(data))
  {
    hide H.Digest, B.Encoded;
    var data := ToBytes(key + GUID);
    C.WrapSmall(|data|);
    assert data[..|data|] == data;
  }

  lemma AcceptIsValue(key: string)
    ensures IsValue(AcceptOf(key)) && IsLatin(AcceptOf(key))
  {
    hide H.Digest, B.Encoded;
    var data := ToBytes(key + GUID);
    EncodedIsValue(H.Digest(data[..C.Wrap(|data|)]));
  }

  lemma EncodedIsValue(data: Bytes)
    requires 1 <= |data| <= 100
    ensures IsValue(B.Encoded(data)) && IsLatin(B.Encoded(data))
  {
    hide B.Encoded;
    var s := B.Encoded(data);
    B.EncodedShape(data);
    forall i | 0 <= i < |s|
      ensures s[i] != ' ' && s[i] != '\r' && s[i] < 256 as char
    {
      assert B.IsLetter(s[i]) || s[i] == '=';
    }
  }

  lemma KeyIsKey(nonce: Bytes)
    requires |nonce| == 16
    ensures IsWebSocketKey(B.Encoded(nonce))
  {
    hide B.Encoded;
    B.EncodedShape(nonce);
    B.EncodedIsRecognised(nonce);
  }

  // ----- what is printed ---------------------------------------------------------------------------

  function PrintedLine(name: string, value: string): string { name + ": " + value + "\r\n" }

  /** make_http_request. */
  function RequestText(host: string, key: string): string {
    "GET / HTTP/1.1\r\n"
    + PrintedLine("Host", host)
    + PrintedLine("Connection", "Upgrade")
    + PrintedLine("Upgrade", "websocket")
    + PrintedLine("Sec-WebSocket-Version", "13")
    + PrintedLine("Sec-WebSocket-Key", key)
    + "\r\n"
  }

  /** make_http_response. */
  function ResponseText(accept: string): string {
    "HTTP/1.1 101 Switching Protocols\r\n"
    + PrintedLine("Upgrade", "websocket")
    + PrintedLine("Connection", "Upgrade")
    + PrintedLine("Sec-WebSocket-Accept", accept)
    + "\r\n"
  }

  function RequestLines(host: string, key: string): seq<Line> {
    [Line("Host", 1, host), Line("Connection", 1, "Upgrade"), Line("Upgrade", 1, "websocket"),
     Line("Sec-WebSocket-Version", 1, "13"), Line("Sec-WebSocket-Key", 1, key)]
  }

  function ResponseLines(accept: string): seq<Line> {
    [Line("Upgrade", 1, "websocket"), Line("Connection", 1, "Upgrade"), Line("Sec-WebSocket-Accept", 1, accept)]
  }

  lemma PrintedIsRendered(name: string, value: string)
    ensures PrintedLine(name, value) == Render(Line(name, 1, value))
  {
    assert Spaces(1) == " ";
    assert name + ":" + " " + value + "\r\n" == name + ": " + value + "\r\n";
  }

  lemma RequestTextIs(host: string, key: string)
    ensures RequestText(host, key) == "GET / HTTP/1.1\r\n" + RenderAll(RequestLines(host, key))
  {
    hide PrintedLine, Render;
    var fs := RequestLines(host, key);
    PrintedIsRendered("Host", host);
    PrintedIsRendered("Connection", "Upgrade");
    PrintedIsRendered("Upgrade", "websocket");
    PrintedIsRendered("Sec-WebSocket-Version", "13");
    PrintedIsRendered("Sec-WebSocket-Key", key);
    assert RenderAll(fs[5..]) == "\r\n";
    assert RenderAll(fs[4..]) == Render(fs[4]) + RenderAll(fs[5..]) by { assert fs[4..][1..] == fs[5..]; }
    assert RenderAll(fs[3..]) == Render(fs[3]) + RenderAll(fs[4..]) by { assert fs[3..][1..] == fs[4..]; }
    assert RenderAll(fs[2..]) == Render(fs[2]) + RenderAll(fs[3..]) by { assert fs[2..][1..] == fs[3..]; }
    assert RenderAll(fs[1..]) == Render(fs[1]) + RenderAll(fs[2..]) by { assert fs[1..][1..] == fs[2..]; }
    assert RenderAll(fs) == Render(fs[0]) + RenderAll(fs[1..]);
  }

  lemma ResponseTextIs(accept: string)
    ensures ResponseText(accept) == "HTTP/1.1 101 Switching Protocols\r\n" + RenderAll(ResponseLines(accept))
  {
    hide PrintedLine, Render;
    var fs := ResponseLines(accept);
    PrintedIsRendered("Upgrade", "websocket");
    PrintedIsRendered("Connection", "Upgrade");
    PrintedIsRendered("Sec-WebSocket-Accept", accept);
    assert RenderAll(fs[3..]) == "\r\n";
    assert RenderAll(fs[2..]) == Render(fs[2]) + RenderAll(fs[3..]) by { assert fs[2..][1..] == fs[3..]; }
    assert RenderAll(fs[1..]) == Render(fs[1]) + RenderAll(fs[2..]) by { assert fs[1..][1..] == fs[2..]; }
    assert RenderAll(fs) == Render(fs[0]) + RenderAll(fs[1..]);
  }

  // ----- the first lines ---------------------------------------------------------------------------

  lemma RequestLineIs(rest: string)
    ensures "GET / HTTP/1.1\r\n" + rest == RequestLine(0, "/", 0, rest)
  {
    hide *;
    RequestLineLiteral();
    Regrouped("GET", "/", "HTTP/1.1", "\r\n", rest);
    RequestLineParts(rest);
  }

  lemma RequestLineLiteral()
    ensures "GET / HTTP/1.1\r\n" == "GET" + [' '] + "" + "/" + [' '] + "" + "HTTP/1.1" + "\r\n"
  {
  }

  lemma RequestLineParts(rest: string)
    ensures RequestLine(0, "/", 0, rest)
         == "GET" + ([' '] + ("" + ("/" + ([' '] + ("" + ("HTTP/1.1" + ("\r\n" + rest)))))))
  {
    assert Spaces(0) == "";
  }

  lemma StatusLineIs(rest: string)
    ensures "HTTP/1.1 101 Switching Protocols\r\n" + rest == StatusLine(0, "101", 0, "Switching Protocols", rest)
  {
    hide *;
    StatusLineLiteral();
    Regrouped("HTTP/1.1", "101", "Switching Protocols", "\r\n", rest);
    StatusLineParts(rest);
  }

  lemma StatusLineLiteral()
    ensures "HTTP/1.1 101 Switching Protocols\r\n"
         == "HTTP/1.1" + [' '] + "" + "101" + [' '] + "" + "Switching Protocols" + "\r\n"
  {
  }

  lemma StatusLineParts(rest: string)
    ensures StatusLine(0, "101", 0, "Switching Protocols", rest)
         == "HTTP/1.1" + ([' '] + ("" + ("101" + ([' '] + ("" + ("Switching Protocols" + ("\r\n" + rest)))))))
  {
    assert Spaces(0) == "";
  }

  lemma Regrouped(a: string, b: string, c: string, d: string, rest: string)
    ensures a + [' '] + "" + b + [' '] + "" + c + d + rest
         == a + ([' '] + ("" + (b + ([' '] + ("" + (c + (d + rest)))))))
  {
    var t := c + (d + rest);
    assert a + [' '] + "" + b + [' '] + "" + c + d + rest == (a + [' '] + b) + ([' '] + t);
    assert (a + [' '] + b) + ([' '] + t) == (a + [' ']) + (b + ([' '] + t));
  }

  lemma ScanRequestLine(rest: string)
    ensures Scan(Requests, Start(Requests), NOTHING, "GET / HTTP/1.1\r\n" + rest)
         == Scan(Requests, Parser(HeaderStart, "HTTP/1.1", ""), NOTHING.(verb := GetMethod, uri := "/"), rest)
  {
    hide Scan, RequestLine;
    RequestLineIs(rest);
    RequestLineOn(0, "/", 0, rest);
  }

  lemma ScanStatusLine(rest: string)
    ensures Scan(Responses, Start(Responses), NOTHING, "HTTP/1.1 101 Switching Protocols\r\n" + rest)
         == Scan(Responses, Parser(HeaderStart, "Switching Protocols", ""), NOTHING.(code := 101), rest)
  {
    hide Scan, StatusLine;
    StatusLineIs(rest);
    assert IsStatus("101") && StatusOf("101") == 101;
    SwitchingIsReason();
    StatusLineOn(0, "101", 0, "Switching Protocols", rest);
  }

  lemma SwitchingIsReason()
    ensures IsReason("Switching Protocols")
  {
  }

  // ----- the two sides understand each other -------------------------------------------------------

  predicate IsPlain(c: char) { 'A' <= c <= 'Z' || 'a' <= c <= 'z' || c == '-' }

  lemma PlainIsToken(c: char)
    requires IsPlain(c)
    ensures IsToken(c)
  {
    if IsSeparator(c) {
      SeparatorsAreNotPlain(c);
    }
  }

  lemma SeparatorsAreNotPlain(c: char)
    requires IsSeparator(c)
    ensures !IsPlain(c)
  {
  }

  lemma PlainIsName(s: string)
    requires 1 <= |s| <= 128 && forall i :: 0 <= i < |s| ==> IsPlain(s[i])
    ensures IsName(s)
  {
    hide IsToken, IsPlain;
    forall i | 0 <= i < |s|
      ensures IsToken(s[i])
    {
      PlainIsToken(s[i]);
    }
  }

  lemma NamesAreNames()
    ensures IsName("Host") && IsName("Connection") && IsName("Upgrade")
    ensures IsName("Sec-WebSocket-Version") && IsName("Sec-WebSocket-Key") && IsName("Sec-WebSocket-Accept")
  {
    hide IsName, IsToken;
    PlainIsName("Host");
    PlainIsName("Connection");
    PlainIsName("Upgrade");
    PlainIsName("Sec-WebSocket-Version");
    PlainIsName("Sec-WebSocket-Key");
    PlainIsName("Sec-WebSocket-Accept");
  }

  lemma ValuesAreValues()
    ensures IsValue("Upgrade") && IsValue("websocket") && IsValue("13")
  {
  }

  /** For every nonce and every host that can stand in a header, the server understands what
      the client prints, finds the key in it, and accepts it; what follows is left alone. */
  lemma RequestIsUnderstood(host: string, nonce: Bytes, rest: string) returns (found: Report)
    requires IsValue(host) && |nonce| == 16
    ensures Scan(Requests, Start(Requests), NOTHING, RequestText(host, B.Encoded(nonce)) + rest) == Done(found, rest)
    ensures IsUpgradeRequest(found) && Lookup(found.headers, "Sec-WebSocket-Key") == Some(B.Encoded(nonce))
    ensures found.uri == "/" && Lookup(found.headers, "Host") == Some(host)
  {
    hide Scan, RenderAll, IsLine, B.Encoded, IsWebSocketKey, IsValue, IsName, RequestText;
    var key := B.Encoded(nonce);
    var fs := RequestLines(host, key);
    var r := NOTHING.(verb := GetMethod, uri := "/");
    RequestTextIs(host, key);
    assert RequestText(host, key) + rest == "GET / HTTP/1.1\r\n" + (RenderAll(fs) + rest);
    ScanRequestLine(RenderAll(fs) + rest);
    RequestLinesAreLines(host, nonce);
    PrintedIsParsed(Requests, Parser(HeaderStart, "HTTP/1.1", ""), r, fs, rest);
    found := AddHeaders(r, fs);
    KeyIsKey(nonce);
    RequestPasses(host, key, r);
  }

  lemma RequestLinesAreLines(host: string, nonce: Bytes)
    requires IsValue(host) && |nonce| == 16
    ensures AreLines(RequestLines(host, B.Encoded(nonce)))
  {
    hide B.Encoded, IsName, IsValue;
    NamesAreNames();
    ValuesAreValues();
    EncodedIsValue(nonce);
  }

  lemma RequestPasses(host: string, key: string, r: Report)
    requires r == NOTHING.(verb := GetMethod, uri := "/") && IsWebSocketKey(key)
    ensures var found := AddHeaders(r, RequestLines(host, key));
            && IsUpgradeRequest(found) && Lookup(found.headers, "Sec-WebSocket-Key") == Some(key)
            && found.uri == "/" && Lookup(found.headers, "Host") == Some(host)
  {
    hide IsWebSocketKey, OccursIn, Lookup;
    var hs := AddHeaders(r, RequestLines(host, key)).headers;
    assert hs == [HeaderField("Host", host), HeaderField("Connection", "Upgrade"), HeaderField("Upgrade", "websocket"),
                  HeaderField("Sec-WebSocket-Version", "13"), HeaderField("Sec-WebSocket-Key", key)];
    LookupIsFirst(hs, "Host", 0);
    LookupIsFirst(hs, "Sec-WebSocket-Key", 4);
    LookupIsFirst(hs, "Sec-WebSocket-Version", 3);
    LookupIsFirst(hs, "Connection", 1);
    LookupIsFirst(hs, "Upgrade", 2);
    WholeWordOccurs("Upgrade");
  }

  lemma WholeWordOccurs(w: string)
    ensures OccursIn(w, w)
  {
    assert w[0..0 + |w|] == w;
    assert Occurs(w, w, 0);
  }

  /** The client understands the answer that is made for its key, and no other: it accepts
      exactly the accept string it has computed itself. */
  lemma ResponseIsUnderstood(accept: string, rest: string) returns (found: Report)
    requires IsValue(accept)
    ensures Scan(Responses, Start(Responses), NOTHING, ResponseText(accept) + rest) == Done(found, rest)
    ensures forall expected :: IsUpgradeResponse(found, expected) <==> expected == accept
  {
    hide Scan, RenderAll, IsLine, IsValue, IsName, ResponseText;
    var fs := ResponseLines(accept);
    var r := NOTHING.(code := 101);
    ResponseTextIs(accept);
    assert ResponseText(accept) + rest == "HTTP/1.1 101 Switching Protocols\r\n" + (RenderAll(fs) + rest);
    ScanStatusLine(RenderAll(fs) + rest);
    ResponseLinesAreLines(accept);
    PrintedIsParsed(Responses, Parser(HeaderStart, "Switching Protocols", ""), r, fs, rest);
    found := AddHeaders(r, fs);
    ResponsePasses(accept, r);
  }

  lemma ResponseLinesAreLines(accept: string)
    requires IsValue(accept)
    ensures AreLines(ResponseLines(accept))
  {
    hide IsName, IsValue;
    NamesAreNames();
    ValuesAreValues();
  }

  lemma ResponsePasses(accept: string, r: Report)
    requires r == NOTHING.(code := 101)
    ensures forall expected :: IsUpgradeResponse(AddHeaders(r, ResponseLines(accept)), expected) <==> expected == accept
  {
    hide Lookup;
    var hs := AddHeaders(r, ResponseLines(accept)).headers;
    assert hs == [HeaderField("Upgrade", "websocket"), HeaderField("Connection", "Upgrade"),
                  HeaderField("Sec-WebSocket-Accept", accept)];
    LookupIsFirst(hs, "Sec-WebSocket-Accept", 2);
    LookupIsFirst(hs, "Connection", 1);
    LookupIsFirst(hs, "Upgrade", 0);
  }

  lemma LatinParts(a: string, b: string)
    requires IsLatin(a) && IsLatin(b)
    ensures IsLatin(a + b)
  {
  }

  lemma LatinLine(before: string, name: string, value: string)
    requires IsLatin(before) && IsLatin(name) && IsLatin(value)
    ensures IsLatin(before + PrintedLine(name, value))
  {
    hide IsLatin;
    LatinParts(name, ": ") by { assert IsLatin(": ") by { LatinLiterals(); } }
    LatinParts(name + ": ", value);
    LatinParts(name + ": " + value, "\r\n") by { assert IsLatin("\r\n") by { LatinLiterals(); } }
    LatinParts(before, PrintedLine(name, value));
  }

  lemma LatinLiterals()
    ensures IsLatin(": ") && IsLatin("\r\n") && IsLatin("Upgrade") && IsLatin("websocket") && IsLatin("13")
  {
  }

  lemma LatinFirstLines()
    ensures IsLatin("GET / HTTP/1.1\r\n") && IsLatin("HTTP/1.1 101 Switching Protocols\r\n")
  {
  }

  lemma LatinNames()
    ensures IsLatin("Host") && IsLatin("Connection") && IsLatin("Sec-WebSocket-Version")
    ensures IsLatin("Sec-WebSocket-Key") && IsLatin("Sec-WebSocket-Accept")
  {
  }

  lemma RequestIsLatin(host: string, key: string)
    requires IsLatin(host) && IsLatin(key)
    ensures IsLatin(RequestText(host, key))
  {
    hide IsLatin, PrintedLine;
    LatinLiterals();
    LatinFirstLines();
    LatinNames();
    var t0 := "GET / HTTP/1.1\r\n";
    LatinLine(t0, "Host", host);
    var t1 := t0 + PrintedLine("Host", host);
    LatinLine(t1, "Connection", "Upgrade");
    var t2 := t1 + PrintedLine("Connection", "Upgrade");
    LatinLine(t2, "Upgrade", "websocket");
    var t3 := t2 + PrintedLine("Upgrade", "websocket");
    LatinLine(t3, "Sec-WebSocket-Version", "13");
    var t4 := t3 + PrintedLine("Sec-WebSocket-Version", "13");
    LatinLine(t4, "Sec-WebSocket-Key", key);
    LatinParts(t4 + PrintedLine("Sec-WebSocket-Key", key), "\r\n");
  }

  lemma ResponseIsLatin(accept: string)
    requires IsLatin(accept)
    ensures IsLatin(ResponseText(accept))
  {
    hide IsLatin, PrintedLine;
    LatinLiterals();
    LatinFirstLines();
    LatinNames();
    var t0 := "HTTP/1.1 101 Switching Protocols\r\n";
    LatinLine(t0, "Upgrade", "websocket");
    var t1 := t0 + PrintedLine("Upgrade", "websocket");
    LatinLine(t1, "Connection", "Upgrade");
    var t2 := t1 + PrintedLine("Connection", "Upgrade");
    LatinLine(t2, "Sec-WebSocket-Accept", accept);
    LatinParts(t2 + PrintedLine("Sec-WebSocket-Accept", accept), "\r\n");
  }

  /** The whole exchange, for every nonce and host, on the bytes that travel: each parser stops
      right behind what the other side printed, whatever frames follow. */
  lemma HandshakeCompletes(host: string, nonce: Bytes, toServer: Bytes, toClient: Bytes)
    returns (request: Report, response: Report)
    requires IsValue(host) && IsLatin(host) && |nonce| == 16
    ensures var key := B.Encoded(nonce);
            && Scan(Requests, Start(Requests), NOTHING, Text(ToBytes(RequestText(host, key)) + toServer))
               == Done(request, Text(toServer))
            && IsUpgradeRequest(request)
            && Lookup(request.headers, "Sec-WebSocket-Key") == Some(key)
            && Scan(Responses, Start(Responses), NOTHING, Text(ToBytes(ResponseText(AcceptOf(key))) + toClient))
               == Done(response, Text(toClient))
            && IsUpgradeResponse(response, AcceptOf(key))
  {
    hide Scan, RequestText, ResponseText, IsUpgradeRequest, IsUpgradeResponse;
    hide IsValue, AcceptOf, B.Encoded, IsLatin, Text;
    var key := B.Encoded(nonce);
    var accept := AcceptOf(key);
    EncodedIsValue(nonce);
    AcceptIsValue(key);
    request := RequestIsUnderstood(host, nonce, Text(toServer));
    RequestIsLatin(host, key);
    TextOfBytes(RequestText(host, key), toServer);
    response := ResponseIsUnderstood(accept, Text(toClient));
    ResponseIsLatin(accept);
    TextOfBytes(ResponseText(accept), toClient);
  }

  // ----- handshake of the two classes --------------------------------------------------------------

  /** How a handshake ends: Opened, or the exception that it throws; Interrupted is that of
      rcom_sleep. */
  datatype Opening = Opened | Unparsed(end: Ending) | NotWebSocket | Unsent | Interrupted

  /** What parse made of input, for a parser that has not reported anything yet. */
  ghost predicate ParsedAs(kind: Kind, input: Bytes, end: Ending, found: Report, rest: Bytes) {
    var scan := Scan(kind, Start(kind), NOTHING, Text(input));
    match end
    case Parsed => scan == Done(found, Text(rest))
    case Refused => scan == Malformed
    case Ended => scan == Incomplete
    case TimedOut => true
  }

  /** The server has read one complete upgrade request, and its whole answer is on the wire;
      rest has not been touched. */
  ghost predicate Upgraded(input: Bytes, output: Bytes, rest: Bytes, written: Bytes) {
    match Scan(Requests, Start(Requests), NOTHING, Text(input))
    case Done(found, after) =>
      after == Text(rest) && IsUpgradeRequest(found)
      && (match Lookup(found.headers, "Sec-WebSocket-Key")
          case None => false
          case Some(key) => written == output + ToBytes(ResponseText(AcceptOf(key))))
    case _ => false
  }

  /** input begins with one complete upgrade request. */
  ghost predicate Acceptable(input: Bytes) {
    var scan := Scan(Requests, Start(Requests), NOTHING, Text(input));
    scan.Done? && IsUpgradeRequest(scan.report)
  }

  /** socket_send of the server's answer: a write that fails closes the socket. */
  method SendAnswer(socket: T.Socket, accept: string) returns (ok: bool)
    modifies socket`output, socket`connected, socket`trouble
    ensures ok <==> socket.output == old(socket.output) + ToBytes(ResponseText(accept))
    ensures ok <==> socket.trouble == old(socket.trouble)
    ensures if ok then socket.connected == old(socket.connected) else !socket.connected
  {
    hide ResponseText, ToBytes;
    var answer := ToBytes(ResponseText(accept));
    ghost var all := socket.output + answer;
    ghost var n;
    ok, n := socket.Send(answer);
    if ok {
      assert answer[..n] == answer;
    } else {
      assert |socket.output| < |all|;
      socket.Close();
    }
  }

  /** parse, for a parser that has not reported anything yet. */
  method ParseMessage(socket: T.Socket, parser: HttpParser) returns (end: Ending)
    requires parser.name == "" && parser.Reported() == NOTHING
    modifies parser, parser.request, parser.response, socket`input, socket`trouble
    ensures ParsedAs(parser.kind, old(socket.input), end, parser.Reported(), socket.input)
    ensures end.TimedOut? <==> socket.trouble != old(socket.trouble)
  {
    hide Scan, Text;
    end := parser.Parse(socket);
  }

  /** Whether the input was acceptable shows when it has been parsed. */
  lemma AcceptableShows(input: Bytes, end: Ending, found: Report, rest: Bytes)
    requires ParsedAs(Requests, input, end, found, rest) && end != TimedOut
    ensures Acceptable(input) <==> end.Parsed? && IsUpgradeRequest(found)
  {
    hide Scan, Text, IsUpgradeRequest;
  }

  lemma UpgradedExactly(input: Bytes, output: Bytes, found: Report, rest: Bytes, key: string, written: Bytes)
    requires ParsedAs(Requests, input, Parsed, found, rest) && IsUpgradeRequest(found)
    requires Lookup(found.headers, "Sec-WebSocket-Key") == Some(key)
    ensures Upgraded(input, output, rest, written) <==> written == output + ToBytes(ResponseText(AcceptOf(key)))
  {
    hide Scan, Text, IsUpgradeRequest, Lookup, ToBytes, ResponseText, AcceptOf;
  }

  /** ServerSideWebSocket::handshake. */
  method ServerHandshake(socket: T.Socket, parser: HttpParser) returns (r: Opening)
    requires parser.kind.Requests? && parser.name == "" && parser.Reported() == NOTHING
    modifies parser, parser.request, parser.response
    modifies socket`input, socket`output, socket`connected, socket`trouble
    ensures !r.Interrupted?
    ensures r.Opened? ==> Upgraded(old(socket.input), old(socket.output), socket.input, socket.output)
    ensures ParsedAs(Requests, old(socket.input), if r.Unparsed? then r.end else Parsed, parser.Reported(),
                     socket.input)
    ensures r.Unparsed? ==> r.end != Parsed
    ensures r.Unsent? || r == Unparsed(TimedOut) <==> socket.trouble != old(socket.trouble)
    ensures r.Unparsed? || r.NotWebSocket? ==> socket.output == old(socket.output)
    ensures r.Opened? || r.Unsent? <==> Acceptable(old(socket.input)) && r != Unparsed(TimedOut)
    ensures !r.Unparsed? ==> (r.NotWebSocket? <==> !IsUpgradeRequest(parser.Reported()))
    ensures if r.Unsent? then !socket.connected else socket.connected == old(socket.connected)
    ensures r.Unsent? ==> !Upgraded(old(socket.input), old(socket.output), socket.input, socket.output)
  {
    hide ParsedAs, Upgraded, Acceptable, AcceptOf, ResponseText, ToBytes, IsUpgradeRequest, Lookup;
    ghost var input, output := socket.input, socket.output;
    var end := ParseMessage(socket, parser);
    if end != Parsed {
      if end != TimedOut {
        AcceptableShows(input, end, parser.Reported(), socket.input);
      }
      return Unparsed(end);
    }
    AcceptableShows(input, end, parser.Reported(), socket.input);
    var upgrade := parser.request.AssertWebSocket();
    if !upgrade {
      return NotWebSocket;
    }
    var found, key := FindHeader(parser.request.headers, "Sec-WebSocket-Key");
    UpgradeHasKey(parser.request.Reported());
    var accept := MakeAcceptString(key);
    var ok := SendAnswer(socket, accept);
    UpgradedExactly(input, output, parser.Reported(), socket.input, key, socket.output);
    r := if ok then Opened else Unsent;
  }

  lemma UpgradeHasKey(r: Report)
    requires IsUpgradeRequest(r)
    ensures Lookup(r.headers, "Sec-WebSocket-Key").Some?
  {
  }

  /** socket_send of the client's request: a write that fails closes the socket, or an exception of
      rcom_sleep leaves it open. */
  method SendRequest(socket: T.Socket, clock: T.Clock, host: string, key: string) returns (r: T.Try<bool>)
    modifies clock, socket`output, socket`connected, socket`trouble
    ensures var sent := socket.output == old(socket.output) + ToBytes(RequestText(host, key));
            (r.Ok? && r.value <==> sent) && (sent <==> socket.trouble == old(socket.trouble))
    ensures r.Ok? ==> if r.value then socket.connected == old(socket.connected) else !socket.connected
    ensures !r.Ok? ==>
              r.SleepError? && clock.interrupts > old(clock.interrupts) && socket.connected == old(socket.connected)
  {
    hide RequestText, ToBytes;
    var request := ToBytes(RequestText(host, key));
    ghost var all := socket.output + request;
    var ok;
    ghost var n;
    ok, n := socket.Send(request);
    if ok {
      assert request[..n] == request;
    } else {
      assert |socket.output| < |all|;
      var _ :- CloseClientSide(socket, clock);
    }
    r := T.Ok(ok);
  }

  /** ClientSideWebSocket::handshake, for whatever nonce getrandom gave. */
  method ClientHandshake(socket: T.Socket, clock: T.Clock, parser: HttpParser, host: string, nonce: Bytes)
    returns (r: Opening)
    requires parser.kind.Responses? && parser.name == "" && parser.Reported() == NOTHING && |nonce| == 16
    modifies parser, parser.request, parser.response, clock
    modifies socket`input, socket`output, socket`connected, socket`trouble
    ensures var request := ToBytes(RequestText(host, B.Encoded(nonce)));
            r.Unsent? || r.Interrupted? <==> socket.output != old(socket.output) + request
    ensures r.Unsent? || r.Interrupted? ==> socket.input == old(socket.input)
    ensures if r.Unsent? then !socket.connected else socket.connected == old(socket.connected)
    ensures r.Interrupted? ==> clock.interrupts > old(clock.interrupts)
    ensures r.Unsent? || r.Interrupted? || r == Unparsed(TimedOut) <==> socket.trouble != old(socket.trouble)
    ensures !r.Unsent? && !r.Interrupted? ==>
              ParsedAs(Responses, old(socket.input), if r.Unparsed? then r.end else Parsed, parser.Reported(),
                       socket.input)
    ensures r.Unparsed? ==> r.end != Parsed
    ensures r.Opened? || r.NotWebSocket? ==>
              (r.Opened? <==> IsUpgradeResponse(parser.Reported(), AcceptOf(B.Encoded(nonce))))
  {
    hide ParsedAs, AcceptOf, RequestText, ToBytes, IsUpgradeResponse, B.Encoded;
    var key := B.Encode(nonce);
    var accept := MakeAcceptString(key);
    var sent := SendRequest(socket, clock, host, key);
    if !sent.Ok? {
      return Interrupted;
    }
    if !sent.value {
      return Unsent;
    }
    var end := ParseMessage(socket, parser);
    if end != Parsed {
      return Unparsed(end);
    }
    var ok := parser.response.AssertWebSocket(accept);
    r := if ok then Opened else NotWebSocket;
  }
}
