/** The first line of a request and of a response, and with it the whole language of the parser. */
module FirstLines {
  import opened HttpSyntax
  import opened HttpHeaders

  // ----- what the parser has taken, one rule at a time ---------------------------------------------

  /** A state that gathers a word has taken it up to the stop character. */
  lemma {:induction false} GatherBack(kind: Kind, p: Parser, r: Report, s: string) returns (w: string, t: string)
    requires RuleOf(p.state).Gather? && Scan(kind, p, r, s).Done?
    ensures var rule, full := RuleOf(p.state), p.(buffer := p.buffer + w);
            var next := Complete(kind, full, rule.next, r);
            && s == w + [rule.stop] + t && (forall i :: 0 <= i < |w| ==> w[i] != rule.stop && Allowed(p.state, w[i]))
            && (if rule.strict then |full.buffer| <= rule.limit else w != "" ==> |full.buffer| <= rule.limit + 1)
            && next.Next? && Scan(kind, p, r, s) == Scan(kind, next.parser, next.report, t)
    decreases |s|
  {
    hide Scan, Complete, Allowed;
    var c, rest := s[0], s[1..] by { NotEmpty(kind, p, r, s); }
    assert s == [c] + rest;
    ScanStep(kind, p, r, c, rest);
    if c == RuleOf(p.state).stop {
      w, t := "", rest;
      assert p.buffer + w == p.buffer && w + [c] + t == s;
    } else {
      var q := p.(buffer := p.buffer + [c]);
      var v;
      v, t := GatherBack(kind, q, r, rest);
      w := [c] + v;
      assert q.buffer + v == p.buffer + w;
      assert s == w + [RuleOf(p.state).stop] + t;
    }
  }

  lemma NotEmpty(kind: Kind, p: Parser, r: Report, s: string)
    requires p.state != Body && Scan(kind, p, r, s).Done?
    ensures s != ""
  {
  }

  /** A state that skips spaces has taken them and the character behind them. */
  lemma {:induction false} SkipBack(kind: Kind, p: Parser, r: Report, s: string) returns (k: nat, c: char, t: string)
    requires RuleOf(p.state).Skip? && Scan(kind, p, r, s).Done?
    ensures s == Spaces(k) + ([c] + t) && c != ' '
    ensures Scan(kind, p, r, s) == Scan(kind, p.(buffer := [c], state := RuleOf(p.state).next), r, t)
    decreases |s|
  {
    hide Scan, Allowed;
    c, t := s[0], s[1..] by { NotEmpty(kind, p, r, s); }
    assert s == [c] + t;
    ScanStep(kind, p, r, c, t);
    k := 0;
    if c == ' ' {
      var rest := t;
      k, c, t := SkipBack(kind, p, r, rest);
      k := k + 1;
      assert Spaces(k) == [' '] + Spaces(k - 1);
    }
  }

  lemma ExpectBack(kind: Kind, p: Parser, r: Report, s: string) returns (t: string)
    requires RuleOf(p.state).Expect? && Scan(kind, p, r, s).Done?
    ensures s == [RuleOf(p.state).want] + t
    ensures Scan(kind, p, r, s) == Scan(kind, p.(state := RuleOf(p.state).next), r, t)
  {
    hide Scan;
    t := s[1..] by { NotEmpty(kind, p, r, s); }
    assert s == [s[0]] + t;
    ScanStep(kind, p, r, s[0], t);
  }

  /** And the other way: a word, spaces and a character, the end of a line. */
  lemma GatherOn(kind: Kind, p: Parser, r: Report, w: string, t: string)
    requires Gatherable(p, w)
    requires RuleOf(p.state).strict ==> |p.buffer| + |w| <= RuleOf(p.state).limit
    ensures var full := p.(buffer := p.buffer + w);
            Scan(kind, p, r, w + ([RuleOf(p.state).stop] + t))
            == match Complete(kind, full, RuleOf(p.state).next, r)
               case Failed => Malformed
               case Next(q, u) => Scan(kind, q, u, t)
  {
    hide Scan, Complete, Allowed;
    var stop := RuleOf(p.state).stop;
    ScanWord(kind, p, r, w, [stop] + t);
    ScanStep(kind, p.(buffer := p.buffer + w), r, stop, t);
  }

  lemma SkipOn(kind: Kind, p: Parser, r: Report, k: nat, c: char, t: string)
    requires RuleOf(p.state).Skip? && c != ' ' && Allowed(p.state, c)
    ensures Scan(kind, p, r, Spaces(k) + ([c] + t))
         == Scan(kind, p.(buffer := [c], state := RuleOf(p.state).next), r, t)
  {
    hide Scan, Allowed;
    ScanSpaces(kind, p, r, k, [c] + t);
    ScanStep(kind, p, r, c, t);
  }

  // ----- requests ----------------------------------------------------------------------------------

  predicate IsUri(uri: string) { 1 <= |uri| <= 2048 && forall i :: 0 <= i < |uri| ==> uri[i] != ' ' }

  /** GET, spaces, the URI, spaces, the version, and the rest. */
  function RequestLine(k: nat, uri: string, n: nat, rest: string): string {
    "GET" + ([' '] + (Spaces(k) + (uri + ([' '] + (Spaces(n) + ("HTTP/1.1" + ("\r\n" + rest)))))))
  }

  /** s is a request line, the header lines fs, the blank line, and the rest. */
  predicate IsRequest(s: string, k: nat, uri: string, n: nat, fs: seq<Line>, found: Report, rest: string) {
    && IsUri(uri) && AreLines(fs) && s == RequestLine(k, uri, n, RenderAll(fs) + rest)
    && found == AddHeaders(NOTHING.(verb := GetMethod, uri := uri), fs)
  }

  /** Exactly these texts are parsed as requests, each with exactly this result, and the rest is not
      touched. */
  lemma RequestsExactly(s: string, found: Report, rest: string)
    ensures Scan(Requests, Start(Requests), NOTHING, s) == Done(found, rest)
            <==> exists k, uri, n, fs :: IsRequest(s, k, uri, n, fs, found, rest)
  {
    hide Scan, IsRequest;
    if Scan(Requests, Start(Requests), NOTHING, s) == Done(found, rest) {
      var k, uri, n, fs := RequestBack(s, found, rest);
    }
    forall k, uri, n, fs | IsRequest(s, k, uri, n, fs, found, rest)
      ensures Scan(Requests, Start(Requests), NOTHING, s) == Done(found, rest)
    {
      RequestOn(s, k, uri, n, fs, found, rest);
    }
  }

  lemma RequestOn(s: string, k: nat, uri: string, n: nat, fs: seq<Line>, found: Report, rest: string)
    requires IsRequest(s, k, uri, n, fs, found, rest)
    ensures Scan(Requests, Start(Requests), NOTHING, s) == Done(found, rest)
  {
    hide Scan, AreLines, RenderAll, AddHeaders;
    var r := NOTHING.(verb := GetMethod, uri := uri);
    var tail := RenderAll(fs) + rest;
    RequestLineOn(k, uri, n, tail);
    PrintedIsParsed(Requests, Parser(HeaderStart, "HTTP/1.1", ""), r, fs, rest);
  }

  lemma RequestLineOn(k: nat, uri: string, n: nat, rest: string)
    requires IsUri(uri)
    ensures Scan(Requests, Start(Requests), NOTHING, RequestLine(k, uri, n, rest))
         == Scan(Requests, Parser(HeaderStart, "HTTP/1.1", ""), NOTHING.(verb := GetMethod, uri := uri), rest)
  {
    hide Scan, Spaces;
    var version := "HTTP/1.1" + ("\r\n" + rest);
    var behind := [' '] + (Spaces(n) + version);
    var p0 := Start(Requests);
    assert p0.buffer + "GET" == "GET";
    GatherOn(Requests, p0, NOTHING, "GET", Spaces(k) + (uri + behind));
    var r1 := NOTHING.(verb := GetMethod);
    UriOn(Parser(RequestMethodSpaces, "GET", ""), r1, k, uri, Spaces(n) + version);
    VersionOn(Parser(RequestUriSpaces, uri, ""), r1.(uri := uri), n, rest);
  }

  lemma UriOn(p: Parser, r: Report, k: nat, uri: string, rest: string)
    requires p.state == RequestMethodSpaces && IsUri(uri)
    ensures Scan(Requests, p, r, Spaces(k) + (uri + ([' '] + rest)))
         == Scan(Requests, p.(state := RequestUriSpaces, buffer := uri), r.(uri := uri), rest)
  {
    hide Scan, Spaces;
    var c, w := uri[0], uri[1..];
    assert uri + ([' '] + rest) == [c] + (w + ([' '] + rest)) && [c] + w == uri;
    SkipOn(Requests, p, r, k, c, w + ([' '] + rest));
    GatherOn(Requests, p.(buffer := [c], state := RequestUri), r, w, rest);
  }

  lemma VersionOn(p: Parser, r: Report, n: nat, rest: string)
    requires p.state == RequestUriSpaces
    ensures Scan(Requests, p, r, Spaces(n) + ("HTTP/1.1" + ("\r\n" + rest)))
         == Scan(Requests, p.(state := HeaderStart, buffer := "HTTP/1.1"), r, rest)
  {
    hide Scan, Spaces, IsVersionChar;
    VersionParts(rest);
    VersionCharacters();
    var w, end := "TTP/1.1", ['\n'] + rest;
    assert ['H'] + w == "HTTP/1.1";
    SkipOn(Requests, p, r, n, 'H', w + (['\r'] + end));
    GatherOn(Requests, p.(buffer := ['H'], state := RequestVersion), r, w, end);
    ScanStep(Requests, p.(buffer := "HTTP/1.1", state := RequestLineLF), r, '\n', rest);
  }

  lemma VersionParts(rest: string)
    ensures "HTTP/1.1" + ("\r\n" + rest) == ['H'] + ("TTP/1.1" + (['\r'] + (['\n'] + rest)))
  {
    assert "HTTP/1.1" == ['H'] + "TTP/1.1";
    assert "\r\n" + rest == ['\r'] + (['\n'] + rest);
  }

  lemma VersionCharacters()
    ensures forall i :: 0 <= i < 7 ==> IsVersionChar("TTP/1.1"[i])
    ensures forall i :: 0 <= i < 7 ==> "TTP/1.1"[i] != '\r'
  {
    var w := "HTTP/0123456789.";
    assert w[0] == 'H' && w[1] == 'T' && w[3] == 'P' && w[4] == '/' && w[6] == '1' && w[15] == '.';
  }

  lemma RequestBack(s: string, found: Report, rest: string) returns (k: nat, uri: string, n: nat, fs: seq<Line>)
    requires Scan(Requests, Start(Requests), NOTHING, s) == Done(found, rest)
    ensures IsRequest(s, k, uri, n, fs, found, rest)
  {
    hide Scan, Spaces, AreLines, RenderAll, AddHeaders, IsUri, RequestLine;
    var tail;
    k, uri, n, tail := RequestLineBack(s);
    HeadersExactly(Requests, Parser(HeaderStart, "HTTP/1.1", ""), NOTHING.(verb := GetMethod, uri := uri), tail,
                   found, rest);
    fs :| AreLines(fs) && tail == RenderAll(fs) + rest
          && found == AddHeaders(NOTHING.(verb := GetMethod, uri := uri), fs);
  }

  lemma RequestLineBack(s: string) returns (k: nat, uri: string, n: nat, rest: string)
    requires Scan(Requests, Start(Requests), NOTHING, s).Done?
    ensures IsUri(uri) && s == RequestLine(k, uri, n, rest)
    ensures Scan(Requests, Start(Requests), NOTHING, s)
         == Scan(Requests, Parser(HeaderStart, "HTTP/1.1", ""), NOTHING.(verb := GetMethod, uri := uri), rest)
  {
    hide Scan, Spaces, IsUpper;
    var w, t := GatherBack(Requests, Start(Requests), NOTHING, s);
    assert Start(Requests).buffer + w == w;
    var r1 := NOTHING.(verb := GetMethod);
    var t2;
    k, uri, t2 := UriBack(Parser(RequestMethodSpaces, "GET", ""), r1, t);
    n, rest := VersionBack(Parser(RequestUriSpaces, uri, ""), r1.(uri := uri), t2);
    assert "GET" + [' '] + t == "GET" + ([' '] + t);
  }

  lemma UriBack(p: Parser, r: Report, s: string) returns (k: nat, uri: string, rest: string)
    requires p.state == RequestMethodSpaces && Scan(Requests, p, r, s).Done?
    ensures IsUri(uri) && s == Spaces(k) + (uri + ([' '] + rest))
    ensures Scan(Requests, p, r, s)
         == Scan(Requests, p.(state := RequestUriSpaces, buffer := uri), r.(uri := uri), rest)
  {
    hide Scan, Spaces;
    var c, t;
    k, c, t := SkipBack(Requests, p, r, s);
    var w;
    w, rest := GatherBack(Requests, p.(buffer := [c], state := RequestUri), r, t);
    uri := [c] + w;
    assert [c] + (w + [' '] + rest) == uri + ([' '] + rest);
  }

  lemma VersionBack(p: Parser, r: Report, s: string) returns (n: nat, rest: string)
    requires p.state == RequestUriSpaces && Scan(Requests, p, r, s).Done?
    ensures s == Spaces(n) + ("HTTP/1.1" + ("\r\n" + rest))
    ensures Scan(Requests, p, r, s) == Scan(Requests, p.(state := HeaderStart, buffer := "HTTP/1.1"), r, rest)
  {
    hide Scan, Spaces, IsVersionChar;
    var c, t;
    n, c, t := SkipBack(Requests, p, r, s);
    var w, end := GatherBack(Requests, p.(buffer := [c], state := RequestVersion), r, t);
    assert [c] + w == "HTTP/1.1";
    rest := ExpectBack(Requests, p.(buffer := "HTTP/1.1", state := RequestLineLF), r, end);
    assert "\r\n" + rest == ['\r'] + (['\n'] + rest);
    assert [c] + (w + ['\r'] + end) == ([c] + w) + (['\r'] + end);
  }

  // ----- responses ---------------------------------------------------------------------------------

  /** The first character may be a CR: the character that ends the spaces goes to the buffer without a look. */
  predicate IsReason(reason: string) {
    1 <= |reason| <= 128 && reason[0] != ' ' && forall i :: 1 <= i < |reason| ==> reason[i] != '\r'
  }

  function StatusLine(k: nat, code: string, n: nat, reason: string, rest: string): string {
    "HTTP/1.1" + ([' '] + (Spaces(k) + (code + ([' '] + (Spaces(n) + (reason + ("\r\n" + rest)))))))
  }

  predicate IsResponse(s: string, k: nat, code: string, n: nat, reason: string, fs: seq<Line>, found: Report,
                       rest: string)
  {
    && IsStatus(code) && IsReason(reason) && AreLines(fs)
    && s == StatusLine(k, code, n, reason, RenderAll(fs) + rest)
    && found == AddHeaders(NOTHING.(code := StatusOf(code)), fs)
  }

  /** The same for responses. */
  lemma ResponsesExactly(s: string, found: Report, rest: string)
    ensures Scan(Responses, Start(Responses), NOTHING, s) == Done(found, rest)
            <==> exists k, code, n, reason, fs :: IsResponse(s, k, code, n, reason, fs, found, rest)
  {
    hide Scan, IsResponse;
    if Scan(Responses, Start(Responses), NOTHING, s) == Done(found, rest) {
      var k, code, n, reason, fs := ResponseBack(s, found, rest);
    }
    forall k, code, n, reason, fs | IsResponse(s, k, code, n, reason, fs, found, rest)
      ensures Scan(Responses, Start(Responses), NOTHING, s) == Done(found, rest)
    {
      ResponseOn(s, k, code, n, reason, fs, found, rest);
    }
  }

  lemma ResponseOn(s: string, k: nat, code: string, n: nat, reason: string, fs: seq<Line>, found: Report, rest: string)
    requires IsResponse(s, k, code, n, reason, fs, found, rest)
    ensures Scan(Responses, Start(Responses), NOTHING, s) == Done(found, rest)
  {
    hide Scan, AreLines, RenderAll, AddHeaders, StatusOf;
    StatusLineOn(k, code, n, reason, RenderAll(fs) + rest);
    PrintedIsParsed(Responses, Parser(HeaderStart, reason, ""), NOTHING.(code := StatusOf(code)), fs, rest);
  }

  lemma StatusLineOn(k: nat, code: string, n: nat, reason: string, rest: string)
    requires IsStatus(code) && IsReason(reason)
    ensures Scan(Responses, Start(Responses), NOTHING, StatusLine(k, code, n, reason, rest))
         == Scan(Responses, Parser(HeaderStart, reason, ""), NOTHING.(code := StatusOf(code)), rest)
  {
    hide Scan, Spaces, IsStatus, IsReason, StatusOf;
    var behind := Spaces(n) + (reason + ("\r\n" + rest));
    var p0 := Start(Responses);
    assert p0.buffer + "HTTP/1.1" == "HTTP/1.1";
    NoSpaces();
    GatherOn(Responses, p0, NOTHING, "HTTP/1.1", Spaces(k) + (code + ([' '] + behind)));
    CodeOn(Parser(ResponseVersionSpaces, "HTTP/1.1", ""), NOTHING, k, code, behind);
    ReasonOn(Parser(ResponseCodeSpaces, code, ""), NOTHING.(code := StatusOf(code)), n, reason, rest);
  }

  lemma NoSpaces()
    ensures forall i :: 0 <= i < 8 ==> "HTTP/1.1"[i] != ' '
  {
  }

  lemma CodeOn(p: Parser, r: Report, k: nat, code: string, rest: string)
    requires p.state == ResponseVersionSpaces && IsStatus(code)
    ensures Scan(Responses, p, r, Spaces(k) + (code + ([' '] + rest)))
         == Scan(Responses, p.(state := ResponseCodeSpaces, buffer := code), r.(code := StatusOf(code)), rest)
  {
    hide Scan, Spaces, StatusOf;
    var c, w := code[0], code[1..];
    assert code + ([' '] + rest) == [c] + (w + ([' '] + rest)) && [c] + w == code;
    SkipOn(Responses, p, r, k, c, w + ([' '] + rest));
    GatherOn(Responses, p.(buffer := [c], state := ResponseCode), r, w, rest);
  }

  lemma ReasonOn(p: Parser, r: Report, n: nat, reason: string, rest: string)
    requires p.state == ResponseCodeSpaces && IsReason(reason)
    ensures Scan(Responses, p, r, Spaces(n) + (reason + ("\r\n" + rest)))
         == Scan(Responses, p.(state := HeaderStart, buffer := reason), r, rest)
  {
    hide Scan, Spaces;
    var c, w, end := reason[0], reason[1..], ['\n'] + rest;
    assert "\r\n" + rest == ['\r'] + end;
    assert reason + (['\r'] + end) == [c] + (w + (['\r'] + end)) && [c] + w == reason;
    SkipOn(Responses, p, r, n, c, w + (['\r'] + end));
    GatherOn(Responses, p.(buffer := [c], state := ResponseReason), r, w, end);
    ScanStep(Responses, p.(buffer := reason, state := ResponseReasonLF), r, '\n', rest);
  }

  lemma ResponseBack(s: string, found: Report, rest: string)
    returns (k: nat, code: string, n: nat, reason: string, fs: seq<Line>)
    requires Scan(Responses, Start(Responses), NOTHING, s) == Done(found, rest)
    ensures IsResponse(s, k, code, n, reason, fs, found, rest)
  {
    hide Scan, Spaces, AreLines, RenderAll, AddHeaders, IsStatus, IsReason, StatusOf, StatusLine;
    var tail;
    k, code, n, reason, tail := StatusLineBack(s);
    var r := NOTHING.(code := StatusOf(code));
    HeadersExactly(Responses, Parser(HeaderStart, reason, ""), r, tail, found, rest);
    fs :| AreLines(fs) && tail == RenderAll(fs) + rest && found == AddHeaders(r, fs);
  }

  lemma StatusLineBack(s: string) returns (k: nat, code: string, n: nat, reason: string, rest: string)
    requires Scan(Responses, Start(Responses), NOTHING, s).Done?
    ensures IsStatus(code) && IsReason(reason) && s == StatusLine(k, code, n, reason, rest)
    ensures Scan(Responses, Start(Responses), NOTHING, s)
         == Scan(Responses, Parser(HeaderStart, reason, ""), NOTHING.(code := StatusOf(code)), rest)
  {
    hide Scan, Spaces, IsStatus, IsReason, StatusOf, Allowed;
    var w, t := GatherBack(Responses, Start(Responses), NOTHING, s);
    assert Start(Responses).buffer + w == w;
    var t2;
    k, code, t2 := CodeBack(Parser(ResponseVersionSpaces, "HTTP/1.1", ""), NOTHING, t);
    n, reason, rest := ReasonBack(Parser(ResponseCodeSpaces, code, ""), NOTHING.(code := StatusOf(code)), t2);
    assert "HTTP/1.1" + [' '] + t == "HTTP/1.1" + ([' '] + t);
  }

  lemma CodeBack(p: Parser, r: Report, s: string) returns (k: nat, code: string, rest: string)
    requires p.state == ResponseVersionSpaces && Scan(Responses, p, r, s).Done?
    ensures IsStatus(code) && s == Spaces(k) + (code + ([' '] + rest))
    ensures Scan(Responses, p, r, s)
         == Scan(Responses, p.(state := ResponseCodeSpaces, buffer := code), r.(code := StatusOf(code)), rest)
  {
    hide Scan, Spaces, IsStatus, StatusOf;
    var c, t;
    k, c, t := SkipBack(Responses, p, r, s);
    var w;
    w, rest := GatherBack(Responses, p.(buffer := [c], state := ResponseCode), r, t);
    code := [c] + w;
    assert [c] + (w + [' '] + rest) == code + ([' '] + rest);
  }

  lemma ReasonBack(p: Parser, r: Report, s: string) returns (n: nat, reason: string, rest: string)
    requires p.state == ResponseCodeSpaces && Scan(Responses, p, r, s).Done?
    ensures IsReason(reason) && s == Spaces(n) + (reason + ("\r\n" + rest))
    ensures Scan(Responses, p, r, s) == Scan(Responses, p.(state := HeaderStart, buffer := reason), r, rest)
  {
    hide Scan, Spaces;
    var c, t;
    n, c, t := SkipBack(Responses, p, r, s);
    var w, end := GatherBack(Responses, p.(buffer := [c], state := ResponseReason), r, t);
    reason := [c] + w;
    rest := ExpectBack(Responses, p.(buffer := reason, state := ResponseReasonLF), r, end);
    assert "\r\n" + rest == ['\r'] + (['\n'] + rest);
    assert [c] + (w + ['\r'] + end) == reason + (['\r'] + end);
  }

  /** A response without a reason phrase, which section 6.1 of RFC 2616 allows, loses its first header:
      that line is taken for the reason. */
  lemma EmptyReasonTakesHeader(k: nat, code: string, f: Line, fs: seq<Line>, rest: string)
    requires IsStatus(code) && IsLine(f) && AreLines(fs) && |Render(f)| <= 128
    ensures Scan(Responses, Start(Responses), NOTHING,
                 StatusLine(k, code, 0, "", Render(f) + (RenderAll(fs) + rest)))
         == Done(AddHeaders(NOTHING.(code := StatusOf(code)), fs), rest)
  {
    hide Scan, RenderAll, AreLines, AddHeaders, StatusOf, IsStatus, Spaces;
    var line := f.name + ":" + Spaces(f.gap) + f.value;
    var reason := "\r\n" + line;
    LineHasNoEnd(f);
    var tail := RenderAll(fs) + rest;
    assert Spaces(0) == "";
    assert "" + ("\r\n" + (Render(f) + tail)) == reason + ("\r\n" + tail);
    assert Spaces(0) + ("" + ("\r\n" + (Render(f) + tail))) == Spaces(0) + (reason + ("\r\n" + tail));
    ResponseOn(StatusLine(k, code, 0, reason, tail), k, code, 0, reason, fs,
               AddHeaders(NOTHING.(code := StatusOf(code)), fs), rest);
  }

  lemma LineHasNoEnd(f: Line)
    requires IsLine(f)
    ensures var line := f.name + ":" + Spaces(f.gap) + f.value; forall i :: 0 <= i < |line| ==> line[i] != '\r'
  {
    hide IsToken;
    forall i | 0 <= i < |f.name|
      ensures f.name[i] != '\r'
    {
      TokensDoNotStop(f.name[i]);
    }
  }
}
