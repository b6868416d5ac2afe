/** What the parser accepts between the first line and the body, in both directions. */
module HttpHeaders {
  import opened HttpSyntax

  /** A header line: name, colon, some spaces, value. */
  datatype Line = Line(name: string, gap: nat, value: string)

  function Spaces(k: nat): (s: string)
    ensures |s| == k
  {
    seq(k, _ => ' ')
  }

  function Render(f: Line): string { f.name + ":" + Spaces(f.gap) + f.value + "\r\n" }

  /** Header lines and the blank line that ends them. */
  function RenderAll(fs: seq<Line>): string {
    if fs == [] then "\r\n" else Render(fs[0]) + RenderAll(fs[1..])
  }

  function Fields(fs: seq<Line>): (hs: seq<HeaderField>)
    ensures |hs| == |fs|
  {
    seq(|fs|, i requires 0 <= i < |fs| => HeaderField(fs[i].name, fs[i].value))
  }

  predicate IsName(s: string) { 1 <= |s| <= 128 && forall i :: 0 <= i < |s| ==> IsToken(s[i]) }

  predicate IsValue(s: string) {
    1 <= |s| <= 1024 && s[0] != ' ' && forall i :: 0 <= i < |s| ==> s[i] != '\r'
  }

  predicate IsLine(f: Line) { IsName(f.name) && IsValue(f.value) }

  predicate AreLines(fs: seq<Line>) { forall i :: 0 <= i < |fs| ==> IsLine(fs[i]) }

  function AddHeaders(r: Report, fs: seq<Line>): Report { r.(headers := r.headers + Fields(fs)) }

  // ----- printed headers are parsed ------------------------------------------------------------

  lemma ScanStep(kind: Kind, p: Parser, r: Report, c: char, rest: string)
    requires p.state != Body
    ensures Scan(kind, p, r, [c] + rest)
         == match Step(kind, p, r, c)
            case Failed => Malformed
            case Next(q, u) => Scan(kind, q, u, rest)
  {
    assert ([c] + rest)[0] == c && ([c] + rest)[1..] == rest;
  }

  /** A word that a gathering state takes whole. */
  predicate Gatherable(p: Parser, w: string) {
    && RuleOf(p.state).Gather?
    && |p.buffer| + |w| <= RuleOf(p.state).limit + 1
    && forall i :: 0 <= i < |w| ==> w[i] != RuleOf(p.state).stop && Allowed(p.state, w[i])
  }

  lemma {:induction false} ScanWord(kind: Kind, p: Parser, r: Report, w: string, rest: string)
    requires Gatherable(p, w)
    ensures Scan(kind, p, r, w + rest) == Scan(kind, p.(buffer := p.buffer + w), r, rest)
    decreases |w|
  {
    hide Scan, Allowed;
    if w == "" {
      assert w + rest == rest && p.buffer + w == p.buffer;
    } else {
      assert w + rest == [w[0]] + (w[1..] + rest);
      ScanStep(kind, p, r, w[0], w[1..] + rest);
      var q := p.(buffer := p.buffer + [w[0]]);
      assert forall i :: 0 <= i < |w| - 1 ==> w[1..][i] == w[i + 1];
      ScanWord(kind, q, r, w[1..], rest);
      assert q.buffer + w[1..] == p.buffer + w;
    }
  }

  lemma {:induction false} ScanSpaces(kind: Kind, p: Parser, r: Report, k: nat, rest: string)
    requires RuleOf(p.state).Skip?
    ensures Scan(kind, p, r, Spaces(k) + rest) == Scan(kind, p, r, rest)
  {
    hide Scan;
    if k == 0 {
      assert Spaces(k) + rest == rest;
    } else {
      assert Spaces(k) + rest == [' '] + (Spaces(k - 1) + rest);
      ScanStep(kind, p, r, ' ', Spaces(k - 1) + rest);
      ScanSpaces(kind, p, r, k - 1, rest);
    }
  }

  lemma ScanLine(kind: Kind, p: Parser, r: Report, f: Line, rest: string)
    requires p.state == HeaderStart && IsLine(f)
    ensures Scan(kind, p, r, Render(f) + rest)
         == Scan(kind, Parser(HeaderStart, f.value, f.name),
                 r.(headers := r.headers + [HeaderField(f.name, f.value)]), rest)
  {
    hide Scan;
    var n, v := f.name, f.value;
    var afterValue := "\r\n" + rest;
    var afterName := ":" + (Spaces(f.gap) + (v + afterValue));
    assert Render(f) + rest == [n[0]] + (n[1..] + afterName);
    ScanStep(kind, p, r, n[0], n[1..] + afterName);
    TokensDoNotStop(n[0]);
    var p1 := p.(buffer := [n[0]], state := HeaderName);
    ScanName(kind, p1, r, n, afterName);
    var p2 := p1.(buffer := n);
    ScanStep(kind, p2, r, ':', Spaces(f.gap) + (v + afterValue));
    var p3 := p2.(state := HeaderSpaces, name := n);
    ScanSpaces(kind, p3, r, f.gap, v + afterValue);
    assert v + afterValue == [v[0]] + (v[1..] + afterValue);
    ScanStep(kind, p3, r, v[0], v[1..] + afterValue);
    var p4 := p3.(buffer := [v[0]], state := HeaderValue);
    ScanWord(kind, p4, r, v[1..], afterValue);
    assert [v[0]] + v[1..] == v;
    ScanEndOfLine(kind, p4.(buffer := v), r, rest);
  }

  lemma TokensDoNotStop(c: char)
    requires IsToken(c)
    ensures c != ':' && c != '\r'
  {
  }

  lemma ScanName(kind: Kind, p: Parser, r: Report, n: string, rest: string)
    requires IsName(n) && p.state == HeaderName && p.buffer == [n[0]]
    ensures Scan(kind, p, r, n[1..] + rest) == Scan(kind, p.(buffer := n), r, rest)
  {
    hide Scan, IsToken;
    forall i | 0 <= i < |n| - 1
      ensures n[1..][i] != ':' && IsToken(n[1..][i])
    {
      TokensDoNotStop(n[i + 1]);
    }
    ScanWord(kind, p, r, n[1..], rest);
    assert [n[0]] + n[1..] == n;
  }

  lemma ScanEndOfLine(kind: Kind, p: Parser, r: Report, rest: string)
    requires p.state == HeaderValue && |p.buffer| <= 1024
    ensures Scan(kind, p, r, "\r\n" + rest)
         == Scan(kind, p.(state := HeaderStart), r.(headers := r.headers + [HeaderField(p.name, p.buffer)]), rest)
  {
    hide Scan;
    var u := r.(headers := r.headers + [HeaderField(p.name, p.buffer)]);
    assert "\r\n" + rest == ['\r'] + (['\n'] + rest);
    ScanStep(kind, p, r, '\r', ['\n'] + rest);
    ScanStep(kind, p.(state := HeaderLF), u, '\n', rest);
  }

  lemma ScanBlankLine(kind: Kind, p: Parser, r: Report, rest: string)
    requires p.state == HeaderStart
    ensures Scan(kind, p, r, "\r\n" + rest) == Done(r, rest)
  {
    assert "\r\n" + rest == ['\r'] + (['\n'] + rest);
    ScanStep(kind, p, r, '\r', ['\n'] + rest);
    ScanStep(kind, p.(state := HeadersEndLF), r, '\n', rest);
  }

  /** The parser reports exactly the printed headers, in order, and stops exactly behind the
      blank line. */
  lemma {:induction false} PrintedIsParsed(kind: Kind, p: Parser, r: Report, fs: seq<Line>, rest: string)
    requires p.state == HeaderStart && AreLines(fs)
    ensures Scan(kind, p, r, RenderAll(fs) + rest) == Done(AddHeaders(r, fs), rest)
    decreases |fs|
  {
    hide Scan, Render, IsLine;
    if fs == [] {
      ScanBlankLine(kind, p, r, rest);
      assert r.headers + Fields(fs) == r.headers;
    } else {
      var f, h := fs[0], HeaderField(fs[0].name, fs[0].value);
      assert RenderAll(fs) + rest == Render(f) + (RenderAll(fs[1..]) + rest);
      ScanLine(kind, p, r, f, RenderAll(fs[1..]) + rest);
      var u := r.(headers := r.headers + [h]);
      PrintedIsParsed(kind, Parser(HeaderStart, f.value, f.name), u, fs[1..], rest);
      assert r.headers + Fields(fs) == (r.headers + [h]) + Fields(fs[1..]);
    }
  }

  // ----- only such headers are parsed ------------------------------------------------------------

  /** The text of the current line that the parser has already taken; gap counts its spaces. */
  function Pending(p: Parser, gap: nat): string {
    match p.state
    case HeaderName => p.buffer
    case HeaderSpaces => p.name + ":" + Spaces(gap)
    case HeaderValue => p.name + ":" + Spaces(gap) + p.buffer
    case _ => ""
  }

  predicate InHeaders(p: Parser) {
    match p.state
    case HeaderStart => true
    case HeaderName => IsName(p.buffer)
    case HeaderSpaces => IsName(p.name)
    case HeaderValue => IsName(p.name) && IsValue(p.buffer)
    case HeaderLF => true
    case HeadersEndLF => true
    case Body => true
    case _ => false
  }

  /** fs is what the rest of the text, s, adds to the headers when end is left over. */
  predicate Explains(p: Parser, gap: nat, s: string, fs: seq<Line>, end: string) {
    match p.state
    case HeaderLF => s == "\n" + (RenderAll(fs) + end)
    case HeadersEndLF => fs == [] && s == "\n" + end
    case Body => fs == [] && s == end
    case _ => Pending(p, gap) + s == RenderAll(fs) + end
  }

  /** The gap after one more character. */
  function NextGap(p: Parser, c: char, gap: nat): nat {
    if p.state.HeaderSpaces? && c == ' ' then gap + 1
    else if p.state.HeaderName? && c == ':' then 0
    else gap
  }

  function NextLines(p: Parser, c: char, gap: nat, fs: seq<Line>): seq<Line> {
    if p.state.HeaderValue? && c == '\r' then [Line(p.name, gap, p.buffer)] + fs else fs
  }

  /** One character back: what explains the text behind c explains the text from c on. */
  lemma ExplainsBack(kind: Kind, p: Parser, r: Report, gap: nat, c: char, s: string, fs: seq<Line>, end: string)
    requires InHeaders(p) && p.state != Body && Step(kind, p, r, c).Next?
    ensures var q := Step(kind, p, r, c).parser;
            && InHeaders(q)
            && (AreLines(fs) ==> AreLines(NextLines(p, c, gap, fs)))
            && (Explains(q, NextGap(p, c, gap), s, fs, end) ==>
                  Explains(p, gap, [c] + s, NextLines(p, c, gap, fs), end))
            && AddHeaders(r, NextLines(p, c, gap, fs)) == AddHeaders(Step(kind, p, r, c).report, fs)
  {
    hide IsToken, RenderAll, Render, Spaces;
    match p.state
    case HeaderStart => StartBack(kind, p, r, c, s, fs, end);
    case HeaderName => NameBack(kind, p, r, c, s, fs, end);
    case HeaderSpaces => SpacesBack(kind, p, r, gap, c, s, fs, end);
    case HeaderValue => ValueBack(kind, p, r, gap, c, s, fs, end);
    case HeaderLF => assert "" + s == s;
    case HeadersEndLF =>
  }

  lemma StartBack(kind: Kind, p: Parser, r: Report, c: char, s: string, fs: seq<Line>, end: string)
    requires p.state.HeaderStart? && Step(kind, p, r, c).Next?
    ensures var q := Step(kind, p, r, c).parser;
            && InHeaders(q) && Step(kind, p, r, c).report == r
            && forall gap :: Explains(q, gap, s, fs, end) ==> Explains(p, gap, [c] + s, fs, end)
  {
    hide IsToken, Render, Spaces;
    assert "" + ([c] + s) == [c] + s;
    if c == '\r' {
      assert ['\r'] + ("\n" + end) == "\r\n" + end;
    }
  }

  lemma NameBack(kind: Kind, p: Parser, r: Report, c: char, s: string, fs: seq<Line>, end: string)
    requires p.state.HeaderName? && IsName(p.buffer) && Step(kind, p, r, c).Next?
    ensures var q := Step(kind, p, r, c).parser;
            && InHeaders(q) && Step(kind, p, r, c).report == r
            && forall gap :: Explains(q, NextGap(p, c, gap), s, fs, end) ==> Explains(p, gap, [c] + s, fs, end)
  {
    hide IsToken, RenderAll, Render;
    if c == ':' {
      assert p.buffer + ":" + Spaces(0) + s == p.buffer + ([':'] + s);
    } else {
      assert (p.buffer + [c]) + s == p.buffer + ([c] + s);
    }
  }

  lemma SpacesBack(kind: Kind, p: Parser, r: Report, gap: nat, c: char, s: string, fs: seq<Line>, end: string)
    requires p.state.HeaderSpaces? && IsName(p.name) && Step(kind, p, r, c).Next?
    ensures var q := Step(kind, p, r, c).parser;
            && InHeaders(q) && Step(kind, p, r, c).report == r
            && (Explains(q, NextGap(p, c, gap), s, fs, end) ==> Explains(p, gap, [c] + s, fs, end))
  {
    hide IsToken, RenderAll, Render;
    var start := p.name + ":" + Spaces(gap);
    if c == ' ' {
      assert Spaces(gap + 1) == Spaces(gap) + [' '];
      assert p.name + ":" + Spaces(gap + 1) + s == start + ([' '] + s);
    } else {
      assert start + [c] + s == start + ([c] + s);
    }
  }

  lemma ValueBack(kind: Kind, p: Parser, r: Report, gap: nat, c: char, s: string, fs: seq<Line>, end: string)
    requires p.state.HeaderValue? && IsName(p.name) && IsValue(p.buffer) && Step(kind, p, r, c).Next?
    ensures var q := Step(kind, p, r, c).parser;
            && InHeaders(q)
            && (AreLines(fs) ==> AreLines(NextLines(p, c, gap, fs)))
            && (Explains(q, gap, s, fs, end) ==> Explains(p, gap, [c] + s, NextLines(p, c, gap, fs), end))
            && AddHeaders(r, NextLines(p, c, gap, fs)) == AddHeaders(Step(kind, p, r, c).report, fs)
  {
    if c == '\r' {
      ValueEnds(kind, p, r, gap, s, fs, end);
    } else {
      ValueGoesOn(kind, p, r, gap, c, s, fs, end);
    }
  }

  lemma ValueEnds(kind: Kind, p: Parser, r: Report, gap: nat, s: string, fs: seq<Line>, end: string)
    requires p.state.HeaderValue? && IsName(p.name) && IsValue(p.buffer) && Step(kind, p, r, '\r').Next?
    ensures var q := Step(kind, p, r, '\r').parser;
            && InHeaders(q)
            && (AreLines(fs) ==> AreLines(NextLines(p, '\r', gap, fs)))
            && (Explains(q, gap, s, fs, end) ==> Explains(p, gap, ['\r'] + s, NextLines(p, '\r', gap, fs), end))
            && AddHeaders(r, NextLines(p, '\r', gap, fs)) == AddHeaders(Step(kind, p, r, '\r').report, fs)
  {
    hide IsToken, IsName, Spaces;
    var start := p.name + ":" + Spaces(gap) + p.buffer;
    LineEnds(p, gap, fs, end);
    assert start + (['\r'] + s) == start + "\r" + s;
    HeadersShift(r, p, gap, fs);
  }

  lemma ValueGoesOn(kind: Kind, p: Parser, r: Report, gap: nat, c: char, s: string, fs: seq<Line>, end: string)
    requires c != '\r'
    requires p.state.HeaderValue? && IsName(p.name) && IsValue(p.buffer) && Step(kind, p, r, c).Next?
    ensures var q := Step(kind, p, r, c).parser;
            && InHeaders(q)
            && (AreLines(fs) ==> AreLines(NextLines(p, c, gap, fs)))
            && (Explains(q, gap, s, fs, end) ==> Explains(p, gap, [c] + s, NextLines(p, c, gap, fs), end))
            && AddHeaders(r, NextLines(p, c, gap, fs)) == AddHeaders(Step(kind, p, r, c).report, fs)
  {
    hide IsToken, IsName, Spaces, RenderAll;
    var start := p.name + ":" + Spaces(gap) + p.buffer;
    assert p.name + ":" + Spaces(gap) + (p.buffer + [c]) + s == start + ([c] + s);
  }

  lemma LineEnds(p: Parser, gap: nat, fs: seq<Line>, end: string)
    ensures var start := p.name + ":" + Spaces(gap) + p.buffer;
            start + "\r" + ("\n" + (RenderAll(fs) + end)) == RenderAll([Line(p.name, gap, p.buffer)] + fs) + end
  {
    hide Spaces;
    var f := Line(p.name, gap, p.buffer);
    var start := p.name + ":" + Spaces(gap) + p.buffer;
    assert ([f] + fs)[0] == f && ([f] + fs)[1..] == fs;
    assert start + "\r" + ("\n" + (RenderAll(fs) + end)) == (start + "\r\n") + RenderAll(fs) + end;
  }

  lemma HeadersShift(r: Report, p: Parser, gap: nat, fs: seq<Line>)
    ensures AddHeaders(r, [Line(p.name, gap, p.buffer)] + fs)
         == AddHeaders(r.(headers := r.headers + [HeaderField(p.name, p.buffer)]), fs)
  {
    var f := Line(p.name, gap, p.buffer);
    assert Fields([f] + fs) == [HeaderField(p.name, p.buffer)] + Fields(fs);
    var h := HeaderField(p.name, p.buffer);
    assert r.headers + ([h] + Fields(fs)) == (r.headers + [h]) + Fields(fs);
  }

  lemma {:induction false} ParsedIsPrinted(kind: Kind, p: Parser, r: Report, s: string, gap: nat)
    returns (fs: seq<Line>)
    requires InHeaders(p) && Scan(kind, p, r, s).Done?
    ensures AreLines(fs) && Explains(p, gap, s, fs, Scan(kind, p, r, s).rest)
    ensures Scan(kind, p, r, s).report == AddHeaders(r, fs)
    decreases |s|
  {
    hide Step, Explains, InHeaders, AddHeaders;
    if p.state == Body {
      fs := [];
      NothingMore(p, gap, r, s);
    } else {
      var next := Step(kind, p, r, s[0]);
      var end := Scan(kind, p, r, s).rest;
      ExplainsBack(kind, p, r, gap, s[0], s[1..], [], end);
      var more := ParsedIsPrinted(kind, next.parser, next.report, s[1..], NextGap(p, s[0], gap));
      ExplainsBack(kind, p, r, gap, s[0], s[1..], more, end);
      assert s == [s[0]] + s[1..];
      fs := NextLines(p, s[0], gap, more);
    }
  }

  lemma NothingMore(p: Parser, gap: nat, r: Report, s: string)
    requires p.state == Body
    ensures Explains(p, gap, s, [], s) && AddHeaders(r, []) == r
  {
    assert r.headers + Fields([]) == r.headers;
  }

  /** The headers are parsed if and only if the text begins with well-formed header lines and a
      blank line; then exactly these headers are reported, and the rest is not touched. */
  lemma HeadersExactly(kind: Kind, p: Parser, r: Report, s: string, found: Report, rest: string)
    requires p.state == HeaderStart
    ensures Scan(kind, p, r, s) == Done(found, rest)
            <==> exists fs :: AreLines(fs) && s == RenderAll(fs) + rest && found == AddHeaders(r, fs)
  {
    hide Scan, AreLines, RenderAll, AddHeaders;
    if Scan(kind, p, r, s) == Done(found, rest) {
      var fs := ParsedIsPrinted(kind, p, r, s, 0);
      assert "" + s == s;
    }
    forall fs | AreLines(fs) && s == RenderAll(fs) + rest && found == AddHeaders(r, fs)
      ensures Scan(kind, p, r, s) == Done(found, rest)
    {
      PrintedIsParsed(kind, p, r, fs, rest);
    }
  }
}
