/** The state machine of HttpParser.cpp as a table of rules, with what RequestParser and
    ResponseParser do when a piece of text is complete. Characters are bytes 0 to 255. */
module HttpSyntax {

  datatype Kind = Requests | Responses

  datatype State =
    | RequestMethod | RequestMethodSpaces | RequestUri | RequestUriSpaces | RequestVersion | RequestLineLF
    | ResponseVersion | ResponseVersionSpaces | ResponseCode | ResponseCodeSpaces | ResponseReason | ResponseReasonLF
    | HeaderStart | HeaderName | HeaderSpaces | HeaderValue | HeaderLF
    | HeadersEndLF | Body | ErrorState

  datatype Method = GetMethod | UnsupportedMethod

  datatype HeaderField = HeaderField(name: string, value: string)

  /** state_, buffer_ and name_. */
  datatype Parser = Parser(state: State, buffer: string, name: string)

  /** What has been reported to the Request or the Response object. */
  datatype Report = Report(verb: Method, uri: string, code: int, headers: seq<HeaderField>)

  const NOTHING := Report(UnsupportedMethod, "", 0, [])

  // ----- classes of characters -----------------------------------------------------------------

  /** One character for each byte. */
  predicate IsLatin(s: string) { forall i :: 0 <= i < |s| ==> s[i] < 256 as char }

  predicate IsUpper(c: char) { 'A' <= c <= 'Z' }

  predicate IsDigit(c: char) { '0' <= c <= '9' }

  predicate IsControl(c: char) { c < 32 as char || c == 127 as char }

  /** strchr also finds the terminating NUL. */
  predicate IsSeparator(c: char) { c in "()<>@,;:\\\'/[]?={} \t" || c == '\0' }

  predicate IsToken(c: char) { !IsControl(c) && !IsSeparator(c) }

  predicate IsVersionChar(c: char) { c in "HTTP/0123456789." || c == '\0' }

  // ----- the rules -----------------------------------------------------------------------------

  /** Gather: characters go to the buffer, as long as it holds no more than limit, until stop;
      strict says that a buffer over the limit refuses even stop. Skip: spaces are dropped and
      the first other character begins the buffer of the next state. */
  datatype Rule =
    | Gather(stop: char, limit: nat, strict: bool, next: State)
    | Skip(next: State)
    | Expect(want: char, next: State)
    | Branch
    | Invalid

  function RuleOf(state: State): Rule {
    match state
    case RequestMethod => Gather(' ', 8, true, RequestMethodSpaces)
    case RequestMethodSpaces => Skip(RequestUri)
    case RequestUri => Gather(' ', 2048, true, RequestUriSpaces)
    case RequestUriSpaces => Skip(RequestVersion)
    case RequestVersion => Gather('\r', 8, false, RequestLineLF)
    case RequestLineLF => Expect('\n', HeaderStart)
    case ResponseVersion => Gather(' ', 8, true, ResponseVersionSpaces)
    case ResponseVersionSpaces => Skip(ResponseCode)
    case ResponseCode => Gather(' ', 3, true, ResponseCodeSpaces)
    case ResponseCodeSpaces => Skip(ResponseReason)
    case ResponseReason => Gather('\r', 128, true, ResponseReasonLF)
    case ResponseReasonLF => Expect('\n', HeaderStart)
    case HeaderStart => Branch
    case HeaderName => Gather(':', 127, false, HeaderSpaces)
    case HeaderSpaces => Skip(HeaderValue)
    case HeaderValue => Gather('\r', 1023, false, HeaderLF)
    case HeaderLF => Expect('\n', HeaderStart)
    case HeadersEndLF => Expect('\n', Body)
    case Body => Invalid
    case ErrorState => Invalid
  }

  predicate Allowed(state: State, c: char) {
    match state
    case RequestMethod => IsUpper(c)
    case RequestVersion => IsVersionChar(c)
    case ResponseCode => IsDigit(c)
    case HeaderName => IsToken(c)
    case HeaderSpaces => c != '\r'
    case _ => true
  }

  datatype Outcome = Failed | Next(parser: Parser, report: Report)

  /** The callback when the buffer of a state is complete: set_method, set_uri, set_version,
      set_code, set_reason, store_header_name or add_header. */
  function Complete(kind: Kind, p: Parser, next: State, r: Report): Outcome {
    var q := p.(state := next);
    match p.state
    case RequestMethod => if kind.Requests? && p.buffer == "GET" then Next(q, r.(verb := GetMethod)) else Failed
    case RequestUri => if kind.Requests? then Next(q, r.(uri := p.buffer)) else Failed
    case RequestVersion => if p.buffer == "HTTP/1.1" then Next(q, r) else Failed
    case ResponseVersion => if p.buffer == "HTTP/1.1" then Next(q, r) else Failed
    case ResponseCode =>
      if kind.Responses? && IsStatus(p.buffer) then Next(q, r.(code := StatusOf(p.buffer))) else Failed
    case ResponseReason => if kind.Responses? then Next(q, r) else Failed
    case HeaderName => Next(q.(name := p.buffer), r)
    case HeaderValue => Next(q, r.(headers := r.headers + [HeaderField(p.name, p.buffer)]))
    case _ => Failed
  }

  /** Three digits, from 100 to 599. */
  predicate IsStatus(s: string) {
    |s| == 3 && IsDigit(s[0]) && IsDigit(s[1]) && IsDigit(s[2]) && '1' <= s[0] <= '5'
  }

  function StatusOf(s: string): int
    requires IsStatus(s)
  {
    (s[0] as int - 48) * 100 + (s[1] as int - 48) * 10 + (s[2] as int - 48)
  }

  /** handle_char. */
  function Step(kind: Kind, p: Parser, r: Report, c: char): Outcome {
    match RuleOf(p.state)
    case Gather(stop, limit, strict, next) =>
      if |p.buffer| > limit && (strict || c != stop) then Failed
      else if c == stop then Complete(kind, p, next, r)
      else if Allowed(p.state, c) then Next(p.(buffer := p.buffer + [c]), r)
      else Failed
    case Skip(next) =>
      if c == ' ' then Next(p, r)
      else if Allowed(p.state, c) then Next(p.(buffer := [c], state := next), r)
      else Failed
    case Expect(want, next) => if c == want then Next(p.(state := next), r) else Failed
    case Branch =>
      if c == '\r' then Next(p.(state := HeadersEndLF), r)
      else if IsToken(c) then Next(p.(buffer := [c], state := HeaderName), r)
      else Failed
    case Invalid => Failed
  }

  datatype ScanResult = Malformed | Incomplete | Done(report: Report, rest: string)

  /** parse on a text: one character at a time until the blank line has been read. */
  function Scan(kind: Kind, p: Parser, r: Report, s: string): ScanResult
    decreases |s|
  {
    if p.state == Body then Done(r, s)
    else if s == "" then Incomplete
    else
      match Step(kind, p, r, s[0])
      case Failed => Malformed
      case Next(q, u) => Scan(kind, q, u, s[1..])
  }

  function Start(kind: Kind): Parser {
    Parser(if kind.Requests? then RequestMethod else ResponseVersion, "", "")
  }

  // ----- whole runs ------------------------------------------------------------------------------

  predicate Belongs(kind: Kind, state: State) {
    match state
    case RequestMethod | RequestMethodSpaces | RequestUri | RequestUriSpaces | RequestVersion | RequestLineLF =>
      kind.Requests?
    case ResponseVersion | ResponseVersionSpaces | ResponseCode | ResponseCodeSpaces | ResponseReason
      | ResponseReasonLF =>
      kind.Responses?
    case ErrorState => false
    case _ => true
  }

  function Bound(state: State): nat {
    match state
    case RequestMethod => 9
    case RequestUri => 2049
    case RequestVersion => 9
    case ResponseVersion => 9
    case ResponseCode => 4
    case ResponseReason => 129
    case HeaderName => 128
    case HeaderValue => 1024
    case _ => 2049
  }

  /** The parser is in a state of its own kind and its buffer is within the bound of the state. */
  predicate Sound(kind: Kind, p: Parser) {
    Belongs(kind, p.state) && |p.buffer| <= Bound(p.state)
  }

  /** The next character would run a callback of the other kind, or the invalid state. */
  predicate Misused(kind: Kind, p: Parser, c: char) {
    || RuleOf(p.state).Invalid?
    || (kind.Requests? && p.state in {ResponseCode, ResponseReason} && c == RuleOf(p.state).stop)
    || (kind.Responses? && p.state in {RequestMethod, RequestUri} && c == RuleOf(p.state).stop)
  }

  lemma StepStaysSound(kind: Kind, p: Parser, r: Report, c: char)
    requires Sound(kind, p) && p.state != Body
    ensures !Misused(kind, p, c)
    ensures Step(kind, p, r, c).Next? ==> Sound(kind, Step(kind, p, r, c).parser)
  {
    hide Allowed, IsToken, IsStatus, StatusOf;
  }

  /** Where the parser stands after all of s, or Failed. */
  function Run(kind: Kind, s: string): Outcome {
    if s == "" then Next(Start(kind), NOTHING)
    else
      match Run(kind, s[..|s| - 1])
      case Failed => Failed
      case Next(p, r) => if p.state == Body then Failed else Step(kind, p, r, s[|s| - 1])
  }

  /** On every input, and at every character of it, the callbacks of the other kind and the
      invalid-state branch are out of reach and the buffer is within its bound. */
  lemma {:induction false} EveryRunIsSound(kind: Kind, s: string)
    ensures Run(kind, s).Next? ==> Sound(kind, Run(kind, s).parser)
    ensures Run(kind, s).Next? && Run(kind, s).parser.state != Body ==>
              forall c :: !Misused(kind, Run(kind, s).parser, c)
  {
    if s != "" {
      EveryRunIsSound(kind, s[..|s| - 1]);
      var before := Run(kind, s[..|s| - 1]);
      if before.Next? && before.parser.state != Body {
        StepStaysSound(kind, before.parser, before.report, s[|s| - 1]);
      }
    }
    var now := Run(kind, s);
    if now.Next? && now.parser.state != Body {
      forall c
        ensures !Misused(kind, now.parser, c)
      {
        StepStaysSound(kind, now.parser, now.report, c);
      }
    }
  }
}
