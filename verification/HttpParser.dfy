/** The class HttpParser with its subclasses RequestParser and ResponseParser. A virtual call
    is a test of the kind. */
module HttpParsers {
  import opened Octets
  import opened HttpSyntax
  import opened HttpMessages
  import opened StatusCode
  import T = Transport

  /** The characters that bytes stand for. */
  function CharOf(b: Byte): char { Val(b) as char }

  function Text(bs: Bytes): (s: string)
    ensures |s| == |bs|
  {
    seq(|bs|, i requires 0 <= i < |bs| => CharOf(bs[i]))
  }

  lemma TextParts(bs: Bytes)
    requires bs != []
    ensures Text(bs)[0] == CharOf(bs[0]) && Text(bs)[1..] == Text(bs[1..])
  {
  }

  lemma ScanHead(kind: Kind, p: Parser, r: Report, s: string)
    requires p.state != Body
    ensures Scan(kind, p, r, s)
         == if s == "" then Incomplete
            else if Step(kind, p, r, s[0]).Failed? then Malformed
            else Scan(kind, Step(kind, p, r, s[0]).parser, Step(kind, p, r, s[0]).report, s[1..])
  {
  }

  lemma ScanStops(kind: Kind, p: Parser, r: Report, s: string)
    requires p.state == Body
    ensures Scan(kind, p, r, s) == Done(r, s)
  {
  }

  /** How parse ends: Parsed, or the runtime_error that it throws. */
  datatype Ending = Parsed | TimedOut | Ended | Refused

  class HttpParser {
    const kind: Kind
    const request: Request
    const response: Response

    var state: State
    var buffer: string
    var name: string

    constructor (kind: Kind, request: Request, response: Response)
      ensures this.kind == kind && this.request == request && this.response == response
      ensures name == ""
    {
      this.kind, this.request, this.response := kind, request, response;
      state, buffer, name := ErrorState, "", "";
    }

    ghost function Model(): Parser
      reads this
    {
      Parser(state, buffer, name)
    }

    ghost function Reported(): Report
      reads request, response
    {
      if kind.Requests? then request.Reported() else response.Reported()
    }

    /** What the state machine promises for the character c. */
    twostate predicate Stepped(c: char, ok: bool)
      reads this, request, response
    {
      match Step(kind, old(Model()), old(Reported()), c)
      case Failed => !ok
      case Next(q, u) => ok && Model() == q && Reported() == u
    }

    method Put(c: char)
      modifies this`buffer
      ensures buffer == old(buffer) + [c]
    {
      buffer := buffer + [c];
    }

    method Begin(c: char, next: State)
      modifies this`buffer, this`state
      ensures buffer == [c] && state == next
    {
      buffer := [];
      buffer := buffer + [c];
      state := next;
    }

    // ----- the callbacks -------------------------------------------------------------------------

    method SetMethod() returns (ok: bool)
      modifies request
      ensures ok <==> kind.Requests? && buffer == "GET"
      ensures ok ==> Reported() == old(Reported()).(verb := GetMethod)
    {
      ok := kind.Requests? && buffer == "GET";
      if ok {
        request.verb := GetMethod;
      }
    }

    method SetUri() returns (ok: bool)
      modifies request
      ensures ok <==> kind.Requests?
      ensures ok ==> Reported() == old(Reported()).(uri := buffer)
    {
      ok := kind.Requests?;
      if ok {
        request.uri := buffer;
      }
    }

    method SetCode() returns (ok: bool)
      requires |buffer| <= 3
      modifies response
      ensures ok <==> kind.Responses? && IsStatus(buffer)
      ensures ok ==> Reported() == old(Reported()).(code := StatusOf(buffer))
    {
      hide Strtol;
      AcceptedExactly(buffer);
      ok := false;
      if kind.Responses? {
        var number := Strtol(buffer);
        if number.toEnd && 100 <= number.value < 600 {
          response.code := number.value;
          ok := true;
        }
      }
    }

    method AddHeader()
      modifies request, response
      ensures Reported() == old(Reported()).(headers := old(Reported()).headers + [HeaderField(name, buffer)])
    {
      if kind.Requests? {
        request.AddHeader(name, buffer);
      } else {
        response.AddHeader(name, buffer);
      }
    }

    // ----- handle_char ---------------------------------------------------------------------------

    method HandleChar(c: char) returns (ok: bool)
      modifies this, request, response
      ensures Stepped(c, ok)
      ensures !ok ==> state == ErrorState
    {
      match state {
        case RequestMethod | RequestMethodSpaces | RequestUri | RequestUriSpaces | RequestVersion | RequestLineLF =>
          ok := HandleRequestChar(c);
        case ResponseVersion | ResponseVersionSpaces | ResponseCode | ResponseCodeSpaces | ResponseReason
          | ResponseReasonLF =>
          ok := HandleResponseChar(c);
        case HeaderStart | HeaderName | HeaderSpaces | HeaderValue | HeaderLF | HeadersEndLF =>
          ok := HandleHeaderChar(c);
        case Body | ErrorState =>
          ok := false;
      }
      if !ok {
        state := ErrorState;
      }
    }

    method HandleRequestChar(c: char) returns (ok: bool)
      requires state in {RequestMethod, RequestMethodSpaces, RequestUri, RequestUriSpaces,
                         RequestVersion, RequestLineLF}
      modifies this, request, response
      ensures Stepped(c, ok)
    {
      hide IsVersionChar, IsUpper;
      ok := true;
      match state
      case RequestMethod =>
        if |buffer| > 8 {
          ok := false;
        } else if c == ' ' {
          ok := SetMethod();
          state := RequestMethodSpaces;
        } else if IsUpper(c) {
          Put(c);
        } else {
          ok := false;
        }
      case RequestMethodSpaces =>
        if c != ' ' {
          Begin(c, RequestUri);
        }
      case RequestUri =>
        if |buffer| > 2048 {
          ok := false;
        } else if c == ' ' {
          ok := SetUri();
          state := RequestUriSpaces;
        } else {
          Put(c);
        }
      case RequestUriSpaces =>
        if c != ' ' {
          Begin(c, RequestVersion);
        }
      case RequestVersion =>
        if c == '\r' {
          ok := buffer == "HTTP/1.1";
          state := RequestLineLF;
        } else if |buffer| > 8 || !IsVersionChar(c) {
          ok := false;
        } else {
          Put(c);
        }
      case RequestLineLF =>
        ok := c == '\n';
        state := HeaderStart;
    }

    method HandleResponseChar(c: char) returns (ok: bool)
      requires state in {ResponseVersion, ResponseVersionSpaces, ResponseCode, ResponseCodeSpaces,
                         ResponseReason, ResponseReasonLF}
      modifies this, request, response
      ensures Stepped(c, ok)
    {
      hide IsStatus, StatusOf, IsDigit;
      ok := true;
      match state
      case ResponseVersion =>
        if |buffer| > 8 {
          ok := false;
        } else if c == ' ' {
          ok := buffer == "HTTP/1.1";
          state := ResponseVersionSpaces;
        } else {
          Put(c);
        }
      case ResponseVersionSpaces =>
        if c != ' ' {
          Begin(c, ResponseCode);
        }
      case ResponseCode =>
        if |buffer| > 3 {
          ok := false;
        } else if c == ' ' {
          ok := SetCode();
          state := ResponseCodeSpaces;
        } else if IsDigit(c) {
          Put(c);
        } else {
          ok := false;
        }
      case ResponseCodeSpaces =>
        if c != ' ' {
          Begin(c, ResponseReason);
        }
      case ResponseReason =>
        if |buffer| > 128 {
          ok := false;
        } else if c == '\r' {
          ok := kind.Responses?;
          state := ResponseReasonLF;
        } else {
          Put(c);
        }
      case ResponseReasonLF =>
        ok := c == '\n';
        state := HeaderStart;
    }

    method HandleHeaderChar(c: char) returns (ok: bool)
      requires state in {HeaderStart, HeaderName, HeaderSpaces, HeaderValue, HeaderLF, HeadersEndLF}
      modifies this, request, response
      ensures Stepped(c, ok)
    {
      hide IsToken;
      ok := true;
      match state
      case HeaderStart =>
        if c == '\r' {
          state := HeadersEndLF;
        } else if IsToken(c) {
          Begin(c, HeaderName);
        } else {
          ok := false;
        }
      case HeaderName =>
        if c == ':' {
          name := buffer;
          state := HeaderSpaces;
        } else if IsToken(c) && |buffer| < 128 {
          Put(c);
        } else {
          ok := false;
        }
      case HeaderSpaces =>
        if c == ' ' {
        } else if c == '\r' {
          ok := false;
        } else {
          Begin(c, HeaderValue);
        }
      case HeaderValue =>
        if c == '\r' {
          AddHeader();
          state := HeaderLF;
        } else if |buffer| < 1024 {
          Put(c);
        } else {
          ok := false;
        }
      case HeaderLF =>
        ok := c == '\n';
        state := HeaderStart;
      case HeadersEndLF =>
        ok := c == '\n';
        state := Body;
    }

    // ----- parse ---------------------------------------------------------------------------------

    /** read_char: Parsed means that a character was handled. */
    method ReadChar(socket: T.Socket) returns (end: Ending)
      requires socket.connected && state != Body
      modifies this, request, response, socket`input
      ensures var scan := Scan(kind, old(Model()), old(Reported()), old(Text(socket.input)));
              match end
              case Parsed => scan == Scan(kind, Model(), Reported(), Text(socket.input))
              case Refused => scan == Malformed
              case Ended => scan == Incomplete
              case TimedOut => false
      ensures end.Parsed? ==> old(socket.input) != [] && socket.input == old(socket.input)[1..]
    {
      hide Step, CharOf, Scan, Text;
      var b := new Byte[1];
      ghost var input := socket.input;
      ScanHead(kind, Model(), Reported(), Text(input));
      var success := socket.Read(b, 1);
      if !success {
        return Ended;
      }
      TextParts(input);
      assert b[..1][0] == b[0];
      var ok := HandleChar(CharOf(b[0]));
      end := if ok then Parsed else Refused;
    }

    /** parse_request or parse_response: one byte at a time, until the blank line has been read.
        The bytes behind it stay in the socket. */
    method Parse(socket: T.Socket) returns (end: Ending)
      modifies this, request, response, socket`input, socket`trouble
      ensures var p := Start(kind).(name := old(name));
              var scan := Scan(kind, p, old(Reported()), old(Text(socket.input)));
              match end
              case Parsed => scan == Done(Reported(), Text(socket.input))
              case Refused => scan == Malformed
              case Ended => scan == Incomplete
              case TimedOut => true
      ensures end.TimedOut? <==> socket.trouble != old(socket.trouble)
      ensures end.Parsed? ==>
                |socket.input| <= |old(socket.input)|
                && socket.input == old(socket.input)[|old(socket.input)| - |socket.input|..]
    {
      hide Step, Scan, Text;
      state := if kind.Requests? then RequestMethod else ResponseVersion;
      buffer := "";
      ghost var p, r0, s0, input0 := Model(), Reported(), Text(socket.input), socket.input;
      while true
        invariant state != Body && p == Start(kind).(name := old(name))
        invariant Scan(kind, p, r0, s0) == Scan(kind, Model(), Reported(), Text(socket.input))
        invariant socket.trouble == old(socket.trouble)
        invariant |socket.input| <= |input0| && socket.input == input0[|input0| - |socket.input|..]
        decreases |socket.input|
      {
        var status := socket.Wait();
        if status != T.WaitOk {
          return TimedOut;
        }
        end := ReadChar(socket);
        if end != Parsed {
          return;
        }
        if state == Body {
          ScanStops(kind, Model(), Reported(), Text(socket.input));
          break;
        }
      }
    }
  }
}
