/** Where the characters that the parser takes differ from the grammar of section 2.2 of RFC 2616. */
module HttpGrammar {
  import opened HttpSyntax
  import opened HttpHeaders

  predicate RfcSeparator(c: char) { c in "()<>@,;:\\\"/[]?={} \t" }

  /** CHAR without CTL and separators: a printing character that is no separator. */
  predicate RfcToken(c: char) { 32 as char <= c < 127 as char && !RfcSeparator(c) }

  predicate RfcName(s: string) { s != "" && forall i :: 0 <= i < |s| ==> RfcToken(s[i]) }

  lemma SeparatorsAgree(c: char)
    requires c != '"' && c != '\'' && !IsControl(c)
    ensures IsSeparator(c) <==> RfcSeparator(c)
  {
  }

  lemma Quotes()
    ensures RfcSeparator('"') && !IsSeparator('"')
    ensures IsSeparator('\'') && !RfcSeparator('\'')
  {
    assert "()<>@,;:\\\'/[]?={} \t"[9] == '\'' && "()<>@,;:\\\"/[]?={} \t"[9] == '"';
  }

  lemma HighAreNoSeparators(c: char)
    requires c >= 128 as char
    ensures !IsSeparator(c) && !RfcSeparator(c)
  {
  }

  /** For every byte: the code's token characters are those of the grammar, except that it takes a
      double quote and everything above 127, and refuses a single quote. */
  lemma TokenExactly(c: char)
    requires c < 256 as char
    ensures IsToken(c) == RfcToken(c) <==> c != '"' && c != '\'' && c < 128 as char
    ensures c == '"' || c >= 128 as char ==> IsToken(c) && !RfcToken(c)
    ensures c == '\'' ==> RfcToken(c) && !IsToken(c)
  {
    hide IsSeparator, RfcSeparator;
    Quotes();
    if c >= 128 as char {
      HighAreNoSeparators(c);
    } else if c != '"' && c != '\'' && !IsControl(c) {
      SeparatorsAgree(c);
    }
  }

  /** A character that the code takes and the grammar does not. */
  predicate HasExtra(s: string) { exists i :: 0 <= i < |s| && (s[i] == '"' || s[i] >= 128 as char) }

  /** Something that the grammar takes and the code does not. */
  predicate HasMissing(s: string) { |s| > 128 || exists i :: 0 <= i < |s| && s[i] == '\'' }

  /** When the two disagree about a header name, and in which way. */
  lemma NameExactly(s: string)
    requires IsLatin(s)
    ensures IsName(s) && !RfcName(s) <==> IsName(s) && HasExtra(s)
    ensures RfcName(s) && !IsName(s) <==> RfcName(s) && HasMissing(s)
    ensures !HasExtra(s) && !HasMissing(s) ==> (IsName(s) <==> RfcName(s))
  {
    hide IsToken, RfcToken;
    forall i | 0 <= i < |s|
      ensures IsToken(s[i]) == RfcToken(s[i]) <==> s[i] != '"' && s[i] != '\'' && s[i] < 128 as char
      ensures s[i] == '"' || s[i] >= 128 as char ==> IsToken(s[i]) && !RfcToken(s[i])
      ensures s[i] == '\'' ==> RfcToken(s[i]) && !IsToken(s[i])
    {
      TokenExactly(s[i]);
    }
  }

  /** A header line and the blank line are parsed, with this name, if and only if the code takes the
      name; the grammar would agree if and only if the name has nothing that only one of them takes. */
  lemma HeaderNameExactly(kind: Kind, p: Parser, r: Report, name: string, value: string)
    requires p.state == HeaderStart && IsValue(value) && IsLatin(name)
    ensures var found := r.(headers := r.headers + [HeaderField(name, value)]);
            var parsed := Scan(kind, p, r, RenderAll([Line(name, 1, value)])) == Done(found, "");
            && (parsed <==> IsName(name))
            && ((parsed <==> RfcName(name))
                <==> !(IsName(name) && HasExtra(name)) && !(RfcName(name) && HasMissing(name)))
  {
    hide Scan, IsName, RfcName, HasExtra, HasMissing, RenderAll, IsValue;
    var fs := [Line(name, 1, value)];
    var s := RenderAll(fs);
    var found := r.(headers := r.headers + [HeaderField(name, value)]);
    assert s + "" == s;
    HeadersExactly(kind, p, r, s, found, "");
    assert AddHeaders(r, fs) == found;
    if Scan(kind, p, r, s) == Done(found, "") {
      var gs :| AreLines(gs) && s == RenderAll(gs) + "" && found == AddHeaders(r, gs);
      OneField(r, gs, name, value);
    }
    NameExactly(name);
  }

  lemma OneField(r: Report, gs: seq<Line>, name: string, value: string)
    requires AreLines(gs) && AddHeaders(r, gs) == r.(headers := r.headers + [HeaderField(name, value)])
    ensures IsName(name)
  {
    hide IsName, IsValue;
    var one := [HeaderField(name, value)];
    assert (r.headers + Fields(gs))[|r.headers|..] == Fields(gs);
    assert (r.headers + one)[|r.headers|..] == one;
    assert |Fields(gs)| == |gs| == 1 && Fields(gs)[0] == HeaderField(gs[0].name, gs[0].value);
  }

  // ----- the other classes -------------------------------------------------------------------------

  /** By their numbers: capitals, digits, and what may stand in a version, NUL among it. */
  lemma ClassesAre(c: char)
    ensures IsUpper(c) <==> 65 <= c as int <= 90
    ensures IsDigit(c) <==> 48 <= c as int <= 57
    ensures IsVersionChar(c) <==> c as int in {0, 72, 80, 84} || 46 <= c as int <= 57
  {
  }

  // ----- a NUL in the version --------------------------------------------------------------------

  predicate HasNul(s: string) { exists i :: 0 <= i < |s| && s[i] == '\0' }

  /** The NUL that is_valid_version_char lets through never gets past set_version. */
  lemma {:induction false} NulIsRefused(kind: Kind, p: Parser, r: Report, s: string)
    requires p.state == RequestVersion && HasNul(p.buffer)
    ensures !Scan(kind, p, r, s).Done?
    decreases |s|
  {
    hide HasNul;
    if s != "" {
      NulStays(kind, p, r, s[0]);
      var next := Step(kind, p, r, s[0]);
      if next.Next? {
        NulIsRefused(kind, next.parser, next.report, s[1..]);
      }
    }
  }

  lemma NulStays(kind: Kind, p: Parser, r: Report, c: char)
    requires p.state == RequestVersion && HasNul(p.buffer)
    ensures var next := Step(kind, p, r, c);
            next.Next? ==> next.parser.state == RequestVersion && HasNul(next.parser.buffer)
  {
    hide IsVersionChar;
    var i :| 0 <= i < |p.buffer| && p.buffer[i] == '\0';
    assert (p.buffer + [c])[i] == '\0';
    if p.buffer == "HTTP/1.1" {
      NoNul(i);
    }
  }

  lemma NoNul(i: nat)
    requires i < 8
    ensures "HTTP/1.1"[i] != '\0'
  {
  }
}
