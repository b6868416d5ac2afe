/** The Request and Response objects: what the parser reports to them, and the checks of the
    upgrade handshake. */
module HttpMessages {
  import opened Wrappers
  import opened HttpSyntax
  import B = Base64

  /** The value of the first header of that name. */
  function Lookup(hs: seq<HeaderField>, name: string): Option<string> {
    if hs == [] then None
    else if hs[0].name == name then Some(hs[0].value)
    else Lookup(hs[1..], name)
  }

  /** Some header has the name; its first value is the one that counts. */
  lemma {:induction false} LookupIsFirst(hs: seq<HeaderField>, name: string, i: nat)
    requires i < |hs| && hs[i].name == name && forall j :: 0 <= j < i ==> hs[j].name != name
    ensures Lookup(hs, name) == Some(hs[i].value)
  {
    if i > 0 {
      assert hs[0].name != name;
      forall j | 0 <= j < i - 1
        ensures hs[1..][j].name != name
      {
        assert hs[1..][j] == hs[j + 1];
      }
      LookupIsFirst(hs[1..], name, i - 1);
    }
  }

  lemma {:induction false} LookupFindsNothing(hs: seq<HeaderField>, name: string)
    requires forall j :: 0 <= j < |hs| ==> hs[j].name != name
    ensures Lookup(hs, name) == None
  {
    if hs != [] {
      assert hs[0].name != name;
      forall j | 0 <= j < |hs| - 1
        ensures hs[1..][j].name != name
      {
        assert hs[1..][j] == hs[j + 1];
      }
      LookupFindsNothing(hs[1..], name);
    }
  }

  /** The first header of that name is there, and has this value. */
  predicate HasFirst(hs: seq<HeaderField>, name: string, value: string) {
    exists i :: 0 <= i < |hs| && hs[i] == HeaderField(name, value) && forall j :: 0 <= j < i ==> hs[j].name != name
  }

  lemma LookupExactly(hs: seq<HeaderField>, name: string, value: string)
    ensures Lookup(hs, name) == Some(value) <==> HasFirst(hs, name, value)
  {
    var i := 0;
    while i < |hs| && hs[i].name != name
      invariant i <= |hs| && forall j :: 0 <= j < i ==> hs[j].name != name
    {
      i := i + 1;
    }
    if i < |hs| {
      LookupIsFirst(hs, name, i);
    } else {
      LookupFindsNothing(hs, name);
    }
  }

  /** get_header_value: the same loop in both classes. */
  method FindHeader(hs: seq<HeaderField>, name: string) returns (found: bool, value: string)
    ensures Lookup(hs, name) == if found then Some(value) else None
    ensures !found ==> value == ""
  {
    found, value := false, "";
    var i := 0;
    while i < |hs|
      invariant i <= |hs| && !found && value == ""
      invariant forall j :: 0 <= j < i ==> hs[j].name != name
    {
      if name == hs[i].name {
        LookupIsFirst(hs, name, i);
        return true, hs[i].value;
      }
      i := i + 1;
    }
    LookupFindsNothing(hs, name);
  }

  predicate OccursIn(word: string, s: string) {
    exists i :: 0 <= i <= |s| - |word| && Occurs(word, s, i)
  }

  predicate Occurs(word: string, s: string, i: nat)
    requires i + |word| <= |s|
  {
    s[i..i + |word|] == word
  }

  /** The word occurs exactly in the texts that have it somewhere between two others. */
  lemma OccursExactly(word: string, s: string)
    ensures OccursIn(word, s) <==> exists a: string, b: string :: s == a + word + b
  {
    if OccursIn(word, s) {
      var i :| 0 <= i <= |s| - |word| && Occurs(word, s, i);
      assert s == s[..i] + word + s[i + |word|..];
    }
    forall a: string, b: string | s == a + word + b
      ensures OccursIn(word, s)
    {
      OccursBetween(a, word, b);
    }
  }

  lemma OccursBetween(a: string, word: string, b: string)
    ensures OccursIn(word, a + word + b)
  {
    assert (a + word + b)[|a|..|a| + |word|] == word;
    assert Occurs(word, a + word + b, |a|);
  }

  predicate IsWebSocketKey(key: string) {
    |key| == 24 && key[22] == '=' && key[23] == '=' && B.IsBase64String(key)
  }

  /** The five checks of Request::assert_websocket. */
  predicate IsUpgradeRequest(r: Report) {
    && r.verb == GetMethod
    && (match Lookup(r.headers, "Sec-WebSocket-Key") case None => false case Some(key) => IsWebSocketKey(key))
    && Lookup(r.headers, "Sec-WebSocket-Version") == Some("13")
    && (match Lookup(r.headers, "Connection")
        case None => false
        case Some(v) => OccursIn("Upgrade", v) || OccursIn("upgrade", v))
    && Lookup(r.headers, "Upgrade") == Some("websocket")
  }

  /** The four checks of Response::assert_websocket. */
  predicate IsUpgradeResponse(r: Report, accept: string) {
    && r.code == 101
    && Lookup(r.headers, "Connection") in {Some("Upgrade"), Some("upgrade")}
    && Lookup(r.headers, "Upgrade") == Some("websocket")
    && Lookup(r.headers, "Sec-WebSocket-Accept") == Some(accept)
  }

  /** Twenty-two letters of the alphabet of base64 and two '='. */
  predicate IsKeyText(key: string) {
    && |key| == 24 && key[22..] == "=="
    && forall i :: 0 <= i < 22 ==>
         'A' <= key[i] <= 'Z' || 'a' <= key[i] <= 'z' || '0' <= key[i] <= '9' || key[i] == '+' || key[i] == '/'
  }

  lemma KeyExactly(key: string)
    ensures IsWebSocketKey(key) <==> IsKeyText(key)
  {
    if IsWebSocketKey(key) {
      var k :| 0 <= k <= 2 && k < |key| && B.LettersThenPads(key, k);
      assert !B.IsLetter(key[22]) && !B.IsLetter(key[23]);
      assert k == 2;
      assert key[22..] == [key[22], key[23]];
    }
    if IsKeyText(key) {
      assert key[22..][0] == key[22] && key[22..][1] == key[23];
      assert B.LettersThenPads(key, 2);
    }
  }

  /** Exactly which reports pass as upgrade requests: the word may stand anywhere in Connection. */
  lemma UpgradeRequestsExactly(r: Report)
    ensures IsUpgradeRequest(r)
            <==> && r.verb == GetMethod
                 && (exists key :: IsKeyText(key) && HasFirst(r.headers, "Sec-WebSocket-Key", key))
                 && HasFirst(r.headers, "Sec-WebSocket-Version", "13")
                 && (exists a: string, b: string :: || HasFirst(r.headers, "Connection", a + "Upgrade" + b)
                                                    || HasFirst(r.headers, "Connection", a + "upgrade" + b))
                 && HasFirst(r.headers, "Upgrade", "websocket")
  {
    hide Lookup, IsWebSocketKey, IsKeyText, OccursIn, HasFirst;
    var hs := r.headers;
    LookupExactly(hs, "Sec-WebSocket-Version", "13");
    LookupExactly(hs, "Upgrade", "websocket");
    KeysExactly(hs);
    ConnectionsExactly(hs);
  }

  lemma KeysExactly(hs: seq<HeaderField>)
    ensures (match Lookup(hs, "Sec-WebSocket-Key") case None => false case Some(key) => IsWebSocketKey(key))
            <==> exists key :: IsKeyText(key) && HasFirst(hs, "Sec-WebSocket-Key", key)
  {
    hide Lookup, IsWebSocketKey, IsKeyText, HasFirst;
    forall key
      ensures Lookup(hs, "Sec-WebSocket-Key") == Some(key) <==> HasFirst(hs, "Sec-WebSocket-Key", key)
      ensures IsWebSocketKey(key) <==> IsKeyText(key)
    {
      LookupExactly(hs, "Sec-WebSocket-Key", key);
      KeyExactly(key);
    }
  }

  lemma ConnectionsExactly(hs: seq<HeaderField>)
    ensures (match Lookup(hs, "Connection")
             case None => false
             case Some(v) => OccursIn("Upgrade", v) || OccursIn("upgrade", v))
            <==> exists a: string, b: string :: || HasFirst(hs, "Connection", a + "Upgrade" + b)
                                                || HasFirst(hs, "Connection", a + "upgrade" + b)
  {
    hide Lookup, OccursIn, HasFirst;
    forall v
      ensures Lookup(hs, "Connection") == Some(v) <==> HasFirst(hs, "Connection", v)
    {
      LookupExactly(hs, "Connection", v);
    }
    if v :| HasFirst(hs, "Connection", v) {
      OccursExactly("Upgrade", v);
      OccursExactly("upgrade", v);
    }
    forall a: string, b: string | || HasFirst(hs, "Connection", a + "Upgrade" + b)
                                  || HasFirst(hs, "Connection", a + "upgrade" + b)
      ensures exists v :: HasFirst(hs, "Connection", v) && (OccursIn("Upgrade", v) || OccursIn("upgrade", v))
    {
      OccursBetween(a, "Upgrade", b);
      OccursBetween(a, "upgrade", b);
    }
  }

  /** Exactly which reports pass as the response for an accept string. */
  lemma UpgradeResponsesExactly(r: Report, accept: string)
    ensures IsUpgradeResponse(r, accept)
            <==> && r.code == 101
                 && (HasFirst(r.headers, "Connection", "Upgrade") || HasFirst(r.headers, "Connection", "upgrade"))
                 && HasFirst(r.headers, "Upgrade", "websocket") && HasFirst(r.headers, "Sec-WebSocket-Accept", accept)
  {
    hide Lookup, HasFirst;
    LookupExactly(r.headers, "Connection", "Upgrade");
    LookupExactly(r.headers, "Connection", "upgrade");
    LookupExactly(r.headers, "Upgrade", "websocket");
    LookupExactly(r.headers, "Sec-WebSocket-Accept", accept);
  }

  class Request {
    var verb: Method
    var uri: string
    var headers: seq<HeaderField>

    constructor ()
      ensures Reported() == NOTHING
    {
      verb, uri, headers := UnsupportedMethod, "", [];
    }

    ghost function Reported(): Report
      reads this
    {
      Report(verb, uri, 0, headers)
    }

    method AddHeader(name: string, value: string)
      modifies this`headers
      ensures headers == old(headers) + [HeaderField(name, value)]
    {
      headers := headers + [HeaderField(name, value)];
    }

    method AssertWebSocket() returns (ok: bool)
      ensures ok <==> IsUpgradeRequest(Reported())
    {
      hide Lookup, IsWebSocketKey, OccursIn;
      if verb != GetMethod {
        return false;
      }
      var found, key := FindHeader(headers, "Sec-WebSocket-Key");
      if !found || !IsWebSocketKey(key) {
        return false;
      }
      var value;
      found, value := FindHeader(headers, "Sec-WebSocket-Version");
      if !found || value != "13" {
        return false;
      }
      found, value := FindHeader(headers, "Connection");
      if !found || !(OccursIn("Upgrade", value) || OccursIn("upgrade", value)) {
        return false;
      }
      found, value := FindHeader(headers, "Upgrade");
      ok := found && value == "websocket";
    }
  }

  class Response {
    var code: int
    var headers: seq<HeaderField>

    constructor ()
      ensures Reported() == NOTHING
    {
      code, headers := 0, [];
    }

    ghost function Reported(): Report
      reads this
    {
      Report(UnsupportedMethod, "", code, headers)
    }

    method AddHeader(name: string, value: string)
      modifies this`headers
      ensures headers == old(headers) + [HeaderField(name, value)]
    {
      headers := headers + [HeaderField(name, value)];
    }

    method HeaderEquals(name: string, expected: string) returns (same: bool)
      ensures same <==> Lookup(headers, name) == Some(expected)
    {
      var found, value := FindHeader(headers, name);
      same := found && value == expected;
    }

    method AssertWebSocket(accept: string) returns (ok: bool)
      ensures ok <==> IsUpgradeResponse(Reported(), accept)
    {
      hide Lookup;
      if code != 101 {
        return false;
      }
      var upper := HeaderEquals("Connection", "Upgrade");
      var lower := HeaderEquals("Connection", "upgrade");
      if !upper && !lower {
        return false;
      }
      var upgrade := HeaderEquals("Upgrade", "websocket");
      var accepted := HeaderEquals("Sec-WebSocket-Accept", accept);
      ok := upgrade && accepted;
    }
  }
}
