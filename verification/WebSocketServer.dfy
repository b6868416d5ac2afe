/** The server: it accepts connections, listens to its links, and drops the closed ones. */
module WebSocketServers {
  import opened Octets
  import opened Frames
  import opened Messages
  import opened Runs
  import opened Transport
  import opened WebSockets
  import opened Polling
  import HttpSyntax
  import HttpMessages
  import HttpParsers
  import Handshake

  /** A message that has been handed to the listener. */
  datatype Delivery = Delivery(link: WebSocket, message: Bytes, isText: bool)

  /** What a link was like before its turn. */
  datatype Snapshot = Snapshot(from: Origin, base: Bytes, connected: bool, trouble: Trouble)

  ghost function SnapshotOf(l: WebSocket): Snapshot
    reads l, l.socket
  {
    Snapshot(l.From(l.events + [Call]), l.base, l.socket.connected, l.socket.trouble)
  }

  /** What came of a link in its turn: nothing, or what its recv returned. */
  datatype Turn =
    | Skipped
    | Heard(status: RecvStatus, message: Bytes, n: nat, done: seq<Reply>, code: nat)

  /** The socket has failed a call since. */
  ghost predicate Faulted(before: Snapshot, l: WebSocket)
    reads l.socket
  {
    l.socket.trouble.faults > before.trouble.faults
  }

  /** The link has had its turn: that of recv when it was connected. */
  ghost predicate HadTurn(before: Snapshot, l: WebSocket, turn: Turn)
    reads l, l.socket
  {
    match turn
    case Skipped => !before.connected && SnapshotOf(l) == before
    case Heard(status, message, n, done, code) =>
      && before.connected && l.base == before.base
      && (status in {RecvFailed, RecvClosed} ==> !l.socket.connected)
      && (status == RecvTimeOut ==>
            |l.socket.input| < |before.from.input| || l.socket.trouble.timeouts > before.trouble.timeouts)
      && (status != RecvFailed ==>
            l.Ended(before.from, true, Ok((status, message)), n, done))
      && (status == RecvClosed && !Faulted(before, l) ==>
            Receive(l.side, before.from.input, before.from.assembly).Closed? && l.LastIsWhole())
      && (status == RecvFailed ==>
            && (code == INTERNAL_ERROR
                || Receive(l.side, before.from.input, before.from.assembly) == Failed(code, done))
            && (Faulted(before, l)
                || (Receive(l.side, before.from.input, before.from.assembly) == Failed(code, done)
                    && l.LastIsWhole()))
            && Contents(l.sent) == Contents(before.from.sent) + done + [CloseFrame(code)])
  }

  /** The messages that the turns of some links bring. */
  function Deliveries(links: seq<WebSocket>, turns: seq<Turn>): seq<Delivery>
    requires |links| == |turns|
  {
    if links == [] then []
    else
      Deliveries(links[..|links| - 1], turns[..|links| - 1]) + DeliveryOf(links[|links| - 1], turns[|links| - 1])
  }

  lemma NoDeliveries(links: seq<WebSocket>, turns: seq<Turn>)
    requires links == [] && turns == []
    ensures Deliveries(links, turns) == []
  {
  }

  lemma OneMoreDelivery(links: seq<WebSocket>, turns: seq<Turn>, l: WebSocket, t: Turn)
    requires |links| == |turns|
    ensures Deliveries(links + [l], turns + [t]) == Deliveries(links, turns) + DeliveryOf(l, t)
  {
    assert (links + [l])[..|links|] == links && (turns + [t])[..|turns|] == turns;
  }

  function DeliveryOf(l: WebSocket, t: Turn): seq<Delivery> {
    if t.Heard? && t.status in {RecvText, RecvBinary} then [Delivery(l, t.message, t.status == RecvText)] else []
  }

  /** remove_if with !is_connected. */
  ghost function StillConnected(links: seq<WebSocket>): seq<WebSocket>
    reads Sockets(links)
  {
    if links == [] then []
    else
      StillConnected(links[..|links| - 1])
      + if links[|links| - 1].socket.connected then [links[|links| - 1]] else []
  }

  ghost function Sockets(links: seq<WebSocket>): set<Socket> {
    set i | 0 <= i < |links| :: links[i].socket
  }

  predicate Increasing(at: seq<nat>, bound: nat) {
    && (forall j :: 0 <= j < |at| ==> at[j] < bound)
    && (forall j, k :: 0 <= j < k < |at| ==> at[j] < at[k])
  }

  /** The links that stay are exactly the connected ones, in their old order. */
  lemma {:induction false} StillConnectedKeepsOrder(links: seq<WebSocket>) returns (at: seq<nat>)
    ensures Increasing(at, |links|) && |StillConnected(links)| == |at|
    ensures forall k :: 0 <= k < |at| ==> StillConnected(links)[k] == links[at[k]]
    ensures forall i :: 0 <= i < |links| ==> (i in at <==> links[i].socket.connected)
  {
    if links == [] {
      at := [];
    } else {
      var n := |links| - 1;
      at := StillConnectedKeepsOrder(links[..n]);
      ghost var before := at;
      if links[n].socket.connected {
        at := at + [n];
      }
      forall i | 0 <= i < |links|
        ensures i in at <==> links[i].socket.connected
      {
        if i < n {
          assert links[..n][i] == links[i];
        }
      }
    }
  }

  twostate lemma {:induction false} SameConnected(links: seq<WebSocket>)
    requires forall i :: 0 <= i < |links| ==> links[i].socket.connected == old(links[i].socket.connected)
    ensures StillConnected(links) == old(StillConnected(links))
  {
    if links != [] {
      SameConnected(links[..|links| - 1]);
    }
  }

  lemma {:induction false} KeptAreLinks(links: seq<WebSocket>)
    ensures forall k :: 0 <= k < |StillConnected(links)| ==> StillConnected(links)[k] in links
    ensures AreDistinct(links) ==> AreDistinct(StillConnected(links))
  {
    var at := StillConnectedKeepsOrder(links);
  }

  /** No two links share an object or a socket. */
  predicate AreDistinct(links: seq<WebSocket>) {
    forall i, j :: 0 <= i < j < |links| ==> links[i] != links[j] && links[i].socket != links[j].socket
  }

  /** What a connection was like when it was accepted. */
  datatype Waiting = Waiting(input: Bytes, output: Bytes, trouble: Trouble)

  ghost function WaitingOn(socket: Socket): Waiting
    reads socket
  {
    Waiting(socket.input, socket.output, socket.trouble)
  }

  ghost function AllWaiting(sockets: seq<Socket>): (was: seq<Waiting>)
    reads sockets
    ensures |was| == |sockets|
  {
    if sockets == [] then [] else AllWaiting(sockets[..|sockets| - 1]) + [WaitingOn(sockets[|sockets| - 1])]
  }

  lemma {:induction false} AllWaitingAt(sockets: seq<Socket>, j: nat)
    requires j < |sockets|
    ensures AllWaiting(sockets)[j] == WaitingOn(sockets[j])
  {
    if j < |sockets| - 1 {
      AllWaitingAt(sockets[..|sockets| - 1], j);
    }
  }

  /** A link that has just been made of a connection. */
  ghost predicate IsNew(link: Snapshot, was: Waiting) {
    && Handshake.Upgraded(was.input, was.output, link.from.input, link.base)
    && link.from.sent == [] && link.from.history == [Call] && !link.from.assembly.isContinuation && link.connected
  }

  /** What came of a connection: a link on its socket, or null and a closed socket, because it did
      not ask for an upgrade or because the socket failed or had nothing to say. */
  ghost predicate Settled(socket: Socket, was: Waiting, link: WebSocket?)
    reads socket, link
  {
    if link == null then !socket.connected && (!Handshake.Acceptable(was.input) || socket.trouble != was.trouble)
    else link.socket == socket && IsNew(SnapshotOf(link), was)
  }

  ghost predicate AllSettled(sockets: seq<Socket>, was: seq<Waiting>, results: seq<WebSocket?>)
    requires |results| <= |sockets| == |was|
    reads sockets, results
  {
    forall j :: 0 <= j < |results| ==> Settled(sockets[j], was[j], results[j])
  }

  /** These connections are as they were. */
  ghost predicate Wait(sockets: seq<Socket>, was: seq<Waiting>)
    requires |sockets| == |was|
    reads sockets
  {
    forall j :: 0 <= j < |sockets| ==> WaitingOn(sockets[j]) == was[j]
  }

  lemma AllWait(sockets: seq<Socket>, was: seq<Waiting>)
    requires was == AllWaiting(sockets)
    ensures Wait(sockets, was) && AllSettled(sockets[..0], was[..0], [])
  {
    hide WaitingOn, AllWaiting;
    forall j | 0 <= j < |sockets|
      ensures WaitingOn(sockets[j]) == was[j]
    {
      AllWaitingAt(sockets, j);
    }
  }

  lemma NextWaits(sockets: seq<Socket>, was: seq<Waiting>, n: nat)
    requires n < |sockets| == |was| && Wait(sockets[n..], was[n..])
    ensures WaitingOn(sockets[n]) == was[n] && Wait(sockets[n + 1..], was[n + 1..])
  {
    hide WaitingOn;
    assert sockets[n..][0] == sockets[n] && was[n..][0] == was[n];
    var later, were := sockets[n + 1..], was[n + 1..];
    forall j | 0 <= j < |later|
      ensures WaitingOn(later[j]) == were[j]
    {
      assert sockets[n..][j + 1] == later[j] && was[n..][j + 1] == were[j];
    }
  }

  lemma OneMoreSettled(sockets: seq<Socket>, was: seq<Waiting>, results: seq<WebSocket?>, link: WebSocket?)
    requires |results| < |sockets| == |was|
    requires AllSettled(sockets[..|results|], was[..|results|], results)
    requires Settled(sockets[|results|], was[|results|], link)
    ensures AllSettled(sockets[..|results| + 1], was[..|results| + 1], results + [link])
  {
    hide Settled;
    forall j | 0 <= j < |results|
      ensures Settled(sockets[j], was[j], results[j])
    {
      assert sockets[..|results|][j] == sockets[j] && was[..|results|][j] == was[j];
    }
  }

  lemma SettledSoFar(sockets: seq<Socket>, was: seq<Waiting>, results: seq<WebSocket?>)
    requires |results| <= |sockets| == |was| && AllSettled(sockets[..|results|], was[..|results|], results)
    ensures AllSettled(sockets, was, results)
  {
    hide Settled;
    forall j | 0 <= j < |results|
      ensures Settled(sockets[j], was[j], results[j])
    {
      assert sockets[..|results|][j] == sockets[j] && was[..|results|][j] == was[j];
    }
  }

  /** The links that are new stand on the sockets of their connections. */
  ghost predicate AllNew(before: map<WebSocket, Snapshot>, sockets: seq<Socket>, was: seq<Waiting>,
                         results: seq<WebSocket?>)
    requires |results| <= |sockets| == |was|
  {
    forall j :: 0 <= j < |results| && results[j] != null ==>
      results[j] in before && results[j].socket == sockets[j] && IsNew(before[results[j]], was[j])
  }

  ghost function Snapshots(links: seq<WebSocket>): map<WebSocket, Snapshot>
    reads links, Sockets(links)
  {
    map l | l in links :: SnapshotOf(l)
  }

  lemma SettledSockets(sockets: seq<Socket>, was: seq<Waiting>, results: seq<WebSocket?>)
    requires |results| <= |sockets| == |was| && AllSettled(sockets, was, results)
    ensures forall j :: 0 <= j < |results| && results[j] != null ==> results[j].socket == sockets[j]
  {
    hide IsNew;
  }

  /** Every link is an old one or was made of a connection, and so is its socket. */
  lemma StandOn(before: seq<WebSocket>, sockets: seq<Socket>, results: seq<WebSocket?>)
    requires |results| <= |sockets|
    requires forall j :: 0 <= j < |results| && results[j] != null ==> results[j].socket == sockets[j]
    ensures var all := before + Made(results);
            && (forall l :: l in all ==> l in before || l in results)
            && (forall s :: s in Sockets(all) ==> s in Sockets(before) || s in sockets)
            && (forall j :: 0 <= j < |results| && results[j] != null ==> results[j] in all)
  {
    var all := before + Made(results);
    forall s | s in Sockets(all)
      ensures s in Sockets(before) || s in sockets
    {
      var i :| 0 <= i < |all| && all[i].socket == s;
      if i >= |before| {
        var j :| 0 <= j < |results| && results[j] == all[i];
      } else {
        assert before[i].socket == s;
      }
    }
  }

  lemma SettledAreNew(sockets: seq<Socket>, was: seq<Waiting>, results: seq<WebSocket?>, links: seq<WebSocket>)
    requires |results| <= |sockets| == |was| && AllSettled(sockets, was, results)
    requires forall j :: 0 <= j < |results| && results[j] != null ==> results[j] in links
    ensures AllNew(Snapshots(links), sockets, was, results)
  {
    hide IsNew, SnapshotOf;
    forall j | 0 <= j < |results| && results[j] != null
      ensures results[j].socket == sockets[j] && IsNew(SnapshotOf(results[j]), was[j])
    {
      assert Settled(sockets[j], was[j], results[j]);
    }
  }

  predicate Extends(all: map<WebSocket, Snapshot>, some: map<WebSocket, Snapshot>) {
    forall l :: l in some ==> l in all && all[l] == some[l]
  }

  ghost predicate AllHadTurn(before: map<WebSocket, Snapshot>, links: seq<WebSocket>, turns: seq<Turn>)
    requires |turns| <= |links|
    reads links, Sockets(links)
  {
    forall i :: 0 <= i < |turns| ==> links[i] in before && HadTurn(before[links[i]], links[i], turns[i])
  }

  /** The links among the results. */
  ghost function Made(results: seq<WebSocket?>): (links: seq<WebSocket>)
    ensures forall k :: 0 <= k < |links| ==> links[k] in results
    ensures forall j :: 0 <= j < |results| && results[j] != null ==> results[j] in links
  {
    if results == [] then []
    else
      var last := results[|results| - 1];
      Made(results[..|results| - 1]) + if last == null then [] else [last]
  }

  /** What a broadcast does to one link. */
  ghost predicate Reached(before: Snapshot, output: Bytes, l: WebSocket, excluded: bool, message: Bytes, isText: bool)
    reads l, l.socket
  {
    var reply := Reply(TypeOpcode(isText), message);
    if excluded || !before.connected then SnapshotOf(l) == before && l.socket.output == output
    else if l.socket.connected then
      |l.outputMask| == 4 && l.Recorded(before.from.sent, reply)
      && l.socket.output == output + PrintedFrame(Server, TypeOpcode(isText), message, l.outputMask)
    else if |message| < MAXIMUM_LENGTH then Faulted(before, l) && Sends(before.from.sent, l.sent, reply)
    else Sends(before.from.sent, l.sent, CloseFrame(INTERNAL_ERROR)) && (Faulted(before, l) || l.LastIsWhole())
  }

  /** at lists, in order, where in results the links are. */
  ghost predicate AreAt(at: seq<nat>, results: seq<WebSocket?>, links: seq<WebSocket>) {
    && Increasing(at, |results|) && |links| == |at|
    && (forall k :: 0 <= k < |at| ==> links[k] == results[at[k]])
    && (forall i :: 0 <= i < |results| ==> (i in at <==> results[i] != null))
  }

  /** Nothing is added, left out or put elsewhere: the links are the results that are links, in order. */
  lemma MadeKeepsOrder(results: seq<WebSocket?>) returns (at: seq<nat>)
    ensures Increasing(at, |results|) && |Made(results)| == |at|
    ensures forall k :: 0 <= k < |at| ==> Made(results)[k] == results[at[k]]
    ensures forall i :: 0 <= i < |results| ==> (i in at <==> results[i] != null)
  {
    at := MadeAreAt(results);
  }

  lemma {:induction false} MadeAreAt(results: seq<WebSocket?>) returns (at: seq<nat>)
    ensures AreAt(at, results, Made(results))
  {
    hide Made, AreAt;
    if results == [] {
      at := [];
      MadeNext(results, null);
      NoneAreAt(results, Made(results));
    } else {
      var n := |results| - 1;
      var front, last := results[..n], results[n];
      assert front + [last] == results;
      MadeNext(front, last);
      at := MadeAreAt(front);
      OneMoreAt(at, front, Made(front), last);
      at := at + if last == null then [] else [n];
    }
  }

  lemma NoneAreAt(results: seq<WebSocket?>, links: seq<WebSocket>)
    requires results == [] && links == []
    ensures AreAt([], results, links)
  {
  }

  lemma OneMoreAt(at: seq<nat>, results: seq<WebSocket?>, links: seq<WebSocket>, last: WebSocket?)
    requires AreAt(at, results, links)
    ensures AreAt(at + if last == null then [] else [|results|], results + [last],
                  links + if last == null then [] else [last])
  {
    var all, more := results + [last], at + if last == null then [] else [|results|];
    forall i | 0 <= i < |all|
      ensures i in more <==> all[i] != null
    {
      if i in at {
        assert i < |results|;
      }
    }
  }

  lemma MadeNext(results: seq<WebSocket?>, link: WebSocket?)
    ensures Made(results + [link]) == Made(results) + if link == null then [] else [link]
    ensures Made([]) == []
  {
    assert (results + [link])[..|results|] == results;
  }

  class WebSocketServer {
    const clock: Clock

    /** The connections that accept will give, each on a socket of its own. */
    var pending: seq<Socket>

    /** How often accept has returned an error although a connection was waiting. */
    var refusals: nat
    var links: seq<WebSocket>
    var received: seq<Delivery>

    ghost predicate Separate()
      reads this, links
    {
      && (forall i :: 0 <= i < |links| ==> links[i].side == Server && links[i].clock == clock)
      && AreDistinct(links)
      && (forall i, j :: 0 <= i < j < |pending| ==> pending[i] != pending[j])
      && (forall i, j :: 0 <= i < |pending| && 0 <= j < |links| ==> pending[i] != links[j].socket)
    }

    ghost predicate Valid()
      reads this, links, Sockets(links), pending
    {
      && Separate()
      && (forall i :: 0 <= i < |links| ==> links[i].Valid())
      && (forall i :: 0 <= i < |pending| ==> pending[i].connected)
    }

    constructor (clock: Clock, pending: seq<Socket>)
      requires forall i :: 0 <= i < |pending| ==> pending[i].connected
      requires forall i, j :: 0 <= i < j < |pending| ==> pending[i] != pending[j]
      ensures Valid() && links == [] && received == [] && this.pending == pending && this.clock == clock
    {
      this.clock, this.pending, links, received, refusals := clock, pending, [], [], 0;
    }

    // ----- handle_events -----------------------------------------------------------------------

    /** handle_new_messages of one link. */
    method HandleNewMessagesOf(l: WebSocket) returns (ghost turn: Turn)
      requires l.Valid() && l.side == Server && l.socket.connected
      modifies this`received, l, l.clock, l.socket
      ensures l.Valid() && HadTurn(old(SnapshotOf(l)), l, turn)
      ensures received == old(received) + DeliveryOf(l, turn)
    {
      hide WebSocket.Valid, WebSocket.Ended, Receive, Sends;
      var status, message;
      status, message, turn := Hear(l);
      if status == RecvText || status == RecvBinary {
        received := received + [Delivery(l, message, status == RecvText)];
      } else if status == RecvFailed {
        var _ := l.Close(INTERNAL_ERROR);
      }
    }

    /** recv as the server calls it. */
    static method Hear(l: WebSocket) returns (status: RecvStatus, message: Bytes, ghost turn: Turn)
      requires l.Valid() && l.side == Server && l.socket.connected
      modifies l, l.clock, l.socket
      ensures l.Valid() && HadTurn(old(SnapshotOf(l)), l, turn)
      ensures turn.Heard? && turn.status == status && turn.message == message
    {
      hide WebSocket.Valid, WebSocket.Ended, Receive;
      var r;
      ghost var n, done, code;
      r, n, done, code := l.Recv(0.0);
      status, message := r.value.0, r.value.1;
      turn := Heard(status, message, n, done, code);
    }

    /** The turn of one link leaves the others alone. */
    method TakeTurn(i: nat) returns (ghost turn: Turn)
      requires Valid() && i < |links|
      modifies this`received, clock, links[i], links[i].socket
      ensures Valid() && HadTurn(old(SnapshotOf(links[i])), links[i], turn)
      ensures received == old(received) + DeliveryOf(links[i], turn)
    {
      hide WebSocket.Valid, WebSocket.Ended, Receive;
      turn := Skipped;
      if links[i].socket.connected {
        turn := HandleNewMessagesOf(links[i]);
      }
    }

    method HandleNewMessages() returns (ghost turns: seq<Turn>)
      requires Valid()
      modifies this`received, clock, links, Sockets(links)
      ensures Valid() && |turns| == |links|
      ensures AllHadTurn(old(Snapshots(links)), links, turns)
      ensures received == old(received) + Deliveries(links, turns)
    {
      hide HadTurn, Deliveries, DeliveryOf, WebSocket.Valid, SnapshotOf;
      turns := [];
      NoDeliveries(links[..0], turns);
      var i := 0;
      while i < |links|
        invariant 0 <= i <= |links| && |turns| == i && Valid()
        invariant forall j :: 0 <= j < i ==> HadTurn(old(SnapshotOf(links[j])), links[j], turns[j])
        invariant forall j :: i <= j < |links| ==> SnapshotOf(links[j]) == old(SnapshotOf(links[j]))
        invariant received == old(received) + Deliveries(links[..i], turns)
      {
        ghost var turn := TakeTurn(i);
        OneMoreDelivery(links[..i], turns, links[i], turn);
        assert links[..i + 1] == links[..i] + [links[i]];
        i := i + 1;
        turns := turns + [turn];
      }
      assert links[..i] == links;
    }

    /** new_server_side_websocket: the handshake, then the link; null stands for the exception, in
        which case the socket has been closed. */
    method NewServerSideWebSocket(socket: Socket) returns (link: WebSocket?)
      requires socket.connected
      modifies socket
      ensures Settled(socket, old(WaitingOn(socket)), link)
      ensures link != null ==> fresh(link) && link.side == Server && link.clock == clock && link.Valid()
    {
      hide Handshake.Upgraded, Handshake.Acceptable, Handshake.ParsedAs, HttpMessages.IsUpgradeRequest;
      var request := new HttpMessages.Request();
      var response := new HttpMessages.Response();
      var parser := new HttpParsers.HttpParser(HttpSyntax.Requests, request, response);
      var opening := Handshake.ServerHandshake(socket, parser);
      if opening.Opened? {
        link := new WebSocket(Server, socket, clock);
      } else {
        socket.Close();
        link := null;
      }
    }

    /** try_new_connection. */
    method TryNewConnection(socket: Socket) returns (ghost link: WebSocket?)
      requires Valid() && socket.connected && socket !in pending && IsOther(socket)
      modifies this`links, socket
      ensures Valid() && links == old(links) + if link == null then [] else [link]
      ensures Settled(socket, old(WaitingOn(socket)), link) && (link != null ==> fresh(link) && link.socket == socket)
    {
      hide WebSocket.Valid, IsNew, Handshake.Acceptable;
      var made := NewServerSideWebSocket(socket);
      if made != null {
        links := links + [made];
      }
      link := made;
    }

    ghost predicate IsOther(socket: Socket)
      reads this
    {
      forall i :: 0 <= i < |links| ==> links[i].socket != socket
    }

    /** Whether accept gives the next connection; it may also return an error, which looks the same
        as that there is none. */
    method Accept() returns (more: bool)
      requires Valid()
      modifies this`refusals
      ensures Valid()
      ensures more ==> pending != [] && refusals == old(refusals)
      ensures !more ==> if pending == [] then refusals == old(refusals) else refusals > old(refusals)
    {
      hide WebSocket.Valid, AreDistinct;
      more := *;
      if pending == [] {
        more := false;
      } else if !more {
        refusals := refusals + 1;
      }
    }

    /** One turn of the loop of handle_new_connections, and the call of accept that ends it. */
    method AcceptNext() returns (more: bool, ghost link: WebSocket?)
      requires Valid() && pending != []
      modifies this`pending, this`links, this`refusals, pending[0]
      ensures Valid() && pending == old(pending)[1..] && links == old(links) + if link == null then [] else [link]
      ensures Settled(old(pending)[0], old(WaitingOn(pending[0])), link)
      ensures link != null ==> fresh(link) && link.socket == old(pending)[0]
      ensures if more then pending != [] && refusals == old(refusals) else pending == [] || refusals > old(refusals)
    {
      hide WebSocket.Valid, Settled, WaitingOn, Separate;
      link := SettleNext();
      more := Accept();
    }

    method SettleNext() returns (ghost link: WebSocket?)
      requires Valid() && pending != []
      modifies this`pending, this`links, pending[0]
      ensures Valid() && pending == old(pending)[1..] && links == old(links) + if link == null then [] else [link]
      ensures Settled(old(pending)[0], old(WaitingOn(pending[0])), link)
      ensures link != null ==> fresh(link) && link.socket == old(pending)[0]
    {
      hide WebSocket.Valid, Settled, WaitingOn;
      var socket := pending[0];
      pending := pending[1..];
      link := TryNewConnection(socket);
    }

    /** The same turn, with what has come of the connections before. */
    method AcceptMore(ghost all: seq<Socket>, ghost was: seq<Waiting>, ghost before: seq<WebSocket?>)
      returns (more: bool, ghost results: seq<WebSocket?>)
      requires Valid() && pending != [] && |before| < |all| == |was| && pending == all[|before|..]
      requires forall i, j :: 0 <= i < j < |all| ==> all[i] != all[j]
      requires Wait(all[|before|..], was[|before|..]) && AllSettled(all[..|before|], was[..|before|], before)
      modifies this`pending, this`links, this`refusals, pending[0]
      ensures Valid() && |results| == |before| + 1 && results[..|before|] == before && pending == all[|results|..]
      ensures links == old(links) + (if results[|before|] == null then [] else [results[|before|]])
      ensures Made(results) == Made(before) + if results[|before|] == null then [] else [results[|before|]]
      ensures results[|before|] != null ==> fresh(results[|before|])
      ensures Wait(all[|results|..], was[|results|..]) && AllSettled(all[..|results|], was[..|results|], results)
      ensures if more then pending != [] && refusals == old(refusals) else pending == [] || refusals > old(refusals)
    {
      hide WebSocket.Valid, Valid, AllSettled, Settled, WaitingOn, Made, Wait;
      NextWaits(all, was, |before|);
      ghost var link;
      more, link := AcceptNext();
      MadeNext(before, link);
      OneMoreSettled(all, was, before, link);
      results := before + [link];
    }

    lemma PendingApart()
      requires Valid()
      ensures forall i, j :: 0 <= i < j < |pending| ==> pending[i] != pending[j]
    {
    }

    /** handle_new_connections: every connection that waits, or those in front of the first error.
        results tells what came of each. */
    method HandleNewConnections() returns (ghost results: seq<WebSocket?>)
      requires Valid()
      modifies this`pending, this`links, this`refusals, pending
      ensures Valid() && links == old(links) + Made(results)
      ensures |results| <= |old(pending)| && pending == old(pending)[|results|..]
      ensures pending != [] ==> refusals > old(refusals)
      ensures AllSettled(old(pending), old(AllWaiting(pending)), results)
      ensures forall j :: 0 <= j < |results| && results[j] != null ==> fresh(results[j])
    {
      hide WebSocket.Valid, Valid, AllSettled, Settled, WaitingOn, AllWaiting, Made, Wait;
      PendingApart();
      results := [];
      MadeNext(results, null);
      ghost var all := pending;
      ghost var was := AllWaiting(pending);
      AllWait(all, was);
      assert all[0..] == all && was[0..] == was;
      var more := Accept();
      while more
        invariant if more then pending != [] && refusals == old(refusals) else pending == [] || refusals > old(refusals)
        invariant |results| <= |all| && pending == all[|results|..] && Valid() && links == old(links) + Made(results)
        invariant Wait(all[|results|..], was[|results|..]) && AllSettled(all[..|results|], was[..|results|], results)
        invariant forall j :: 0 <= j < |results| && results[j] != null ==> fresh(results[j])
        decreases |pending|, more
      {
        more, results := AcceptMore(all, was, results);
      }
      SettledSoFar(all, was, results);
    }

    method RemoveClosedLinks()
      requires Valid()
      modifies this`links
      ensures Valid() && links == StillConnected(old(links))
    {
      hide WebSocket.Valid;
      var kept := [];
      var i := 0;
      while i < |links|
        invariant 0 <= i <= |links| && kept == StillConnected(links[..i])
      {
        assert links[..i + 1][..i] == links[..i];
        if links[i].socket.connected {
          kept := kept + [links[i]];
        }
        i := i + 1;
      }
      assert links[..i] == links;
      KeptAreLinks(links);
      ghost var all := links;
      label Before:
      links := kept;
      SameConnected@Before(all);
      forall i | 0 <= i < |links|
        ensures links[i] in all && links[i].side == Server && links[i].clock == clock && links[i].Valid()
        ensures forall j :: 0 <= j < |pending| ==> pending[j] != links[i].socket
      {
        var k :| 0 <= k < |all| && all[k] == links[i];
      }
    }

    /** handle_events. results tells what came of the connections, before what the old and the new
        links were like before their turn, and turns what came of it. */
    method HandleEvents()
      returns (ghost results: seq<WebSocket?>, ghost before: map<WebSocket, Snapshot>, ghost turns: seq<Turn>)
      requires Valid()
      modifies this`pending, this`links, this`refusals, this`received, pending, clock, links, Sockets(links)
      ensures Valid() && |results| <= |old(pending)| && pending == old(pending)[|results|..]
      ensures pending != [] ==> refusals > old(refusals)
      ensures var all := old(links) + Made(results);
              && |turns| == |all|
              && links == StillConnected(all)
              && received == old(received) + Deliveries(all, turns)
              && AllHadTurn(before, all, turns)
      ensures Extends(before, old(Snapshots(links))) && AllNew(before, old(pending), old(AllWaiting(pending)), results)
    {
      hide HadTurn, IsNew, Deliveries, StillConnected, WebSocket.Valid, SnapshotOf, AreDistinct;
      hide AllWaiting, AllHadTurn, AllNew, AllSettled, Made;
      results := HandleNewConnections();
      SettledSockets(old(pending), old(AllWaiting(pending)), results);
      StandOn(old(links), old(pending), results);
      before := Snapshots(links);
      SettledAreNew(old(pending), old(AllWaiting(pending)), results, links);
      turns := HandleNewMessages();
      RemoveClosedLinks();
    }

    // ----- sending -----------------------------------------------------------------------------

    /** send; an unconnected link is passed over. */
    static method SendTo(l: WebSocket, message: Bytes, isText: bool) returns (success: bool)
      requires l.Valid() && l.side == Server
      modifies l, l.clock, l.socket
      ensures l.Valid() && (!success ==> old(l.socket.connected))
      ensures var before, output := old(SnapshotOf(l)), old(l.socket.output);
              l.socket.trouble.AtLeast(before.trouble)
              && if success then
                Reached(before, output, l, false, message, isText) && l.socket.connected == before.connected
              else if |message| < MAXIMUM_LENGTH then
                && !l.socket.connected && Faulted(before, l)
                && Sends(before.from.sent, l.sent, Reply(TypeOpcode(isText), message))
              else l.socket.connected && l.sent == before.from.sent && l.socket.trouble == before.trouble
    {
      hide PrintedFrame, Sends;
      success := true;
      if l.socket.connected {
        var r := l.Send(message, isText);
        success := r.value;
      }
    }

    /** One turn of the loop of broadcast. */
    static method BroadcastTo(l: WebSocket, message: Bytes, isText: bool, exclude: WebSocket?)
      requires l.Valid() && l.side == Server
      modifies l, l.clock, l.socket
      ensures l.Valid()
      ensures Reached(old(SnapshotOf(l)), old(l.socket.output), l, l == exclude, message, isText)
    {
      hide PrintedFrame, Sends, WebSocket.Recorded;
      if exclude != l {
        var success := SendTo(l, message, isText);
        if !success {
          var _ := l.Close(INTERNAL_ERROR);
        }
      }
    }

    /** broadcast. */
    method Broadcast(message: Bytes, isText: bool, exclude: WebSocket?)
      requires Valid()
      modifies clock, links, Sockets(links)
      ensures Valid()
      ensures forall i :: 0 <= i < |links| ==>
                Reached(old(SnapshotOf(links[i])), old(links[i].socket.output), links[i], links[i] == exclude,
                        message, isText)
    {
      hide Reached, WebSocket.Valid, SnapshotOf;
      var i := 0;
      while i < |links|
        invariant 0 <= i <= |links| && Valid()
        invariant forall j :: 0 <= j < i ==>
                    Reached(old(SnapshotOf(links[j])), old(links[j].socket.output), links[j], links[j] == exclude,
                            message, isText)
        invariant forall j :: i <= j < |links| ==>
                    && SnapshotOf(links[j]) == old(SnapshotOf(links[j]))
                    && links[j].socket.output == old(links[j].socket.output)
      {
        BroadcastTo(links[i], message, isText, exclude);
        i := i + 1;
      }
    }

    /** The destructor: every link that is still connected is sent a close frame. */
    method Destroy()
      requires Valid()
      modifies clock, links, Sockets(links)
      ensures forall i :: 0 <= i < |links| ==> Dismissed(old(SnapshotOf(links[i])), links[i])
    {
      hide WebSocket.Valid, Dismissed, SnapshotOf;
      var i := 0;
      while i < |links|
        invariant 0 <= i <= |links| && Valid()
        invariant forall j :: 0 <= j < i ==> Dismissed(old(SnapshotOf(links[j])), links[j])
        invariant forall j :: i <= j < |links| ==> SnapshotOf(links[j]) == old(SnapshotOf(links[j]))
      {
        Dismiss(links[i]);
        i := i + 1;
      }
    }

    static method Dismiss(l: WebSocket)
      requires l.Valid() && l.side == Server
      modifies l, l.clock, l.socket
      ensures l.Valid() && Dismissed(old(SnapshotOf(l)), l)
    {
      hide Sends;
      if l.socket.connected {
        var _ := l.Close(GOING_AWAY);
      }
    }
  }

  ghost predicate Dismissed(before: Snapshot, l: WebSocket)
    reads l, l.socket
  {
    && !l.socket.connected
    && if before.connected then
         Sends(before.from.sent, l.sent, CloseFrame(GOING_AWAY)) && (Faulted(before, l) || l.LastIsWhole())
       else l.sent == before.from.sent
  }

  /** A whole message in front of a link's input, printed by a client, is what the listener gets
      and all that is taken; a turn without data leaves it for the next one; a turn that ends the
      connection instead has a failing socket to blame. */
  lemma TurnHearsWhatWasSent(before: Snapshot, l: WebSocket, turn: Turn, message: Bytes, isText: bool, mask: Bytes,
                             rest: Bytes)
    requires l.side == Server && |mask| == 4 && |message| != 65536 && |message| <= MAXIMUM_LENGTH
    requires before.connected && !before.from.assembly.isContinuation && before.from.assembly.message == []
    requires before.from.input == PrintedFrame(Client, TypeOpcode(isText), message, mask) + rest
    requires HadTurn(before, l, turn)
    ensures turn.Heard? && turn.status in {RecvText, RecvBinary} ==>
              DeliveryOf(l, turn) == [Delivery(l, message, isText)] && l.socket.input == rest
    ensures turn.Heard? && turn.status == RecvTimeOut ==>
              l.socket.input == before.from.input && !l.isContinuation && l.events == before.from.history
              && Contents(l.sent) == Contents(before.from.sent)
    ensures turn.Heard? && turn.status in {RecvFailed, RecvClosed} ==> Faulted(before, l)
  {
    hide PrintedFrame, RfcFrame, Receive, Along;
    var f, a := Frame(true, TypeOpcode(isText), message), before.from.assembly;
    PrintsRfcExcept65536(Client, f.opcode, message, mask);
    ReceiveFrame(Client, f, mask, rest, a);
    assert [] + message == message;
    assert Accept(a, f) == Accepted(Assembly(message, isText, false));
    assert Receive(l.side, before.from.input, a) == Delivered(message, isText, [], rest);
    if turn.Heard? {
      StuckAtLast(f, mask, rest, a, turn.n);
    }
  }

  lemma StuckAtLast(f: Frame, mask: Bytes, rest: Bytes, a: Assembly, n: nat)
    requires Sendable(f) && IsData(f.opcode) && f.fin && |mask| == 4
    ensures var p := Along(Server, RfcFrame(Client, f, mask) + rest, a, n);
            if n == 0 then p == At(RfcFrame(Client, f, mask) + rest, a, [], []) else p.Stuck?
  {
    hide RfcFrame, Onward, Accept;
    var input := RfcFrame(Client, f, mask) + rest;
    if n > 0 {
      AlongFirst(Server, input, a, n);
      OnwardWire(Client, f, mask, rest, a);
    } else {
      assert Along(Server, input, a, 0) == At(input, a, [], []);
    }
  }
}
