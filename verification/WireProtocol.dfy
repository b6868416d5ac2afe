/** Threads that share one WebSocket. send, recv and close each hold mutex_ from beginning to
    end, so a state is what every thread is doing, who holds the mutex, and the wire. The
    contents of frames do not matter here, only where they begin and end. */
module WireProtocol {
  import opened Octets
  import opened Frames

  type Thread = nat

  /** A frame to be sent. */
  datatype Outgoing = Outgoing(bytes: Bytes, isClose: bool)

  /** What the holder does once a frame is out: go on with recv, return from send, close the
      connection (the answer to a close frame), or wait for the answer first. */
  datatype After = Resume | Return | ThenClose | ThenAwait

  datatype Local =
    | Idle
    | Blocked
    | Working
    | Sending(frame: Outgoing, at: nat, after: After)
    | Awaiting
    | Closing(caught: bool)

  /** A frame on the wire: its first written bytes, put there by one thread. */
  datatype Entry = Entry(frame: Outgoing, written: nat, owner: Thread)

  datatype Mutex = Free | Held(owner: Thread)

  datatype State = State(mutex: Mutex, locals: map<Thread, Local>, connected: bool, output: Bytes, log: seq<Entry>)

  const INITIAL := State(Free, map[], true, [], [])

  /** Write puts the next n bytes of a frame on the wire; WriteFails puts n of them there and
      then fails. Throw is an exception of rcom_sleep inside close_connection. */
  datatype Action =
    | Call | Acquire | Start(frame: Outgoing, after: After)
    | Write(n: nat) | WriteFails(n: nat)
    | StopWaiting | Close | Throw | Leave

  function LocalOf(s: State, t: Thread): Local { if t in s.locals then s.locals[t] else Idle }

  function Goto(s: State, t: Thread, l: Local): State { s.(locals := s.locals[t := l]) }

  function Unlock(s: State, t: Thread): State { Goto(s, t, Idle).(mutex := Free) }

  predicate Fits(frame: Outgoing, after: After) {
    frame.bytes != [] && (frame.isClose <==> after.ThenClose? || after.ThenAwait?)
  }

  /** The wire after n more bytes of the frame that t is sending. */
  function Put(s: State, t: Thread, frame: Outgoing, at: nat, n: nat): State
    requires at + n <= |frame.bytes|
  {
    var entry := Entry(frame, at + n, t);
    if n == 0 && (at > 0 || !s.connected) then s
    else
      s.(output := s.output + frame.bytes[at..at + n],
         log := (if at == 0 || s.log == [] then s.log else s.log[..|s.log| - 1]) + [entry])
  }

  /** One step of thread t; a step that is not possible leaves the state as it is. */
  function Next(side: Side, mayThrow: bool, s: State, t: Thread, a: Action): State {
    match (LocalOf(s, t), a)
    case (Idle, Call) => Goto(s, t, Blocked)
    case (Blocked, Acquire) => if s.mutex.Free? then Goto(s, t, Working).(mutex := Held(t)) else s
    case (Working, Start(frame, after)) => if Fits(frame, after) then Goto(s, t, Sending(frame, 0, after)) else s
    case (Working, Leave) => Unlock(s, t)
    case (Sending(frame, at, after), Write(n)) =>
      if !s.connected || n == 0 || at + n > |frame.bytes| then s
      else
        var u := Put(s, t, frame, at, n);
        if at + n < |frame.bytes| then Goto(u, t, Sending(frame, at + n, after))
        else
          (match after
           case Resume => Goto(u, t, Working)
           case Return => Unlock(u, t)
           case ThenClose => Goto(u, t, Closing(false))
           case ThenAwait => Goto(u, t, Awaiting))
    case (Sending(frame, at, after), WriteFails(n)) =>
      if at + n >= |frame.bytes| || (!s.connected && n > 0) then s
      else Goto(Put(s, t, frame, at, n), t, Closing(after.ThenAwait?))
    case (Awaiting, StopWaiting) => Goto(s, t, Closing(true))
    case (Closing(_), Close) => Goto(s, t, Working).(connected := false)
    case (Closing(caught), Throw) =>
      if !mayThrow || side.Server? then s
      else if caught then Goto(s, t, Closing(false))
      else Unlock(s, t)
    case _ => s
  }

  datatype Move = Move(thread: Thread, action: Action)

  function Exec(side: Side, mayThrow: bool, moves: seq<Move>): State {
    if moves == [] then INITIAL
    else
      var m := moves[|moves| - 1];
      Next(side, mayThrow, Exec(side, mayThrow, moves[..|moves| - 1]), m.thread, m.action)
  }

  // ----- what is promised ----------------------------------------------------------------------

  predicate Inside(l: Local) { !l.Idle? && !l.Blocked? }

  predicate IsWhole(e: Entry) { e.written == |e.frame.bytes| }

  function Flatten(log: seq<Entry>): Bytes
    requires forall i :: 0 <= i < |log| ==> log[i].written <= |log[i].frame.bytes|
  {
    if log == [] then []
    else
      var e := log[|log| - 1];
      Flatten(log[..|log| - 1]) + e.frame.bytes[..e.written]
  }

  predicate Measured(log: seq<Entry>) {
    forall i :: 0 <= i < |log| ==> log[i].written <= |log[i].frame.bytes|
  }

  /** Whole frames, none of them a close frame. */
  predicate Calm(log: seq<Entry>) {
    forall i :: 0 <= i < |log| ==> IsWhole(log[i]) && !log[i].frame.isClose
  }

  /** Only the last frame may be partial or a close frame: neither is followed by anything. */
  predicate Orderly(log: seq<Entry>) { log != [] ==> Calm(log[..|log| - 1]) }

  /** The promise about the wire: whole frames one after the other, nothing behind a close
      frame or a partial one, and a partial frame belongs to the thread that holds the mutex
      unless the socket is closed. */
  predicate SafeWire(s: State) {
    && Measured(s.log) && s.output == Flatten(s.log) && Orderly(s.log)
    && (s.log != [] && !IsWhole(s.log[|s.log| - 1]) ==>
          !s.connected || s.mutex == Held(s.log[|s.log| - 1].owner))
  }

  ghost predicate Exclusive(s: State) {
    forall t :: t in s.locals && Inside(s.locals[t]) ==> s.mutex == Held(t)
  }

  // ----- the invariant -------------------------------------------------------------------------

  /** What the wire looks like while the holder t is at l. */
  ghost predicate Consistent(s: State, t: Thread, l: Local) {
    match l
    case Sending(frame, at, after) =>
      && Fits(frame, after) && at < |frame.bytes|
      && (if at == 0 then s.connected ==> Calm(s.log)
          else s.log != [] && s.log[|s.log| - 1] == Entry(frame, at, t))
    case Awaiting => LastIsOf(s, t)
    case Closing(_) => LastIsOf(s, t)
    case _ => s.connected ==> Calm(s.log)
  }

  ghost predicate LastIsOf(s: State, t: Thread) {
    s.connected ==> s.log != [] && s.log[|s.log| - 1].owner == t
  }

  ghost predicate Inv(s: State) {
    && Exclusive(s)
    && Measured(s.log) && s.output == Flatten(s.log) && Orderly(s.log)
    && match s.mutex
       case Free => s.connected ==> Calm(s.log)
       case Held(t) => Inside(LocalOf(s, t)) && Consistent(s, t, LocalOf(s, t))
  }

  lemma InvIsSafe(s: State)
    requires Inv(s)
    ensures SafeWire(s)
  {
  }

  lemma FlattenNext(log: seq<Entry>, e: Entry)
    requires Measured(log) && e.written <= |e.frame.bytes|
    ensures Measured(log + [e]) && Flatten(log + [e]) == Flatten(log) + e.frame.bytes[..e.written]
  {
    var all := log + [e];
    assert all[..|all| - 1] == log;
  }

  /** The wire and its record grow together. */
  lemma PutGrows(s: State, t: Thread, frame: Outgoing, at: nat, n: nat)
    requires Measured(s.log) && s.output == Flatten(s.log) && Orderly(s.log)
    requires at + n <= |frame.bytes| && s.connected
    requires if at == 0 then Calm(s.log) else s.log != [] && s.log[|s.log| - 1] == Entry(frame, at, t)
    ensures var u := Put(s, t, frame, at, n);
            && Measured(u.log) && u.output == Flatten(u.log) && Orderly(u.log) && u.connected
            && u.log != [] && u.log[|u.log| - 1] == Entry(frame, at + n, t)
            && u.mutex == s.mutex && u.locals == s.locals
  {
    hide Flatten;
    var entry := Entry(frame, at + n, t);
    var u := Put(s, t, frame, at, n);
    if at == 0 {
      FlattenNext(s.log, entry);
      assert u.log[..|u.log| - 1] == s.log;
      assert frame.bytes[0..n] == frame.bytes[..n];
    } else {
      var start := s.log[..|s.log| - 1];
      assert s.log == start + [Entry(frame, at, t)];
      assert Measured(start) by { assert forall i :: 0 <= i < |start| ==> start[i] == s.log[i]; }
      FlattenNext(start, Entry(frame, at, t));
      FlattenNext(start, entry);
      assert frame.bytes[..at + n] == frame.bytes[..at] + frame.bytes[at..at + n];
      if n > 0 {
        assert u.log[..|u.log| - 1] == start;
      }
    }
  }

  lemma CalmGrows(log: seq<Entry>)
    requires log != [] && Calm(log[..|log| - 1]) && IsWhole(log[|log| - 1]) && !log[|log| - 1].frame.isClose
    ensures Calm(log)
  {
    assert forall i :: 0 <= i < |log| - 1 ==> log[i] == log[..|log| - 1][i];
  }

  /** Steps of a thread that sends. */
  lemma SendingKeeps(side: Side, mayThrow: bool, s: State, t: Thread, a: Action)
    requires Inv(s) && LocalOf(s, t).Sending? && (a.Write? || a.WriteFails?)
    ensures Inv(Next(side, mayThrow, s, t, a))
  {
    hide Flatten, Measured, Orderly, Calm, IsWhole, Put;
    var Sending(frame, at, after) := LocalOf(s, t);
    assert s.mutex == Held(t);
    var u := Next(side, mayThrow, s, t, a);
    if s.connected && at + a.n <= |frame.bytes| && (a.WriteFails? ==> at + a.n < |frame.bytes|) {
      PutGrows(s, t, frame, at, a.n);
      WholeEntry(frame, at + a.n, t);
      if a.Write? && at + a.n == |frame.bytes| && !frame.isClose {
        OrderlyLog(u.log);
        CalmGrows(Put(s, t, frame, at, a.n).log);
      }
    } else if a.WriteFails? && !s.connected && a.n == 0 {
      PutNothing(s, t, frame, at);
    }
  }

  lemma OrderlyLog(log: seq<Entry>)
    ensures Orderly(log) ==> log != [] ==> Calm(log[..|log| - 1])
  {
  }

  lemma WholeEntry(frame: Outgoing, n: nat, t: Thread)
    ensures IsWhole(Entry(frame, n, t)) <==> n == |frame.bytes|
  {
  }

  lemma PutNothing(s: State, t: Thread, frame: Outgoing, at: nat)
    requires !s.connected && at <= |frame.bytes|
    ensures Put(s, t, frame, at, 0) == s
  {
  }

  /** Every step keeps the invariant, unless an exception of rcom_sleep can leave the client. */
  lemma StepKeeps(side: Side, mayThrow: bool, s: State, t: Thread, a: Action)
    requires Inv(s) && !(mayThrow && side.Client?)
    ensures Inv(Next(side, mayThrow, s, t, a))
  {
    hide Inv, Next;
    var l := LocalOf(s, t);
    if l.Sending? && (a.Write? || a.WriteFails?) {
      SendingKeeps(side, mayThrow, s, t, a);
    } else if l.Sending? || l.Awaiting? || l.Closing? {
      ClosingKeeps(side, mayThrow, s, t, a);
    } else {
      EnteringKeeps(side, mayThrow, s, t, a);
    }
  }

  lemma ClosingKeeps(side: Side, mayThrow: bool, s: State, t: Thread, a: Action)
    requires Inv(s) && !(mayThrow && side.Client?)
    requires var l := LocalOf(s, t);
             (l.Sending? && !a.Write? && !a.WriteFails?) || l.Awaiting? || l.Closing?
    ensures Inv(Next(side, mayThrow, s, t, a))
  {
    hide Flatten, Measured, Orderly, Calm, IsWhole, Put, Fits;
  }

  lemma EnteringKeeps(side: Side, mayThrow: bool, s: State, t: Thread, a: Action)
    requires Inv(s) && (var l := LocalOf(s, t); l.Idle? || l.Blocked? || l.Working?)
    ensures Inv(Next(side, mayThrow, s, t, a))
  {
    hide Flatten, Measured, Orderly, Calm, IsWhole, Put;
  }

  lemma {:induction false} AllRunsKeep(side: Side, mayThrow: bool, moves: seq<Move>)
    requires !(mayThrow && side.Client?)
    ensures Inv(Exec(side, mayThrow, moves))
  {
    if moves != [] {
      AllRunsKeep(side, mayThrow, moves[..|moves| - 1]);
      var m := moves[|moves| - 1];
      StepKeeps(side, mayThrow, Exec(side, mayThrow, moves[..|moves| - 1]), m.thread, m.action);
    }
  }

  // ----- a closed socket is silent -------------------------------------------------------------

  function ExecFrom(side: Side, mayThrow: bool, s: State, moves: seq<Move>): State
    decreases |moves|
  {
    if moves == [] then s
    else ExecFrom(side, mayThrow, Next(side, mayThrow, s, moves[0].thread, moves[0].action), moves[1..])
  }

  /** Whatever the threads do later, and whatever was left on the wire: once the socket is
      closed not a byte follows. */
  lemma {:induction false} ClosedIsSilent(side: Side, mayThrow: bool, s: State, moves: seq<Move>)
    requires !s.connected
    ensures ExecFrom(side, mayThrow, s, moves).output == s.output
    ensures !ExecFrom(side, mayThrow, s, moves).connected
    decreases |moves|
  {
    if moves != [] {
      var u := Next(side, mayThrow, s, moves[0].thread, moves[0].action);
      assert u.output == s.output && !u.connected;
      ClosedIsSilent(side, mayThrow, u, moves[1..]);
    }
  }

  // ----- exactly when it is safe ---------------------------------------------------------------

  lemma ExecNext(side: Side, mayThrow: bool, moves: seq<Move>, t: Thread, a: Action)
    ensures Exec(side, mayThrow, moves + [Move(t, a)]) == Next(side, mayThrow, Exec(side, mayThrow, moves), t, a)
  {
    var all := moves + [Move(t, a)];
    assert all[..|all| - 1] == moves;
  }

  /** A run goes on by one step. */
  lemma Go(side: Side, mayThrow: bool, moves: seq<Move>, s: State, t: Thread, a: Action)
    returns (all: seq<Move>, u: State)
    requires s == Exec(side, mayThrow, moves)
    ensures all == moves + [Move(t, a)] && u == Exec(side, mayThrow, all) && u == Next(side, mayThrow, s, t, a)
  {
    ExecNext(side, mayThrow, moves, t, a);
    all, u := moves + [Move(t, a)], Next(side, mayThrow, s, t, a);
  }

  /** A thread enters, and begins to send a frame. */
  lemma Enter(side: Side, mayThrow: bool, moves: seq<Move>, s: State, t: Thread, frame: Outgoing, after: After)
    returns (all: seq<Move>, u: State)
    requires s == Exec(side, mayThrow, moves) && LocalOf(s, t) == Idle && s.mutex.Free? && Fits(frame, after)
    ensures u == Exec(side, mayThrow, all)
    ensures u == s.(mutex := Held(t), locals := s.locals[t := Sending(frame, 0, after)])
  {
    hide Exec;
    all, u := Go(side, mayThrow, moves, s, t, Call);
    all, u := Go(side, mayThrow, all, u, t, Acquire);
    all, u := Go(side, mayThrow, all, u, t, Start(frame, after));
    assert u.locals == s.locals[t := Sending(frame, 0, after)];
  }

  /** A client sends a close frame, and an exception leaves before the socket is closed: from recv the
      first one does, from close the first is caught and the second leaves. */
  lemma FirstClose(first: Outgoing, after: After) returns (moves: seq<Move>, s: State)
    requires first.isClose && Fits(first, after)
    ensures s == Exec(Client, true, moves)
    ensures s.connected && s.mutex == Free && LocalOf(s, 1) == Idle && s.log == [Entry(first, |first.bytes|, 0)]
  {
    hide Exec;
    InitialState();
    moves, s := Enter(Client, true, [], INITIAL, 0, first, after);
    moves, s := Go(Client, true, moves, s, 0, Write(|first.bytes|));
    if after.ThenAwait? {
      moves, s := Go(Client, true, moves, s, 0, StopWaiting);
      moves, s := Go(Client, true, moves, s, 0, Throw);
    }
    assert LocalOf(s, 0) == Closing(false) && s.log == [Entry(first, |first.bytes|, 0)];
    moves, s := Go(Client, true, moves, s, 0, Throw);
  }

  lemma InitialState()
    ensures INITIAL == Exec(Client, true, [])
  {
  }

  /** Then close, called by another thread, puts a second close frame behind the first. */
  lemma SecondClose(first: Outgoing, after: After, close: Outgoing) returns (moves: seq<Move>)
    requires first.isClose && Fits(first, after) && close.isClose && close.bytes != []
    ensures Exec(Client, true, moves).log == [Entry(first, |first.bytes|, 0), Entry(close, |close.bytes|, 1)]
    ensures !SafeWire(Exec(Client, true, moves))
  {
    hide Exec, SafeWire;
    var s;
    moves, s := FirstClose(first, after);
    moves, s := Enter(Client, true, moves, s, 1, close, ThenAwait);
    var before := s.log;
    moves, s := Go(Client, true, moves, s, 1, Write(|close.bytes|));
    assert s.log == before + [Entry(close, |close.bytes|, 1)];
    TwoCloses(s);
  }

  lemma TwoCloses(s: State)
    requires |s.log| == 2 && s.log[0].frame.isClose
    ensures !SafeWire(s)
  {
    assert s.log[..1][0].frame.isClose;
  }

  /** A close frame as a client prints it. */
  function PrintedClose(code: nat, mask: Bytes): Outgoing
    requires |mask| == 4
  {
    Outgoing(PrintedFrame(Client, CLOSE, BigEndian(code, 2), mask), true)
  }

  lemma ClosesAreNotEmpty(code: nat, mask: Bytes)
    requires |mask| == 4
    ensures PrintedClose(code, mask).bytes != [] && PrintedClose(code, mask).isClose
  {
  }

  /** In every run of any number of threads the wire is safe, if and only if no exception of
      rcom_sleep can leave the close_connection of a client. */
  lemma SafeExactly(side: Side, mayThrow: bool)
    ensures (forall moves :: SafeWire(Exec(side, mayThrow, moves))) <==> !(mayThrow && side.Client?)
  {
    hide PrintedClose;
    if mayThrow && side.Client? {
      var answer, close := PrintedClose(MISSING_CODE, [1, 2, 3, 4]), PrintedClose(CLOSE_NORMAL, [5, 6, 7, 8]);
      ClosesAreNotEmpty(MISSING_CODE, [1, 2, 3, 4]);
      ClosesAreNotEmpty(CLOSE_NORMAL, [5, 6, 7, 8]);
      var moves := SecondClose(answer, ThenClose, close);
      assert !SafeWire(Exec(side, mayThrow, moves));
    } else {
      forall moves
        ensures SafeWire(Exec(side, mayThrow, moves))
      {
        AllRunsKeep(side, mayThrow, moves);
        InvIsSafe(Exec(side, mayThrow, moves));
      }
    }
  }

  // ----- exactly which wires there are ---------------------------------------------------------

  predicate NoneEmpty(log: seq<Entry>) { forall i :: 0 <= i < |log| ==> log[i].frame.bytes != [] }

  /** Some run leaves this on the wire, frame by frame, whoever has sent them. */
  ghost predicate Reached(side: Side, mayThrow: bool, log: seq<Entry>) {
    exists moves :: Exec(side, mayThrow, moves).log == log
  }

  lemma {:induction false} NoneIsEmpty(side: Side, mayThrow: bool, moves: seq<Move>)
    requires !(mayThrow && side.Client?)
    ensures NoneEmpty(Exec(side, mayThrow, moves).log)
  {
    if moves != [] {
      var front, m := moves[..|moves| - 1], moves[|moves| - 1];
      AllRunsKeep(side, mayThrow, front);
      NoneIsEmpty(side, mayThrow, front);
      StaysNonEmpty(side, mayThrow, Exec(side, mayThrow, front), m.thread, m.action);
    }
  }

  lemma StaysNonEmpty(side: Side, mayThrow: bool, s: State, t: Thread, a: Action)
    requires Inv(s) && NoneEmpty(s.log)
    ensures NoneEmpty(Next(side, mayThrow, s, t, a).log)
  {
    hide Flatten, Measured, Orderly, Calm, IsWhole;
  }

  /** Nobody is inside a call, and nothing stands in the way of the next frame. */
  predicate AtRest(s: State) { s.connected && s.mutex.Free? && forall t :: t in s.locals ==> s.locals[t].Idle? }

  /** Whole frames can follow each other in any order, from any threads. */
  lemma {:induction false} FramesGoOut(side: Side, mayThrow: bool, log: seq<Entry>)
    returns (moves: seq<Move>, s: State)
    requires Calm(log) && NoneEmpty(log)
    ensures s == Exec(side, mayThrow, moves) && s.log == log && AtRest(s)
    decreases |log|
  {
    moves, s := [], INITIAL;
    if log != [] {
      var front, e := log[..|log| - 1], log[|log| - 1];
      moves, s := FramesGoOut(side, mayThrow, front);
      moves, s := OneGoesOut(side, mayThrow, moves, s, e, Return);
      assert log == front + [e];
    }
  }

  /** As much of one frame as the entry says is written, in one step. */
  lemma OneGoesOut(side: Side, mayThrow: bool, moves: seq<Move>, s: State, e: Entry, after: After)
    returns (all: seq<Move>, u: State)
    requires s == Exec(side, mayThrow, moves) && AtRest(s)
    requires e.written <= |e.frame.bytes| && Fits(e.frame, after)
    ensures u == Exec(side, mayThrow, all) && u.log == s.log + [e]
    ensures after.Return? && IsWhole(e) ==> AtRest(u)
  {
    hide Exec, Next, IsWhole, AtRest;
    AtRestMeans(s, e.owner);
    all, u := Enter(side, mayThrow, moves, s, e.owner, e.frame, after);
    Written(side, mayThrow, s, u, e, after);
    all, u := Go(side, mayThrow, all, u, e.owner, if IsWhole(e) then Write(e.written) else WriteFails(e.written));
  }

  lemma AtRestMeans(s: State, t: Thread)
    requires AtRest(s)
    ensures LocalOf(s, t) == Idle && s.mutex.Free? && s.connected
  {
  }

  lemma Written(side: Side, mayThrow: bool, s: State, u: State, e: Entry, after: After)
    requires AtRest(s) && u == s.(mutex := Held(e.owner), locals := s.locals[e.owner := Sending(e.frame, 0, after)])
    requires e.written <= |e.frame.bytes| && Fits(e.frame, after)
    ensures var v := Next(side, mayThrow, u, e.owner, if IsWhole(e) then Write(e.written) else WriteFails(e.written));
            v.log == s.log + [e] && (after.Return? && IsWhole(e) ==> AtRest(v))
  {
  }

  lemma RunsAreOrderly(side: Side, mayThrow: bool, moves: seq<Move>)
    requires !(mayThrow && side.Client?)
    ensures var log := Exec(side, mayThrow, moves).log; Measured(log) && Orderly(log) && NoneEmpty(log)
  {
    hide Exec, Measured, Orderly, NoneEmpty, Consistent;
    AllRunsKeep(side, mayThrow, moves);
    NoneIsEmpty(side, mayThrow, moves);
  }

  lemma OrderlyIsReached(side: Side, mayThrow: bool, log: seq<Entry>) returns (moves: seq<Move>)
    requires Measured(log) && Orderly(log) && NoneEmpty(log)
    ensures Exec(side, mayThrow, moves).log == log
  {
    hide Exec, Calm, IsWhole;
    moves := [];
    if log == [] {
      NoMoves(side, mayThrow);
    } else {
      var front, e, s := log[..|log| - 1], log[|log| - 1], INITIAL;
      moves, s := FramesGoOut(side, mayThrow, front);
      moves, s := OneGoesOut(side, mayThrow, moves, s, e, if e.frame.isClose then ThenClose else Return);
      assert log == front + [e];
    }
  }

  lemma NoMoves(side: Side, mayThrow: bool)
    ensures Exec(side, mayThrow, []).log == []
  {
  }

  /** The wires of all runs are exactly these: whole frames in any order and from any threads, then at
      most one frame that may be a close frame and of which any part may be missing. */
  lemma WiresExactly(side: Side, mayThrow: bool, log: seq<Entry>)
    requires !(mayThrow && side.Client?)
    ensures Reached(side, mayThrow, log) <==> Measured(log) && Orderly(log) && NoneEmpty(log)
  {
    hide Exec, Measured, Orderly, NoneEmpty;
    if moves :| Exec(side, mayThrow, moves).log == log {
      RunsAreOrderly(side, mayThrow, moves);
    }
    if Measured(log) && Orderly(log) && NoneEmpty(log) {
      var moves := OrderlyIsReached(side, mayThrow, log);
    }
  }

  /** The thread has gone in and has not come out again. */
  predicate OneCall(moves: seq<Move>, t: Thread) {
    && moves != [] && moves[0] == Move(t, Call)
    && forall i :: 0 < i < |moves| ==> moves[i].thread == t && !moves[i].action.Call?
  }

  lemma CallGoesOn(moves: seq<Move>, t: Thread, a: Action)
    requires OneCall(moves, t) && !a.Call?
    ensures OneCall(moves + [Move(t, a)], t)
  {
  }

  /** One call, such as a recv that answers pings, can put any number of frames on the wire. */
  lemma {:induction false} CallSends(side: Side, mayThrow: bool, t: Thread, log: seq<Entry>)
    returns (moves: seq<Move>, s: State)
    requires Calm(log) && NoneEmpty(log) && forall i :: 0 <= i < |log| ==> log[i].owner == t
    ensures s == Exec(side, mayThrow, moves) && OneCall(moves, t)
    ensures s.log == log && s.connected && s.mutex == Held(t) && LocalOf(s, t) == Working
    decreases |log|
  {
    hide Exec, OneCall;
    if log == [] {
      moves, s := CallBegins(side, mayThrow, t);
    } else {
      var front, e := log[..|log| - 1], log[|log| - 1];
      moves, s := CallSends(side, mayThrow, t, front);
      CallGoesOn(moves, t, Start(e.frame, Resume));
      moves, s := Go(side, mayThrow, moves, s, t, Start(e.frame, Resume));
      CallGoesOn(moves, t, Write(e.written));
      moves, s := Go(side, mayThrow, moves, s, t, Write(e.written));
      assert log == front + [e];
    }
  }

  lemma CallBegins(side: Side, mayThrow: bool, t: Thread) returns (moves: seq<Move>, s: State)
    ensures s == Exec(side, mayThrow, moves) && OneCall(moves, t)
    ensures s.log == [] && s.connected && s.mutex == Held(t) && LocalOf(s, t) == Working
  {
    moves, s := Go(side, mayThrow, [], INITIAL, t, Call);
    moves, s := Go(side, mayThrow, moves, s, t, Acquire);
  }

  // ----- no deadlock ---------------------------------------------------------------------------

  predicate IsSound(l: Local) { l.Sending? ==> Fits(l.frame, l.after) && l.at < |l.frame.bytes| }

  /** Only the holder of the mutex is inside a call, and a frame that is being sent is not out yet. */
  ghost predicate Locked(s: State) {
    && Exclusive(s) && (s.mutex.Held? ==> Inside(LocalOf(s, s.mutex.owner)))
    && forall t :: t in s.locals ==> IsSound(s.locals[t])
  }

  lemma LockedStays(side: Side, mayThrow: bool, s: State, t: Thread, a: Action)
    requires Locked(s)
    ensures Locked(Next(side, mayThrow, s, t, a))
  {
  }

  lemma {:induction false} AlwaysLocked(side: Side, mayThrow: bool, moves: seq<Move>)
    ensures Locked(Exec(side, mayThrow, moves))
  {
    if moves != [] {
      var front, m := moves[..|moves| - 1], moves[|moves| - 1];
      AlwaysLocked(side, mayThrow, front);
      LockedStays(side, mayThrow, Exec(side, mayThrow, front), m.thread, m.action);
    }
  }

  /** What a thread inside does next to get out. */
  function Outward(l: Local, connected: bool): Action {
    match l
    case Sending(frame, at, _) => if connected && at <= |frame.bytes| then Write(|frame.bytes| - at) else WriteFails(0)
    case Awaiting => StopWaiting
    case Closing(_) => Close
    case _ => Leave
  }

  function StepsOut(l: Local): nat {
    match l
    case Sending(_, _, _) => 4
    case Awaiting => 3
    case Closing(_) => 2
    case _ => 1
  }

  /** The thread closes the socket before it leaves. */
  predicate WillClose(l: Local) { l.Awaiting? || l.Closing? || (l.Sending? && l.frame.isClose) }

  function Remaining(s: State, l: Local): Bytes
    requires IsSound(l)
  {
    if l.Sending? && s.connected then l.frame.bytes[l.at..] else []
  }

  /** One step on the way out: the lock is given up, or the next step is nearer to that. */
  lemma OneStepOut(side: Side, mayThrow: bool, s: State, t: Thread)
    requires Locked(s) && s.mutex == Held(t)
    ensures var l, v := LocalOf(s, t), Next(side, mayThrow, s, t, Outward(LocalOf(s, t), s.connected));
            if v.mutex.Free? then
              && LocalOf(v, t).Idle? && v.output == s.output + Remaining(s, l)
              && v.connected == s.connected && !WillClose(l)
            else
              && v.mutex == Held(t) && StepsOut(LocalOf(v, t)) < StepsOut(l) && Locked(v)
              && v.output + Remaining(v, LocalOf(v, t)) == s.output + Remaining(s, l)
              && (v.connected && !WillClose(LocalOf(v, t)) <==> s.connected && !WillClose(l))
  {
    hide Locked;
    LockedMeans(s);
    LockedStays(side, mayThrow, s, t, Outward(LocalOf(s, t), s.connected));
  }

  lemma LockedMeans(s: State)
    requires Locked(s) && s.mutex.Held?
    ensures Inside(LocalOf(s, s.mutex.owner)) && IsSound(LocalOf(s, s.mutex.owner))
  {
  }

  /** Whatever has happened in a run, exceptions included, the thread that holds the mutex can get out by
      itself: it finishes its frame unless the socket has been closed, and it closes the socket if it was
      about to. */
  lemma {:induction false} WayOut(side: Side, mayThrow: bool, s: State, t: Thread) returns (moves: seq<Move>)
    requires Locked(s) && s.mutex == Held(t)
    ensures forall i :: 0 <= i < |moves| ==> moves[i].thread == t && !moves[i].action.Throw?
    ensures var u := ExecFrom(side, mayThrow, s, moves);
            && u.mutex.Free? && LocalOf(u, t).Idle?
            && u.output == s.output + Remaining(s, LocalOf(s, t))
            && (u.connected <==> s.connected && !WillClose(LocalOf(s, t)))
    decreases StepsOut(LocalOf(s, t))
  {
    hide Next, Locked, Remaining, StepsOut, WillClose;
    var a := Outward(LocalOf(s, t), s.connected);
    var v := Next(side, mayThrow, s, t, a);
    OneStepOut(side, mayThrow, s, t);
    var more := [];
    if !v.mutex.Free? {
      more := WayOut(side, mayThrow, v, t);
    }
    moves := [Move(t, a)] + more;
    assert moves[1..] == more;
  }
}
