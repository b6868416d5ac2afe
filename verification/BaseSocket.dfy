/** The two loops of BaseSocket over the calls send and recv of the kernel, which may transfer
    less than was asked for, report an error, or ask to try again. */
module BaseSockets {
  import opened Octets

  /** size_t has 64 bits. */
  const WRAP := 0x1_0000_0000_0000_0000

  /** What the kernel will do at a call: transfer at least one and at most most bytes, or return
      a negative number n; again says that errno is EAGAIN. */
  datatype Answer = Upto(most: nat) | Negative(n: int, again: bool)

  predicate IsAnswer(a: Answer) { if a.Upto? then a.most > 0 else a.n < 0 }

  predicate AreAnswers(script: seq<Answer>) { forall i :: 0 <= i < |script| ==> IsAnswer(script[i]) }

  function Least(a: nat, b: nat): nat { if a < b then a else b }

  /** The return value of recv; after the script, the kernel transfers all that it can. */
  function Answered(script: seq<Answer>, available: nat, requested: nat): int {
    if script == [] then Least(available, requested)
    else if script[0].Upto? then Least(script[0].most, Least(available, requested))
    else script[0].n
  }

  function Later(script: seq<Answer>): (r: seq<Answer>)
    ensures |r| <= |script|
  {
    if script == [] then [] else script[1..]
  }

  class Kernel {
    var script: seq<Answer>
    var stream: Bytes
    var wire: Bytes

    ghost predicate Valid()
      reads this
    {
      AreAnswers(script)
    }

    method Recv(buffer: array<Byte>, at: nat, requested: nat) returns (n: int, again: bool)
      requires Valid() && 0 < requested && at + requested <= buffer.Length
      modifies this`script, this`stream, buffer
      ensures Valid() && script == Later(old(script))
      ensures n == Answered(old(script), |old(stream)|, requested)
      ensures n < 0 ==> old(script) != [] && old(script)[0] == Negative(n, again)
      ensures n <= 0 ==> stream == old(stream) && buffer[..] == old(buffer[..])
      ensures n > 0 ==>
                n <= requested && n <= |old(stream)| && stream == old(stream)[n..]
                && buffer[..] == Placed(old(buffer[..]), at, old(stream)[..n])
    {
      n, again := Answered(script, |stream|, requested), script != [] && script[0].Negative? && script[0].again;
      if n > 0 {
        ghost var before := buffer[..];
        forall i | 0 <= i < n {
          buffer[at + i] := stream[i];
        }
        assert buffer[..] == Placed(before, at, stream[..n]);
        stream := stream[n..];
      }
      script := Later(script);
    }

    method Send(data: Bytes) returns (n: int)
      requires Valid() && data != []
      modifies this`script, this`wire
      ensures Valid() && script == Later(old(script))
      ensures n == Answered(old(script), |data|, |data|)
      ensures wire == old(wire) + if n > 0 then data[..n] else []
    {
      n := Answered(script, |data|, |data|);
      if n > 0 {
        wire := wire + data[..n];
      }
      script := Later(script);
    }
  }

  function Placed(buffer: Bytes, at: nat, data: Bytes): (r: Bytes)
    requires at + |data| <= |buffer|
    ensures |r| == |buffer|
  {
    buffer[..at] + data + buffer[at + |data|..]
  }

  // ----- write -----------------------------------------------------------------------------------

  /** write: the data goes out in as many pieces as it takes; any other answer ends it, with
      what has been sent so far on the wire. */
  method Write(kernel: Kernel, data: Bytes) returns (success: bool, ghost sent: nat, ghost used: nat)
    requires kernel.Valid()
    modifies kernel`script, kernel`wire
    ensures kernel.Valid() && sent <= |data| && kernel.wire == old(kernel.wire) + data[..sent]
    ensures success <==> sent == |data|
    ensures used <= |old(kernel.script)| && kernel.script == old(kernel.script)[used..]
    ensures forall i :: 0 <= i < used && (success || i < used - 1) ==> old(kernel.script)[i].Upto?
    ensures !success ==> used > 0 && old(kernel.script)[used - 1].Negative?
  {
    success, sent, used := true, 0, 0;
    ghost var script0 := kernel.script;
    var done := 0;
    while done < |data|
      invariant success && sent == done <= |data| && kernel.Valid()
      invariant kernel.wire == old(kernel.wire) + data[..done]
      invariant used <= |script0| && kernel.script == script0[used..]
      invariant forall i :: 0 <= i < used ==> script0[i].Upto?
    {
      var n := kernel.Send(data[done..]);
      used := used + if used < |script0| then 1 else 0;
      if n < 0 {
        success := false;
        break;
      } else if n == 0 {
        success := false;
        break;
      } else {
        assert data[..done] + data[done..][..n] == data[..done + n];
        done := done + n;
        sent := done;
      }
    }
  }

  // ----- read ------------------------------------------------------------------------------------

  /** How a read ends: what is in the buffer, how many bytes were taken from the stream, and
      how often recv returned -1. */
  datatype Reading = Reading(success: bool, buffer: Bytes, taken: nat, errors: nat)

  /** received + (size_t) n. */
  function Advanced(received: nat, n: int): nat
    requires n >= -1
  {
    (received + n) % WRAP
  }

  /** The loop of read. */
  function ReadLoop(script: seq<Answer>, stream: Bytes, buffer: Bytes, received: nat, length: nat): (r: Reading)
    requires AreAnswers(script) && length <= |buffer| && length < WRAP
    ensures |r.buffer| == |buffer| && r.taken <= |stream| && r.errors <= |script|
    decreases |script|, length - received
  {
    if received >= length then Reading(true, buffer, 0, 0)
    else
      var n := Answered(script, |stream|, length - received);
      if n < -1 then
        if script[0].again then ReadLoop(script[1..], stream, buffer, received, length)
        else Reading(false, buffer, 0, 0)
      else if n == 0 then Reading(false, buffer, 0, 0)
      else if n == -1 then
        var r := ReadLoop(script[1..], stream, buffer, Advanced(received, -1), length);
        r.(errors := r.errors + 1)
      else
        var r := ReadLoop(Later(script), stream[n..], Placed(buffer, received, stream[..n]), received + n, length);
        r.(taken := r.taken + n)
  }

  /** One turn of the loop. */
  lemma ReadTurn(script: seq<Answer>, stream: Bytes, buffer: Bytes, received: nat, length: nat)
    requires AreAnswers(script) && received < length <= |buffer| && length < WRAP
    ensures var n := Answered(script, |stream|, length - received);
            var r := ReadLoop(script, stream, buffer, received, length);
            if n < -1 then r == if script[0].again then ReadLoop(script[1..], stream, buffer, received, length)
                                else Reading(false, buffer, 0, 0)
            else if n == 0 then r == Reading(false, buffer, 0, 0)
            else if n == -1 then
              var q := ReadLoop(script[1..], stream, buffer, Advanced(received, -1), length);
              r == q.(errors := q.errors + 1)
            else
              var placed := Placed(buffer, received, stream[..n]);
              var q := ReadLoop(Later(script), stream[n..], placed, received + n, length);
              r == q.(taken := q.taken + n)
  {
  }

  lemma AdvancedByRead(received: nat, n: nat, length: nat)
    requires received + n <= length < WRAP
    ensures Advanced(received, n) == received + n
  {
  }

  /** read. */
  method Read(kernel: Kernel, buffer: array<Byte>, length: nat) returns (success: bool)
    requires kernel.Valid() && length <= buffer.Length && length < WRAP
    modifies kernel`script, kernel`stream, buffer
    ensures var r := ReadLoop(old(kernel.script), old(kernel.stream), old(buffer[..]), 0, length);
            success == r.success && buffer[..] == r.buffer && kernel.stream == old(kernel.stream)[r.taken..]
  {
    hide ReadLoop, Placed, Advanced, Answered, AreAnswers;
    success := true;
    var received: nat := 0;
    ghost var taken: nat, errors: nat := 0, 0;
    ghost var s0, b0 := kernel.stream, buffer[..];
    ghost var whole := ReadLoop(kernel.script, s0, b0, 0, length);
    while received < length
      invariant success && kernel.Valid()
      invariant taken <= |s0| && kernel.stream == s0[taken..]
      invariant Continues(whole, ReadLoop(kernel.script, kernel.stream, buffer[..], received, length), taken, errors)
      decreases |kernel.script|, length - received
    {
      ReadTurn(kernel.script, kernel.stream, buffer[..], received, length);
      var n, again := kernel.Recv(buffer, received, length - received);
      if n < -1 {
        if !again {
          success := false;
          break;
        }
      } else if n == 0 {
        success := false;
        break;
      } else {
        if n == -1 {
          errors := errors + 1;
        } else {
          taken := taken + n;
          AdvancedByRead(received, n, length);
        }
        received := Advanced(received, n);
      }
    }
    ReadEnds(kernel.script, kernel.stream, buffer[..], received, length);
  }

  /** What is left of the loop turns into the whole of it when what has been done is added. */
  predicate Continues(whole: Reading, rest: Reading, taken: nat, errors: nat) {
    whole == rest.(taken := rest.taken + taken, errors := rest.errors + errors)
  }

  lemma ReadEnds(script: seq<Answer>, stream: Bytes, buffer: Bytes, received: nat, length: nat)
    requires AreAnswers(script) && length <= |buffer| && length < WRAP
    ensures received >= length ==> ReadLoop(script, stream, buffer, received, length) == Reading(true, buffer, 0, 0)
  {
  }

  /** Every -1 takes back one byte that was read, or ends the loop at once: a read that reports
      success has taken one byte too many for each, or one byte fewer than there were errors. */
  lemma {:induction false} ReadAccounts(script: seq<Answer>, stream: Bytes, buffer: Bytes, received: nat, length: nat)
    requires AreAnswers(script) && received <= length <= |buffer| && length < WRAP
    ensures var r := ReadLoop(script, stream, buffer, received, length);
            r.success ==> received + r.taken == length + r.errors || received + r.taken == r.errors - 1
    decreases |script|, length - received
  {
    hide ReadLoop, Placed;
    if received == length {
      ReadEnds(script, stream, buffer, received, length);
    } else {
      ReadTurn(script, stream, buffer, received, length);
      var n := Answered(script, |stream|, length - received);
      if n < -1 {
        ReadAccounts(script[1..], stream, buffer, received, length);
      } else if n == -1 {
        if received > 0 {
          ReadAccounts(script[1..], stream, buffer, received - 1, length);
        } else {
          ReadEnds(script[1..], stream, buffer, WRAP - 1, length);
        }
      } else if n > 0 {
        ReadAccounts(Later(script), stream[n..], Placed(buffer, received, stream[..n]), received + n, length);
      }
    }
  }

  // ----- when read keeps its promise -------------------------------------------------------------

  /** recv, as it is documented: a count or -1. */
  predicate IsRecv(script: seq<Answer>) {
    AreAnswers(script) && forall i :: 0 <= i < |script| ==> script[i].Negative? ==> script[i].n == -1
  }

  predicate NoError(script: seq<Answer>) { forall i :: 0 <= i < |script| ==> script[i].Upto? }

  /** What ISocket promises of read: true when exactly the next length bytes have been read,
      false when the stream ended before. */
  predicate KeepsPromise(script: seq<Answer>, stream: Bytes, buffer: Bytes, length: nat)
    requires AreAnswers(script) && length <= |buffer| && length < WRAP
  {
    var r := ReadLoop(script, stream, buffer, 0, length);
    if r.success then r.taken == length && r.buffer[..length] == stream[..length] else |stream| < length
  }

  /** The bytes that the script lets through before the first error in it. */
  function Offered(script: seq<Answer>): nat {
    if script == [] || script[0].Negative? then 0 else script[0].most + Offered(script[1..])
  }

  /** The same without the last answer before the error. */
  function Lead(script: seq<Answer>): nat {
    if script == [] || script[1..] == [] || script[0].Negative? || script[1].Negative? then 0
    else script[0].most + Lead(script[1..])
  }

  /** How many errors there are in a row at the beginning of the script. */
  function Run(script: seq<Answer>): nat {
    if script == [] || script[0].Upto? then 0 else 1 + Run(script[1..])
  }

  /** How many errors there are in a row where the first one is. */
  function FirstRun(script: seq<Answer>): nat {
    if script != [] && script[0].Upto? then FirstRun(script[1..]) else Run(script)
  }

  /** So many errors in a row that a stream which ends just before them is read as none at all. */
  predicate RunsOut(script: seq<Answer>, length: nat) {
    Lead(script) + 1 < length && FirstRun(script) > Lead(script) + 1
  }

  /** For every script and length: read keeps its promise on all streams, however they are cut, if and
      only if recv never returns -1, or so many bytes are offered before that the read is complete, and
      not so many errors follow each other that they make up for a stream that has ended. */
  lemma PromiseExactly(script: seq<Answer>, length: nat)
    requires IsRecv(script) && length < WRAP
    ensures (forall stream: Bytes, buffer: Bytes | length <= |buffer| :: KeepsPromise(script, stream, buffer, length))
            <==> length == 0 || NoError(script) || (Offered(script) >= length && !RunsOut(script, length))
  {
    hide ReadLoop, KeepsPromise;
    if length == 0 || NoError(script) || (Offered(script) >= length && !RunsOut(script, length)) {
      forall stream: Bytes, buffer: Bytes | length <= |buffer|
        ensures KeepsPromise(script, stream, buffer, length)
      {
        PromiseKept(script, stream, buffer, length);
      }
    } else {
      var stream, buffer := PromiseBroken(script, length);
    }
  }

  lemma PromiseKept(script: seq<Answer>, stream: Bytes, buffer: Bytes, length: nat)
    requires IsRecv(script) && length <= |buffer| && length < WRAP
    requires length == 0 || NoError(script) || (Offered(script) >= length && !RunsOut(script, length))
    ensures KeepsPromise(script, stream, buffer, length)
  {
    hide ReadLoop;
    var r := ReadLoop(script, stream, buffer, 0, length);
    if length == 0 {
      ReadEnds(script, stream, buffer, 0, length);
    } else if NoError(script) || |stream| >= length {
      ReadsInOrder(script, stream, buffer, 0, length);
      if r.success {
        assert buffer[..0] + stream[..r.taken] == stream[..length];
      }
    } else {
      ShortFails(script, stream, buffer, 0, length);
    }
  }

  lemma PromiseBroken(script: seq<Answer>, length: nat) returns (stream: Bytes, buffer: Bytes)
    requires IsRecv(script) && 0 < length < WRAP && !NoError(script)
    requires Offered(script) < length || RunsOut(script, length)
    ensures length <= |buffer| && !KeepsPromise(script, stream, buffer, length)
  {
    hide ReadLoop;
    buffer := seq(length, _ => 0);
    if Offered(script) < length {
      stream := seq(length + |script|, _ => 1);
      MinusOneIsMet(script, stream, buffer, 0, length);
      ReadAccounts(script, stream, buffer, 0, length);
      EnoughSucceeds(script, stream, buffer, 0, length);
      var r := ReadLoop(script, stream, buffer, 0, length);
      if r.taken == r.errors - 1 {
        LastIsMissing(script, stream, buffer, 0, length);
        assert r.buffer[..length][length - 1] != stream[..length][length - 1];
      }
    } else {
      stream := seq(Lead(script) + 1, _ => 1);
      WrapsAround(script, stream, buffer, 0, length);
    }
  }

  /** The stream ends just before the errors, and they take back all of it and one byte more. */
  lemma {:induction false} WrapsAround(script: seq<Answer>, stream: Bytes, buffer: Bytes, received: nat, length: nat)
    requires IsRecv(script) && script != [] && script[0].Upto? && length <= |buffer| && length < WRAP
    requires |stream| == Lead(script) + 1 && received + |stream| < length && FirstRun(script) > received + |stream|
    ensures ReadLoop(script, stream, buffer, received, length).success
    decreases |script|
  {
    hide ReadLoop, Placed;
    ReadTurn(script, stream, buffer, received, length);
    var n, rest := Answered(script, |stream|, length - received), script[1..];
    var placed := Placed(buffer, received, stream[..n]);
    if rest != [] && rest[0].Upto? {
      assert n == script[0].most;
      WrapsAround(rest, stream[n..], placed, received + n, length);
    } else {
      assert n == 1 && stream[n..] == [];
      RunWraps(rest, placed, received + n, length);
    }
  }

  lemma {:induction false} RunWraps(script: seq<Answer>, buffer: Bytes, received: nat, length: nat)
    requires IsRecv(script) && Run(script) > received && received < length <= |buffer| && length < WRAP
    ensures ReadLoop(script, [], buffer, received, length).success
    decreases |script|
  {
    hide ReadLoop;
    ReadTurn(script, [], buffer, received, length);
    if received > 0 {
      RunWraps(script[1..], buffer, received - 1, length);
    } else {
      ReadEnds(script[1..], [], buffer, WRAP - 1, length);
    }
  }

  /** Otherwise a stream that is too short is reported as such. */
  lemma {:induction false} ShortFails(script: seq<Answer>, stream: Bytes, buffer: Bytes, received: nat, length: nat)
    requires IsRecv(script) && length <= |buffer| && length < WRAP
    requires received + |stream| < length <= received + Offered(script)
    requires |stream| <= Lead(script) || FirstRun(script) <= received + |stream|
    ensures !ReadLoop(script, stream, buffer, received, length).success
    decreases |script|
  {
    hide ReadLoop, Placed;
    ReadTurn(script, stream, buffer, received, length);
    var n, rest := Answered(script, |stream|, length - received), script[1..];
    if n > 0 {
      var placed := Placed(buffer, received, stream[..n]);
      if rest != [] && rest[0].Upto? {
        if n == |stream| {
          assert stream[n..] == [];
          ReadTurn(rest, [], placed, received + n, length);
        } else {
          ShortFails(rest, stream[n..], placed, received + n, length);
        }
      } else {
        assert n == |stream| && stream[n..] == [];
        RunFails(rest, placed, received + n, length);
      }
    }
  }

  lemma {:induction false} RunFails(script: seq<Answer>, buffer: Bytes, received: nat, length: nat)
    requires IsRecv(script) && Run(script) <= received < length <= |buffer| && length < WRAP
    ensures !ReadLoop(script, [], buffer, received, length).success
    decreases |script|
  {
    hide ReadLoop;
    ReadTurn(script, [], buffer, received, length);
    if script != [] && script[0].Negative? {
      RunFails(script[1..], buffer, received - 1, length);
    }
  }

  /** A read that begins with a -1 reports success and has read nothing. */
  lemma FirstErrorReadsNothing(script: seq<Answer>, stream: Bytes, buffer: Bytes, length: nat)
    requires AreAnswers(script) && script != [] && script[0].Negative? && script[0].n == -1
    requires 0 < length <= |buffer| && length < WRAP
    ensures ReadLoop(script, stream, buffer, 0, length) == Reading(true, buffer, 0, 1)
  {
    hide ReadLoop;
    ReadTurn(script, stream, buffer, 0, length);
    ReadEnds(script[1..], stream, buffer, WRAP - 1, length);
  }

  /** Without errors, or when there is enough before them, the bytes arrive in order, however the
      kernel cuts them. */
  lemma {:induction false} ReadsInOrder(script: seq<Answer>, stream: Bytes, buffer: Bytes, received: nat, length: nat)
    requires AreAnswers(script) && received <= length <= |buffer| && length < WRAP
    requires NoError(script) || (received + Offered(script) >= length && received + |stream| >= length)
    ensures var r := ReadLoop(script, stream, buffer, received, length);
            if r.success then
              received + r.taken == length && r.buffer[..length] == buffer[..received] + stream[..r.taken]
            else received + |stream| < length
    decreases |script|, length - received
  {
    hide ReadLoop, Placed;
    if received < length {
      ReadTurn(script, stream, buffer, received, length);
      var n := Answered(script, |stream|, length - received);
      if n > 0 {
        var placed := Placed(buffer, received, stream[..n]);
        ReadsInOrder(Later(script), stream[n..], placed, received + n, length);
        var r := ReadLoop(Later(script), stream[n..], placed, received + n, length);
        if r.success {
          PlacedInOrder(buffer, received, stream, n, r.taken);
        }
      }
    } else {
      ReadEnds(script, stream, buffer, received, length);
      assert buffer[..length] == buffer[..received] + stream[..0];
    }
  }

  lemma PlacedInOrder(buffer: Bytes, received: nat, stream: Bytes, n: nat, more: nat)
    requires received + n <= |buffer| && n + more <= |stream|
    ensures Placed(buffer, received, stream[..n])[..received + n] + stream[n..][..more]
         == buffer[..received] + stream[..n + more]
  {
  }

  /** A read that is longer than what comes before it meets the first -1. */
  lemma {:induction false} MinusOneIsMet(script: seq<Answer>, stream: Bytes, buffer: Bytes, received: nat, length: nat)
    requires IsRecv(script) && !NoError(script)
    requires received + Offered(script) < length <= |buffer| && length < WRAP && |stream| >= Offered(script)
    ensures ReadLoop(script, stream, buffer, received, length).errors > 0
    decreases |script|
  {
    hide ReadLoop, Placed;
    ReadTurn(script, stream, buffer, received, length);
    if script[0].Upto? {
      var n := Answered(script, |stream|, length - received);
      assert n == script[0].most;
      MinusOneIsMet(script[1..], stream[n..], Placed(buffer, received, stream[..n]), received + n, length);
    }
  }

  /** A loop that ends because it has wrapped around has never written the last byte. */
  lemma {:induction false} LastIsMissing(script: seq<Answer>, stream: Bytes, buffer: Bytes, received: nat, length: nat)
    requires AreAnswers(script) && received < length <= |buffer| && length < WRAP
    ensures var r := ReadLoop(script, stream, buffer, received, length);
            received + r.taken == r.errors - 1 ==> r.buffer[length - 1] == buffer[length - 1]
    decreases |script|, length - received
  {
    hide ReadLoop;
    ReadTurn(script, stream, buffer, received, length);
    var n := Answered(script, |stream|, length - received);
    if n < -1 {
      if script[0].again {
        LastIsMissing(script[1..], stream, buffer, received, length);
      }
    } else if n == -1 {
      if received > 0 {
        LastIsMissing(script[1..], stream, buffer, received - 1, length);
      } else {
        ReadEnds(script[1..], stream, buffer, WRAP - 1, length);
      }
    } else if n > 0 {
      var placed := Placed(buffer, received, stream[..n]);
      if received + n == length {
        ReadEnds(Later(script), stream[n..], placed, received + n, length);
      } else {
        LastIsMissing(Later(script), stream[n..], placed, received + n, length);
      }
    }
  }

  /** A stream that is long enough to make up for the errors does not end too soon. */
  lemma {:induction false} EnoughSucceeds(script: seq<Answer>, stream: Bytes, buffer: Bytes, received: nat, length: nat)
    requires IsRecv(script) && length <= |buffer| && length < WRAP && received + |stream| >= length + |script|
    ensures ReadLoop(script, stream, buffer, received, length).success
    decreases |script|, length - received
  {
    hide ReadLoop, Placed;
    if received < length {
      ReadTurn(script, stream, buffer, received, length);
      var n := Answered(script, |stream|, length - received);
      if n == -1 {
        EnoughSucceeds(script[1..], stream, buffer, Advanced(received, -1), length);
      } else if n > 0 {
        EnoughSucceeds(Later(script), stream[n..], Placed(buffer, received, stream[..n]), received + n, length);
      }
    } else {
      ReadEnds(script, stream, buffer, received, length);
    }
  }
}
