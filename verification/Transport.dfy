/** What the WebSocket classes see of the operating system: a socket, a clock and sleep. Each
    may behave in any way that its contract allows. */
module Transport {
  import opened Octets

  /** The ways a call can end: a value, a RecvError, or the runtime_error of rcom_sleep. */
  datatype Try<+T> = Ok(value: T) | RecvError(code: nat) | SleepError {
    predicate IsFailure() { !Ok? }

    function PropagateFailure<U>(): Try<U>
      requires IsFailure()
    {
      if RecvError? then Try<U>.RecvError(code) else Try<U>.SleepError
    }

    function Extract(): T
      requires !IsFailure()
    {
      value
    }
  }

  datatype WaitStatus = WaitOk | WaitTimeout | WaitError

  /** How often the socket has failed a call, had nothing to report before the deadline of a wait,
      or found the other end gone. */
  datatype Trouble = Trouble(faults: nat, timeouts: nat, gone: nat) {
    predicate AtLeast(t: Trouble) { faults >= t.faults && timeouts >= t.timeouts && gone >= t.gone }
  }

  /** ISocket. input holds every byte that will still arrive before the stream ends or
      breaks; output holds every byte that has been put on the wire. */
  class Socket {
    var connected: bool
    var input: Bytes
    var output: Bytes
    var trouble: Trouble

    /** Some bytes of data are written, all of them exactly when the call succeeds. A closed
        descriptor takes nothing. */
    method Send(data: Bytes) returns (ok: bool, ghost n: nat)
      modifies this`output, this`trouble
      ensures n <= |data| && output == old(output) + data[..n]
      ensures ok <==> n == |data|
      ensures !connected ==> n == 0
      ensures trouble == if ok then old(trouble) else old(trouble).(faults := old(trouble.faults) + 1)
    {
      var k: nat := 0;
      if connected {
        k :| k <= |data|;
      }
      output := output + data[..k];
      ok, n := k == |data|, k;
      if !ok {
        trouble := trouble.(faults := trouble.faults + 1);
      }
    }

    /** Blocks until length bytes have been read, as ISocket promises. */
    method Read(buffer: array<Byte>, length: nat) returns (ok: bool)
      requires connected && length <= buffer.Length
      modifies this`input, buffer
      ensures ok <==> length <= |old(input)|
      ensures ok ==> buffer[..length] == old(input)[..length] && input == old(input)[length..]
    {
      ok := length <= |input|;
      if ok {
        forall i | 0 <= i < length {
          buffer[i] := input[i];
        }
        input := input[length..];
      } else {
        input := [];
      }
    }

    /** Data, or the end of the stream, can only show on an open descriptor. */
    method Wait() returns (status: WaitStatus)
      modifies this`trouble
      ensures status == WaitOk ==> connected
      ensures trouble == match status
                         case WaitOk => old(trouble)
                         case WaitTimeout => old(trouble).(timeouts := old(trouble.timeouts) + 1)
                         case WaitError => old(trouble).(faults := old(trouble.faults) + 1)
    {
      status := *;
      if status == WaitOk && !connected {
        status := WaitTimeout;
      }
      if status == WaitTimeout {
        trouble := trouble.(timeouts := trouble.timeouts + 1);
      } else if status == WaitError {
        trouble := trouble.(faults := trouble.faults + 1);
      }
    }

    method IsEndpointConnected() returns (alive: bool)
      modifies this`trouble
      ensures trouble == if alive then old(trouble) else old(trouble).(gone := old(trouble.gone) + 1)
    {
      alive := *;
      if !alive {
        trouble := trouble.(gone := trouble.gone + 1);
      }
    }

    method Close()
      modifies this`connected
      ensures !connected
    {
      connected := false;
    }
  }

  /** Time only matters in that it passes: a deadline is still ahead at no more than patience
      readings from now on. */
  class Clock {
    var patience: nat

    /** How often a deadline was found to have been reached, and a sleep was interrupted. */
    var late: nat
    var interrupts: nat

    method Remaining() returns (r: real)
      modifies this`patience, this`late
      ensures patience <= old(patience)
      ensures r >= 0.0 ==> patience < old(patience)
      ensures late == old(late) + if r <= 0.0 then 1 else 0
    {
      r := *;
      if r >= 0.0 {
        if patience == 0 {
          r := -1.0;
        } else {
          patience := patience - 1;
        }
      }
      if r <= 0.0 {
        late := late + 1;
      }
    }

    /** rcom_sleep; false stands for the exception it throws when it is interrupted. */
    method Sleep() returns (ok: bool)
      modifies this`interrupts
      ensures interrupts == old(interrupts) + if ok then 0 else 1
    {
      ok := *;
      if !ok {
        interrupts := interrupts + 1;
      }
    }
  }
}
