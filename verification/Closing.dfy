/** close_connection of the client, which the handshake uses as well as the open connection. */
module Closing {
  import opened Transport

  /** The client waits for the server to close first, and that wait is the one place where an
      exception that is not a RecvError is thrown. */
  method CloseClientSide(socket: Socket, clock: Clock) returns (r: Try<()>)
    modifies clock, socket`connected, socket`trouble
    ensures clock.patience <= old(clock.patience) && clock.late >= old(clock.late)
    ensures clock.interrupts >= old(clock.interrupts)
    ensures socket.trouble.AtLeast(old(socket.trouble)) && socket.trouble.faults == old(socket.trouble.faults)
    ensures r.Ok? ==> !socket.connected
    ensures r.Ok? ==> clock.late > old(clock.late) || socket.trouble.gone > old(socket.trouble.gone)
    ensures !r.Ok? ==>
              r.SleepError? && clock.interrupts > old(clock.interrupts) && socket.connected == old(socket.connected)
  {
    var timedOut := false;
    var alive := socket.IsEndpointConnected();
    while alive && !timedOut
      invariant socket.connected == old(socket.connected)
      invariant clock.patience <= old(clock.patience) && clock.late >= old(clock.late)
      invariant clock.interrupts >= old(clock.interrupts)
      invariant socket.trouble.AtLeast(old(socket.trouble)) && socket.trouble.faults == old(socket.trouble.faults)
      invariant (timedOut ==> clock.late > old(clock.late)) && (alive || socket.trouble.gone > old(socket.trouble.gone))
      decreases clock.patience + if timedOut then 0 else 1
    {
      var remaining := clock.Remaining();
      timedOut := remaining <= 0.0;
      if !timedOut {
        var slept := clock.Sleep();
        if !slept {
          return SleepError;
        }
      }
      alive := socket.IsEndpointConnected();
    }
    socket.Close();
    r := Ok(());
  }
}
