/**
 * The two TCP connections of a session, reduced to what the relay observes:
 * whether `isClosed()` holds, how many times `close()` was called, and what was
 * written to the connection, in order.
 */
module Sockets {

  /** The user-visible lines the gateway prints to the local client. */
  datatype Notice =
    | BridgeEstablished  // BPQTelnetGateway.java:125
    | ConnectFailed      // BPQTelnetGateway.java:128
    | Disconnecting      // BPQTelnetGateway.java:142
    | WriteFailed        // BPQTelnetGateway.java:152

  /** One write to the local client: a notice line (`println`) or relayed text (`print`). */
  datatype LocalOutput = NoticeLine(notice: Notice) | Data(text: string)

  /** The relayed text the local client sees, notices left out. */
  function Text(outs: seq<LocalOutput>): string
  {
    if outs == [] then []
    else
      var last := outs[|outs| - 1];
      Text(outs[..|outs| - 1]) + (if last.Data? then last.text else [])
  }

  class Socket<T> {
    var closed: bool
    var closeCalls: nat
    /** Everything written to the connection, one element per write. */
    var output: seq<T>

    constructor ()
      ensures !closed && closeCalls == 0 && output == []
    {
      closed := false;
      closeCalls := 0;
      output := [];
    }

    /**
     * One write. On a closed socket the write is lost: `PrintWriter` swallows the
     * exception, and the remote writer is only used while its socket is open.
     */
    method Send(x: T)
      modifies this
      ensures closed == old(closed) && closeCalls == old(closeCalls)
      ensures output == if old(closed) then old(output) else old(output) + [x]
    {
      if !closed {
        output := output + [x];
      }
    }

    /**
     * `close()`. Closing a closed socket does nothing; a close that throws leaves the
     * socket as it was (`closed` is only set once the underlying close returned).
     */
    method Close(fails: bool)
      modifies this
      ensures closeCalls == old(closeCalls) + 1 && output == old(output)
      ensures closed == (old(closed) || !fails)
    {
      closeCalls := closeCalls + 1;
      if !closed && !fails {
        closed := true;
      }
    }
  }
}
