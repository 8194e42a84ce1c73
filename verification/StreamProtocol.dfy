/** One local socket of an adb connection, and what each event does to it and sends for it. */
module StreamProtocol {
  import opened Bytes
  import opened FdIo
  import opened Framing

  const INITIAL_DELAYED_ACK_BYTES: nat := 32 * 1024 * 1024

  datatype Option<+T> = None | Some(value: T)

  /** The stream messages; `src` is arg0 and `dst` is arg1, except that OPEN's arg1 is a window. */
  datatype Msg =
    | Open(src: nat, window: nat)
    | Okay(src: nat, dst: nat, ack: Option<Uint32>)
    | Wrte(src: nat, dst: nat, data: seq<Byte>)
    | Clse(src: nat, dst: nat)

  /**
   * A local socket as the protocol sees it.  `peer` is the id of the remote socket it is
   * connected to, and readArmed and writeArmed say which events its fd is watched for.
   */
  datatype Conn = Conn(peer: Option<nat>, queue: seq<Byte>, avail: Option<int>, closing: bool,
                       writeError: bool, readArmed: bool, writeArmed: bool)

  /** The OKAY that send_ready sends. */
  function Ready(id: nat, peer: nat, delayed: bool, bytes: Uint32): Msg {
    Okay(id, peer, if delayed then Some(bytes) else None)
  }

  /** The four ack bytes are written as an unsigned number and read back as a signed one. */
  function AsInt32(v: Uint32): int {
    if v < 0x8000_0000 then v else v - TWO32
  }

  datatype Flushed = Flushed(conn: Conn, sent: seq<Msg>, wrote: seq<Byte>, destroyed: bool)

  /** A writev can take no more than the queue holds, and less than 2^31 bytes at a time. */
  predicate Plausible(queue: seq<Byte>, outcome: WriteOutcome) {
    outcome.Wrote? ==> outcome.count <= |queue| && outcome.count < 0x8000_0000
  }

  /** local_socket_flush_incoming. */
  function FlushIncoming(c: Conn, id: nat, delayed: bool, outcome: WriteOutcome): Flushed
    requires Plausible(c.queue, outcome)
  {
    var flushed := if c.queue != [] && outcome.Wrote? then outcome.count else 0;
    var failed := c.queue != [] && (outcome.WriteFailed? || outcome == Wrote(0));
    var queue := c.queue[flushed..];
    var writeError := c.writeError || failed;
    var fdFull := queue != [] && !writeError;
    var sent :=
      if c.peer.None? then []
      else if c.avail.Some? then [Ready(id, c.peer.value, delayed, flushed)]
      else if flushed != 0 && |queue| < MAX_PAYLOAD then [Ready(id, c.peer.value, delayed, 0)]
      else [];
    Flushed(c.(queue := queue, writeError := writeError, writeArmed := fdFull), sent, c.queue[..flushed],
            c.closing && !fdFull)
  }

  /** local_socket_enqueue. */
  function Enqueue(c: Conn, id: nat, delayed: bool, data: seq<Byte>, outcome: WriteOutcome): Flushed
    requires Plausible(c.queue + data, outcome)
  {
    FlushIncoming(c.(queue := c.queue + data), id, delayed, outcome)
  }

  datatype Sent = Sent(conn: Conn, sent: seq<Msg>)

  /** local_socket_flush_outgoing towards a remote peer, for the bytes one event could read. */
  function FlushOutgoing(c: Conn, id: nat, data: seq<Byte>): Sent {
    if data == [] || c.peer.None? then Sent(c, []) else
    var avail := if c.avail.Some? then Some(c.avail.value - |data|) else None;
    Sent(c.(avail := avail, readArmed := c.readArmed && avail.Some? && avail.value > 0),
         [Wrte(id, c.peer.value, data)])
  }

  /** local_socket_ack. */
  function Acknowledge(c: Conn, ack: Option<Uint32>): Conn {
    if c.avail.Some? != ack.Some? then c
    else if c.avail.None? then c.(readArmed := true)
    else
      var avail := c.avail.value + AsInt32(ack.value);
      c.(avail := Some(avail), readArmed := c.readArmed || avail > 0)
  }

  datatype Closed = Closed(conn: Conn, sent: seq<Msg>, destroyed: bool)

  /** local_socket_close: the remote peer says CLSE, and unwritten bytes keep the socket around. */
  function Close(c: Conn, id: nat): Closed {
    var sent := if c.peer.Some? then [Clse(id, c.peer.value)] else [];
    if c.closing || c.writeError || c.queue == [] then Closed(c.(peer := None), sent, true)
    else Closed(c.(peer := None, closing := true, readArmed := false), sent, false)
  }

  /** connect_to_remote on a socket that has no peer yet. */
  function Connecting(delayed: bool): Conn {
    Conn(None, [], if delayed then Some(0) else None, false, false, false, false)
  }

  function OpenWindow(delayed: bool): nat {
    if delayed then INITIAL_DELAYED_ACK_BYTES else 0
  }

  /** The service socket A_OPEN creates, already connected and ready. */
  function Accepted(peer: nat, window: nat, delayed: bool): Conn {
    Conn(Some(peer), [], if delayed then Some(window) else None, false, false, true, false)
  }
}
