/**
 * One connection of the stream protocol: a socket at each end and the messages between the two.
 * Everything here is about one ordered pair of ends, "near" and "far".
 */
module StreamConnection {
  import opened Bytes
  import opened FdIo
  import opened Framing
  import opened StreamProtocol

  datatype Phase = Live | Draining | Gone

  /** How a socket stopped being live: not at all, on the other end's CLSE,
      for its own reasons, or because its OPEN was refused. */
  datatype Ending = Running | ByPeer | BySelf | Refused

  /**
   * What a socket has done so far.  `read` is what it read from its fd while connected, `enqueued`
   * what the other end sent it, `wrote` what its fd took, and `closes` the CLSEs of its own teardown.
   */
  datatype History = History(peer: Option<nat>, read: seq<Byte>, enqueued: seq<Byte>, wrote: seq<Byte>,
                             ending: Ending, closes: nat)

  datatype Sock = Sock(phase: Phase, conn: Conn, log: History)

  const NEW_LOG := History(None, [], [], [], Running, 0)

  const WINDOW_BOUND: nat := INITIAL_DELAYED_ACK_BYTES + MAX_PAYLOAD - 1

  // ---- what the events do to one socket

  function ConnectSock(delayed: bool): Sock {
    Sock(Live, Connecting(delayed), NEW_LOG)
  }

  function AcceptSock(peer: nat, window: nat, delayed: bool): Sock {
    Sock(Live, Accepted(peer, window, delayed), NEW_LOG.(peer := Some(peer)))
  }

  /** The socket closes; what it still has to write decides whether it drains first. */
  function CloseSock(s: Sock, id: nat, ending: Ending): (Sock, seq<Msg>)
    requires s.phase == Live
  {
    var c := Close(s.conn, id);
    (Sock(if c.destroyed then Gone else Draining, c.conn,
          s.log.(ending := ending, closes := s.log.closes + |c.sent|)),
     c.sent)
  }

  /** The fd is readable: `data` was read, then either the fd was dry or it was at its end. */
  function ReadSock(s: Sock, id: nat, data: seq<Byte>, eof: bool): (Sock, seq<Msg>)
    requires s.phase == Live
  {
    var f := FlushOutgoing(s.conn, id, data);
    var read := if f.sent == [] then s.log.read else s.log.read + data;
    var s' := Sock(Live, f.conn, s.log.(read := read));
    if eof then
      var (s'', sent) := CloseSock(s', id, BySelf);
      (s'', f.sent + sent)
    else (s', f.sent)
  }

  /** The fd is writable. */
  function WriteSock(s: Sock, id: nat, delayed: bool, outcome: WriteOutcome): (Sock, seq<Msg>)
    requires s.phase != Gone && Plausible(s.conn.queue, outcome)
  {
    var f := FlushIncoming(s.conn, id, delayed, outcome);
    (Sock(if f.destroyed then Gone else s.phase, f.conn, s.log.(wrote := s.log.wrote + f.wrote)), f.sent)
  }

  /** Data from the other end. */
  function EnqueueSock(s: Sock, id: nat, delayed: bool, data: seq<Byte>, outcome: WriteOutcome): (Sock, seq<Msg>)
    requires s.phase == Live && Plausible(s.conn.queue + data, outcome)
  {
    var f := Enqueue(s.conn, id, delayed, data, outcome);
    (Sock(if f.destroyed then Gone else Live, f.conn,
          s.log.(enqueued := s.log.enqueued + data, wrote := s.log.wrote + f.wrote)),
     f.sent)
  }

  /** A READY from socket `src` of the other end; the first one makes the connection. */
  function OkaySock(s: Sock, src: nat, ack: Option<Uint32>): Sock
    requires s.phase == Live
  {
    if s.conn.peer.None? then
      Sock(Live, Acknowledge(s.conn.(peer := Some(src)), ack), s.log.(peer := Some(src)))
    else if s.conn.peer.value == src then s.(conn := Acknowledge(s.conn, ack))
    else s
  }

  // ---- what is on the wire

  /** The bytes of the WRTEs on the way. */
  function DataIn(w: seq<Msg>): seq<Byte> {
    if w == [] then [] else (if w[0].Wrte? then w[0].data else []) + DataIn(w[1..])
  }

  /** The bytes the OKAYs on the way acknowledge. */
  function AcksIn(w: seq<Msg>): nat {
    if w == [] then 0 else (if w[0].Okay? && w[0].ack.Some? then w[0].ack.value else 0) + AcksIn(w[1..])
  }

  /** What every message of a connection looks like. */
  ghost predicate Good(w: seq<Msg>, delayed: bool) {
    w == [] || (GoodMsg(w[0], delayed) && Good(w[1..], delayed))
  }

  ghost predicate GoodMsg(m: Msg, delayed: bool) {
    && !m.Open?
    && (m.Wrte? ==> 0 < |m.data| <= MAX_PAYLOAD)
    && (m.Okay? ==> m.ack.Some? == delayed && (delayed ==> m.ack.value < 0x8000_0000))
  }

  ghost predicate NoClse(w: seq<Msg>) {
    w == [] || (!w[0].Clse? && NoClse(w[1..]))
  }

  ghost predicate OnlyClse(w: seq<Msg>) {
    w == [] || (w[0].Clse? && OnlyClse(w[1..]))
  }

  /** A CLSE is the last word. */
  ghost predicate ClseLast(w: seq<Msg>) {
    w == [] || (if w[0].Clse? then OnlyClse(w[1..]) else ClseLast(w[1..]))
  }

  /** One more message at the end. */
  lemma WireSnoc(w: seq<Msg>, m: Msg, delayed: bool)
    ensures DataIn(w + [m]) == DataIn(w) + if m.Wrte? then m.data else []
    ensures AcksIn(w + [m]) == AcksIn(w) + if m.Okay? && m.ack.Some? then m.ack.value else 0
    ensures Good(w + [m], delayed) <==> Good(w, delayed) && GoodMsg(m, delayed)
    ensures NoClse(w + [m]) <==> NoClse(w) && !m.Clse?
    ensures OnlyClse(w + [m]) <==> OnlyClse(w) && m.Clse?
    ensures NoClse(w) || (ClseLast(w) && m.Clse?) ==> ClseLast(w + [m])
  {
    SumsSnoc(w, m);
    KindsSnoc(w, m, delayed);
  }

  lemma {:induction false} SumsSnoc(w: seq<Msg>, m: Msg)
    ensures DataIn(w + [m]) == DataIn(w) + if m.Wrte? then m.data else []
    ensures AcksIn(w + [m]) == AcksIn(w) + if m.Okay? && m.ack.Some? then m.ack.value else 0
  {
    if w == [] {
      assert w + [m] == [m] && [m][1..] == [];
    } else {
      SumsSnoc(w[1..], m);
      assert (w + [m])[1..] == w[1..] + [m];
      ConcatAssoc(if w[0].Wrte? then w[0].data else [], DataIn(w[1..]), if m.Wrte? then m.data else []);
    }
  }

  lemma {:induction false} KindsSnoc(w: seq<Msg>, m: Msg, delayed: bool)
    ensures Good(w + [m], delayed) <==> Good(w, delayed) && GoodMsg(m, delayed)
    ensures NoClse(w + [m]) <==> NoClse(w) && !m.Clse?
    ensures OnlyClse(w + [m]) <==> OnlyClse(w) && m.Clse?
    ensures NoClse(w) || (ClseLast(w) && m.Clse?) ==> ClseLast(w + [m])
  {
    if w == [] {
      assert w + [m] == [m] && [m][1..] == [];
    } else {
      KindsSnoc(w[1..], m, delayed);
      assert (w + [m])[1..] == w[1..] + [m];
    }
  }

  lemma {:induction false} OnlyClseIsEmpty(w: seq<Msg>)
    requires OnlyClse(w)
    ensures DataIn(w) == [] && AcksIn(w) == 0 && ClseLast(w)
  {
    if w != [] {
      OnlyClseIsEmpty(w[1..]);
    }
  }

  /** What the socket may still send. */
  function Credit(s: Sock): int {
    if s.conn.avail.Some? then s.conn.avail.value else 0
  }

  // ---- the invariant of a socket and of a connection

  /** What holds of a socket on its own. */
  ghost predicate SockInv(s: Sock, delayed: bool) {
    && s.log.wrote <= s.log.enqueued
    && (s.phase != Gone ==> s.log.enqueued == s.log.wrote + s.conn.queue)
    && (s.phase == Gone ==> s.conn.writeError || s.log.wrote == s.log.enqueued)
    && (s.phase == Live ==>
          && !s.conn.closing && s.conn.peer == s.log.peer && s.log.ending == Running && s.log.closes == 0
          && s.conn.avail.Some? == delayed
          && (delayed ==> s.conn.avail.value + MAX_PAYLOAD > 0)
          && (delayed && s.conn.peer.Some? ==> (s.conn.readArmed <==> s.conn.avail.value > 0))
          && (s.conn.peer.None? ==> s.conn.queue == [] && !s.conn.readArmed && (delayed ==> s.conn.avail.value == 0)))
    && (s.phase != Live ==>
          && s.conn.peer.None? && s.log.ending != Running
          && s.log.closes == if s.log.peer.Some? then 1 else 0)
    && (s.phase == Draining ==> s.conn.closing && !s.conn.readArmed)
    && (s.log.peer.None? ==> s.log.read == [] && s.log.enqueued == [] && s.log.ending != ByPeer)
    && (delayed && s.phase != Gone ==> |s.conn.queue| <= WINDOW_BOUND)
  }

  /** Unwritten bytes are waited for, unless the fd does not take any more. */
  ghost predicate Armed(s: Sock) {
    s.phase != Gone && s.conn.queue != [] && !s.conn.writeError ==> s.conn.writeArmed
  }

  /**
   * What holds between the two ends of connection (a, b), for the direction from x to y; `out` is on
   * the way from x to y and `back` from y to x.
   */
  ghost predicate Direction(x: Sock, y: Sock, b: nat, out: seq<Msg>, back: seq<Msg>, delayed: bool) {
    && Good(out, delayed) && ClseLast(out) && (x.phase == Live ==> NoClse(out))
    && (x.log.peer == Some(b) || x.log.peer == None)
    // the stream
    && (y.phase == Live ==> y.log.enqueued + DataIn(out) == x.log.read)
    && y.log.enqueued <= x.log.read
    && (y.log.ending == ByPeer ==> y.log.enqueued == x.log.read && x.phase != Live)
    // the credit
    && (delayed && y.phase == Live ==> |DataIn(out)| + |y.conn.queue| <= WINDOW_BOUND)
    && (delayed && y.phase == Live && x.phase == Live ==>
          Credit(x) + |DataIn(out)| + |y.conn.queue| + AcksIn(back) == INITIAL_DELAYED_ACK_BYTES)
    // the first message to a socket that is still connecting is the OKAY that connects it
    && (x.log.peer.None? ==>
          && OnlyClse(out)
          && (x.phase == Live ==> back != [] && back[0].Okay?))
  }

  /** Sockets a and b are, or are about to be, the two ends of a connection. */
  ghost predicate Connection(x: Sock, y: Sock, a: nat, b: nat, out: seq<Msg>, back: seq<Msg>, delayed: bool) {
    && SockInv(x, delayed) && SockInv(y, delayed)
    && Direction(x, y, b, out, back, delayed)
    && Direction(y, x, a, back, out, delayed)
    && (x.log.peer == Some(b) || y.log.peer == Some(a))
  }

  // ---- every event keeps it

  lemma ReadSockInv(x: Sock, a: nat, delayed: bool, data: seq<Byte>)
    requires SockInv(x, delayed) && x.phase == Live && x.conn.readArmed && |data| <= MAX_PAYLOAD
    ensures SockInv(ReadSock(x, a, data, false).0, delayed)
  {
  }

  lemma ReadKeeps(x: Sock, y: Sock, a: nat, b: nat, out: seq<Msg>, back: seq<Msg>, delayed: bool,
                  data: seq<Byte>)
    requires Connection(x, y, a, b, out, back, delayed)
    requires x.phase == Live && x.conn.readArmed && 0 < |data| <= MAX_PAYLOAD
    ensures ReadSock(x, a, data, false).1 == [Wrte(a, b, data)]
    ensures Connection(ReadSock(x, a, data, false).0, y, a, b, out + [Wrte(a, b, data)], back, delayed)
  {
    ReadSockInv(x, a, delayed, data);
    WireSnoc(out, Wrte(a, b, data), delayed);
  }

  lemma CloseSockInv(x: Sock, a: nat, delayed: bool, ending: Ending)
    requires SockInv(x, delayed) && x.phase == Live && ending != Running
    requires x.log.peer.None? ==> ending != ByPeer
    ensures SockInv(CloseSock(x, a, ending).0, delayed)
  {
  }

  lemma CloseKeeps(x: Sock, y: Sock, a: nat, b: nat, out: seq<Msg>, back: seq<Msg>, delayed: bool, ending: Ending)
    requires Connection(x, y, a, b, out, back, delayed)
    requires x.phase == Live && (ending == BySelf || ending == Refused)
    ensures var (x', sent) := CloseSock(x, a, ending);
            && (sent == if x.log.peer.Some? then [Clse(a, b)] else [])
            && Connection(x', y, a, b, out + sent, back, delayed)
  {
    CloseSockInv(x, a, delayed, ending);
    WireSnoc(out, Clse(a, b), delayed);
    assert out + [] == out;
  }

  /** What is written and what stays are the queue, and nothing is added to it. */
  lemma FlushCuts(c: Conn, id: nat, delayed: bool, outcome: WriteOutcome)
    requires Plausible(c.queue, outcome)
    ensures var f := FlushIncoming(c, id, delayed, outcome);
            c.queue == f.wrote + f.conn.queue && |f.conn.queue| <= |c.queue|
  {
  }

  lemma WriteSockInv(x: Sock, a: nat, delayed: bool, outcome: WriteOutcome)
    requires SockInv(x, delayed) && x.phase != Gone && Plausible(x.conn.queue, outcome)
    ensures SockInv(WriteSock(x, a, delayed, outcome).0, delayed)
    ensures Armed(WriteSock(x, a, delayed, outcome).0)
  {
    var f := FlushIncoming(x.conn, a, delayed, outcome);
    FlushCuts(x.conn, a, delayed, outcome);
    WrittenOn(x.log.wrote, f.wrote, f.conn.queue, x.conn.queue, x.log.enqueued);
  }

  lemma WrittenOn(wrote: seq<Byte>, more: seq<Byte>, rest: seq<Byte>, queue: seq<Byte>, all: seq<Byte>)
    requires queue == more + rest && all == wrote + queue
    ensures all == (wrote + more) + rest && wrote + more <= all && (rest == [] ==> wrote + more == all)
  {
    ConcatAssoc(wrote, more, rest);
  }

  lemma WriteKeeps(x: Sock, y: Sock, a: nat, b: nat, out: seq<Msg>, back: seq<Msg>, delayed: bool,
                   outcome: WriteOutcome)
    requires Connection(x, y, a, b, out, back, delayed)
    requires x.phase != Gone && Plausible(x.conn.queue, outcome)
    ensures var (x', sent) := WriteSock(x, a, delayed, outcome);
            Connection(x', y, a, b, out + sent, back, delayed)
  {
    var (x', sent) := WriteSock(x, a, delayed, outcome);
    WriteSockInv(x, a, delayed, outcome);
    if sent == [] {
      assert out + [] == out;
    } else {
      WireSnoc(out, sent[0], delayed);
    }
  }

  /** Enqueueing is taking the data over and then flushing. */
  function TakeOver(x: Sock, data: seq<Byte>): Sock {
    Sock(x.phase, x.conn.(queue := x.conn.queue + data), x.log.(enqueued := x.log.enqueued + data))
  }

  lemma TakeOverKeeps(x: Sock, y: Sock, a: nat, b: nat, out: seq<Msg>, back: seq<Msg>, delayed: bool)
    requires Connection(x, y, a, b, out, back, delayed)
    requires x.phase == Live && x.conn.peer == Some(b) && back != [] && back[0].Wrte?
    ensures Connection(TakeOver(x, back[0].data), y, a, b, out, back[1..], delayed)
  {
    ConcatAssoc(x.log.wrote, x.conn.queue, back[0].data);
    ConcatAssoc(x.log.enqueued, back[0].data, DataIn(back[1..]));
  }

  lemma EnqueueKeeps(x: Sock, y: Sock, a: nat, b: nat, out: seq<Msg>, back: seq<Msg>, delayed: bool,
                     outcome: WriteOutcome)
    requires Connection(x, y, a, b, out, back, delayed)
    requires x.phase == Live && x.conn.peer == Some(b)
    requires back != [] && back[0].Wrte? && Plausible(x.conn.queue + back[0].data, outcome)
    ensures var (x', sent) := EnqueueSock(x, a, delayed, back[0].data, outcome);
            && x'.phase == Live && Armed(x')
            && Connection(x', y, a, b, out + sent, back[1..], delayed)
  {
    TakeOverKeeps(x, y, a, b, out, back, delayed);
    WriteSockInv(TakeOver(x, back[0].data), a, delayed, outcome);
    WriteKeeps(TakeOver(x, back[0].data), y, a, b, out, back[1..], delayed, outcome);
  }

  lemma OkaySockInv(x: Sock, b: nat, delayed: bool, ack: Option<Uint32>)
    requires SockInv(x, delayed) && x.phase == Live
    requires ack.Some? == delayed && (delayed ==> ack.value < 0x8000_0000)
    ensures SockInv(OkaySock(x, b, ack), delayed)
  {
  }

  lemma OkayKeeps(x: Sock, y: Sock, a: nat, b: nat, out: seq<Msg>, back: seq<Msg>, delayed: bool)
    requires Connection(x, y, a, b, out, back, delayed)
    requires x.phase == Live && back != [] && back[0].Okay?
    ensures Connection(OkaySock(x, b, back[0].ack), y, a, b, out, back[1..], delayed)
  {
    OkaySockInv(x, b, delayed, back[0].ack);
  }

  /** A READY for a socket that is not live any more is answered with a CLSE. */
  lemma LateOkayKeeps(x: Sock, y: Sock, a: nat, b: nat, out: seq<Msg>, back: seq<Msg>, delayed: bool)
    requires Connection(x, y, a, b, out, back, delayed)
    requires x.phase != Live && back != [] && back[0].Okay?
    ensures Connection(x, y, a, b, out + [Clse(a, b)], back[1..], delayed)
  {
    WireSnoc(out, Clse(a, b), delayed);
  }

  /** Data and CLSEs for a socket that is not live any more are dropped. */
  lemma DropKeeps(x: Sock, y: Sock, a: nat, b: nat, out: seq<Msg>, back: seq<Msg>, delayed: bool)
    requires Connection(x, y, a, b, out, back, delayed)
    requires x.phase != Live && back != [] && !back[0].Okay?
    ensures Connection(x, y, a, b, out, back[1..], delayed)
  {
  }

  /** A CLSE finds its socket connected, with every byte of the other end already taken over. */
  lemma PeerCloseKeeps(x: Sock, y: Sock, a: nat, b: nat, out: seq<Msg>, back: seq<Msg>, delayed: bool)
    requires Connection(x, y, a, b, out, back, delayed)
    requires x.phase == Live && back != [] && back[0].Clse?
    ensures x.conn.peer == Some(b) && x.log.enqueued == y.log.read
    ensures CloseSock(x, a, ByPeer).1 == [Clse(a, b)]
    ensures Connection(CloseSock(x, a, ByPeer).0, y, a, b, out + [Clse(a, b)], back[1..], delayed)
  {
    CloseSockInv(x, a, delayed, ByPeer);
    OnlyClseIsEmpty(back);
    WireSnoc(out, Clse(a, b), delayed);
  }

  lemma AcceptMakes(y: Sock, a: nat, b: nat, delayed: bool)
    requires SockInv(y, delayed) && y.log.peer.None?
    ensures Connection(AcceptSock(b, OpenWindow(delayed), delayed), y, a, b,
                       [Ready(a, b, delayed, INITIAL_DELAYED_ACK_BYTES)], [], delayed)
  {
  }
}
