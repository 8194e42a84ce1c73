/**
 * Two adb processes joined by two first-in first-out wires, with any number of sockets each.
 * Every step is one event at one process; what holds of all runs is proved by induction over steps.
 */
module StreamSystem {
  import opened Bytes
  import opened FdIo
  import opened Framing
  import opened StreamProtocol
  import opened StreamConnection

  /** `out` is on its way from the near process to the far one, and `back` the other way. */
  datatype System = System(delayed: bool, near: map<nat, Sock>, far: map<nat, Sock>, out: seq<Msg>, back: seq<Msg>)

  function Swap(s: System): System {
    System(s.delayed, s.far, s.near, s.back, s.out)
  }

  function Initial(delayed: bool): System {
    System(delayed, map[], map[], [], [])
  }

  /**
   * What can happen at the near process.  In Receive, `newId`, `accept` and `outcome` are what the
   * environment decides about the packet at the head of the wire, whichever kind it is.
   */
  datatype Event =
    | Connect(id: nat)
    | Readable(id: nat, data: seq<Byte>, eof: bool)
    | Writable(id: nat, outcome: WriteOutcome)
    | CloseLocal(id: nat)
    | Receive(newId: nat, accept: bool, outcome: WriteOutcome)

  predicate IsLive(socks: map<nat, Sock>, id: nat) {
    id in socks && socks[id].phase == Live
  }

  /** An fd event comes only while the fd is watched for it; ids are never 0 and never reused. */
  predicate Enabled(s: System, e: Event) {
    match e
    case Connect(id) => id != 0 && id !in s.near
    case Readable(id, data, eof) => IsLive(s.near, id) && s.near[id].conn.readArmed && |data| <= MAX_PAYLOAD
    case Writable(id, outcome) =>
      && id in s.near && s.near[id].phase != Gone && s.near[id].conn.writeArmed
      && Plausible(s.near[id].conn.queue, outcome)
    case CloseLocal(id) => IsLive(s.near, id)
    case Receive(newId, accept, outcome) =>
      && s.back != []
      && (s.back[0].Open? ==> newId != 0 && newId !in s.near)
      && (s.back[0].Wrte? && IsLive(s.near, s.back[0].dst) ==>
            Plausible(s.near[s.back[0].dst].conn.queue + s.back[0].data, outcome))
  }

  function Put(s: System, id: nat, step: (Sock, seq<Msg>)): System {
    s.(near := s.near[id := step.0], out := s.out + step.1)
  }

  /** The A_OPEN, A_OKAY, A_CLSE and A_WRTE cases of handle_packet. */
  function Handle(s: System, m: Msg, newId: nat, accept: bool, outcome: WriteOutcome): System
    requires m.Wrte? && IsLive(s.near, m.dst) ==> Plausible(s.near[m.dst].conn.queue + m.data, outcome)
  {
    match m
    case Open(src, window) =>
      if src == 0 then s
      else if s.delayed != (window != 0) || !accept then s.(out := s.out + [Clse(0, src)])
      else Put(s, newId, (AcceptSock(src, window, s.delayed),
                          [Ready(newId, src, s.delayed, INITIAL_DELAYED_ACK_BYTES)]))
    case Okay(src, dst, ack) =>
      if src == 0 || dst == 0 then s
      else if IsLive(s.near, dst) then Put(s, dst, (OkaySock(s.near[dst], src, ack), []))
      else s.(out := s.out + [Clse(dst, src)])
    case Clse(src, dst) =>
      if dst != 0 && IsLive(s.near, dst) && (src == 0 || s.near[dst].conn.peer == Some(src))
      then Put(s, dst, CloseSock(s.near[dst], dst, if src == 0 then Refused else ByPeer))
      else s
    case Wrte(src, dst, data) =>
      if src != 0 && dst != 0 && IsLive(s.near, dst) && s.near[dst].conn.peer == Some(src)
      then Put(s, dst, EnqueueSock(s.near[dst], dst, s.delayed, data, outcome))
      else s
  }

  function Apply(s: System, e: Event): System
    requires Enabled(s, e)
  {
    match e
    case Connect(id) => Put(s, id, (ConnectSock(s.delayed), [Open(id, OpenWindow(s.delayed))]))
    case Readable(id, data, eof) => Put(s, id, ReadSock(s.near[id], id, data, eof))
    case Writable(id, outcome) => Put(s, id, WriteSock(s.near[id], id, s.delayed, outcome))
    case CloseLocal(id) => Put(s, id, CloseSock(s.near[id], id, BySelf))
    case Receive(newId, accept, outcome) =>
      Handle(s.(back := s.back[1..]), s.back[0], newId, accept, outcome)
  }

  ghost predicate Next(s: System, s': System) {
    || (exists e :: Enabled(s, e) && s' == Apply(s, e))
    || (exists e :: Enabled(Swap(s), e) && s' == Swap(Apply(Swap(s), e)))
  }

  ghost predicate IsRun(run: seq<System>) {
    && run != []
    && run[0] == Initial(run[0].delayed)
    && (forall i :: 0 < i < |run| ==> Next(run[i - 1], run[i]))
  }

  // ---- the messages between two given sockets

  predicate IsBetween(m: Msg, a: nat, b: nat) {
    !m.Open? && m.src == a && m.dst == b
  }

  function Between(w: seq<Msg>, a: nat, b: nat): seq<Msg> {
    if w == [] then []
    else if IsBetween(w[0], a, b) then [w[0]] + Between(w[1..], a, b)
    else Between(w[1..], a, b)
  }

  lemma {:induction false} BetweenSnoc(w: seq<Msg>, m: Msg, a: nat, b: nat)
    ensures Between(w + [m], a, b) == Between(w, a, b) + if IsBetween(m, a, b) then [m] else []
  {
    if w == [] {
      assert [m][1..] == [] && w + [m] == [m];
    } else {
      BetweenSnoc(w[1..], m, a, b);
      assert (w + [m])[1..] == w[1..] + [m];
    }
  }

  // ---- the invariant

  ghost predicate Related(s: System, a: nat, b: nat) {
    || (a in s.near && s.near[a].log.peer == Some(b))
    || (b in s.far && s.far[b].log.peer == Some(a))
  }

  /** Sockets a and b are the ends of one connection, or have nothing to do with each other. */
  ghost predicate PairInv(s: System, a: nat, b: nat) {
    if Related(s, a, b) then
      && a in s.near && b in s.far
      && Connection(s.near[a], s.far[b], a, b, Between(s.out, a, b), Between(s.back, b, a), s.delayed)
    else
      Between(s.out, a, b) == [] && Between(s.back, b, a) == []
  }

  /** An OPEN on the way: nobody answered it yet, and nobody else asked for the same socket. */
  ghost predicate OpenInv(s: System, m: Msg)
    requires m.Open?
  {
    && m.src != 0 && m.src in s.near && s.near[m.src].log.peer.None?
    && m.window == OpenWindow(s.delayed)
    && (forall b :: b in s.far ==> s.far[b].log.peer != Some(m.src))
  }

  /** A refusal of socket b's OPEN on the way: b will never be connected. */
  ghost predicate RefusalInv(s: System, b: nat) {
    && b in s.far && s.far[b].log.peer.None?
    && (forall a :: a in s.near ==> s.near[a].log.peer != Some(b))
    && (forall i :: 0 <= i < |s.back| && s.back[i].Open? ==> s.back[i].src != b)
  }

  ghost predicate MsgInv(s: System, m: Msg) {
    && (m.Open? ==> OpenInv(s, m))
    && (!m.Open? ==> m.dst != 0)
    && (m.Okay? || m.Wrte? ==> m.src != 0)
    && (m.Clse? && m.src == 0 ==> RefusalInv(s, m.dst))
  }

  ghost predicate UniquePeers(socks: map<nat, Sock>) {
    forall a, b :: a in socks && b in socks && socks[a].log.peer.Some? && socks[a].log.peer == socks[b].log.peer ==>
      a == b
  }

  ghost predicate UniqueOpens(w: seq<Msg>) {
    forall i, j :: 0 <= i < j < |w| && w[i].Open? && w[j].Open? ==> w[i].src != w[j].src
  }

  ghost predicate SocksInv(socks: map<nat, Sock>, delayed: bool) {
    && 0 !in socks
    && (forall a :: a in socks ==> SockInv(socks[a], delayed) && Armed(socks[a]) && socks[a].log.peer != Some(0))
    && UniquePeers(socks)
  }

  ghost predicate WireInv(s: System) {
    && UniqueOpens(s.out)
    && (forall i :: 0 <= i < |s.out| ==> MsgInv(s, s.out[i]))
  }

  /** The part of the invariant that speaks about the near process and what it sent. */
  ghost predicate HalfInv(s: System) {
    SocksInv(s.near, s.delayed) && WireInv(s)
  }

  ghost predicate Pairs(s: System) {
    forall a, b :: a != 0 && b != 0 ==> PairInv(s, a, b)
  }

  ghost predicate Inv(s: System) {
    HalfInv(s) && HalfInv(Swap(s)) && Pairs(s)
  }

  // ---- how a change at one socket carries over

  /** The wire from the far process stays, or its first message, which is for socket `id`, is taken off. */
  predicate Taken(back: seq<Msg>, back': seq<Msg>, id: nat) {
    back' == back || (back != [] && back' == back[1..] && !back[0].Open? && back[0].dst == id)
  }

  lemma TakenBetween(back: seq<Msg>, back': seq<Msg>, id: nat, b: nat, a: nat)
    requires Taken(back, back', id) && a != id
    ensures Between(back', b, a) == Between(back, b, a)
  {
  }

  /** Connections of other sockets do not notice. */
  lemma OthersKeep(s: System, s': System, id: nat)
    requires Pairs(s) && s'.far == s.far && s'.delayed == s.delayed
    requires forall a :: a != id ==> (a in s'.near <==> a in s.near) && (a in s.near ==> s'.near[a] == s.near[a])
    requires forall a, b :: a != id && a != 0 && b != 0 ==>
               Between(s'.out, a, b) == Between(s.out, a, b) && Between(s'.back, b, a) == Between(s.back, b, a)
    ensures forall a, b :: a != id && a != 0 && b != 0 ==> PairInv(s', a, b)
  {
    forall a, b | a != id && a != 0 && b != 0
      ensures PairInv(s', a, b)
    {
      assert PairInv(s, a, b);
    }
  }

  /** A socket keeps its peer, or is connecting and finds the peer that already accepted it. */
  ghost predicate PeerGrows(s: System, id: nat, x: Sock) {
    && id in s.near
    && (|| x.log.peer == s.near[id].log.peer
        || (&& s.near[id].log.peer.None? && x.log.peer.Some?
            && x.log.peer.value in s.far && s.far[x.log.peer.value].log.peer == Some(id)))
  }

  predicate SaysOne(sent: seq<Msg>, id: nat) {
    sent == [] || (|sent| == 1 && !sent[0].Open? && sent[0].src == id && sent[0].dst != 0)
  }

  /** What an event at socket `id` may do: say at most one thing, and that to the socket it is connected to. */
  ghost predicate IsUpdate(s: System, id: nat, x: Sock, sent: seq<Msg>, back: seq<Msg>) {
    && PeerGrows(s, id, x)
    && SockInv(x, s.delayed) && Armed(x)
    && SaysOne(sent, id) && (sent != [] ==> Related(s, id, sent[0].dst))
    && Taken(s.back, back, id)
    && (forall b :: b != 0 && Related(s, id, b) ==>
          && b in s.far
          && Connection(x, s.far[b], id, b, Between(s.out, id, b) + sent, Between(back, b, id), s.delayed))
  }

  function Updated(s: System, id: nat, x: Sock, sent: seq<Msg>, back: seq<Msg>): System {
    System(s.delayed, s.near[id := x], s.far, s.out + sent, back)
  }

  lemma SentBetween(w: seq<Msg>, sent: seq<Msg>, a: nat, b: nat)
    requires |sent| <= 1
    ensures Between(w + sent, a, b) == Between(w, a, b) + if sent != [] && IsBetween(sent[0], a, b) then sent else []
  {
    if sent == [] {
      assert w + sent == w;
    } else {
      assert sent == [sent[0]];
      BetweenSnoc(w, sent[0], a, b);
    }
  }

  /** A socket has at most one other end. */
  lemma RelatedOnce(s: System, a: nat, b: nat, c: nat)
    requires Inv(s) && a != 0 && b != 0 && c != 0 && Related(s, a, b) && Related(s, a, c)
    ensures b == c
  {
    assert PairInv(s, a, b) && PairInv(s, a, c);
  }

  lemma UpdatePairs(s: System, id: nat, x: Sock, sent: seq<Msg>, back: seq<Msg>)
    requires Inv(s) && IsUpdate(s, id, x, sent, back)
    ensures Pairs(Updated(s, id, x, sent, back))
  {
    var s' := Updated(s, id, x, sent, back);
    forall a, b | a != id && a != 0 && b != 0
      ensures Between(s'.out, a, b) == Between(s.out, a, b) && Between(s'.back, b, a) == Between(s.back, b, a)
    {
      SentBetween(s.out, sent, a, b);
      TakenBetween(s.back, back, id, b, a);
    }
    OthersKeep(s, s', id);
    forall b | b != 0
      ensures PairInv(s', id, b)
    {
      assert PairInv(s, id, b);
      SentBetween(s.out, sent, id, b);
      assert Related(s', id, b) <==> Related(s, id, b);
      if Related(s, id, b) && sent != [] {
        RelatedOnce(s, id, b, sent[0].dst);
      }
      assert Between(s.out, id, b) + [] == Between(s.out, id, b);
    }
  }

  /** A message from the near process stays legitimate. */
  lemma OutMsgKeeps(s: System, id: nat, x: Sock, sent: seq<Msg>, back: seq<Msg>, m: Msg)
    requires PeerGrows(s, id, x) && MsgInv(s, m)
    requires forall n :: n in back && n.Open? ==> n in s.back
    ensures MsgInv(Updated(s, id, x, sent, back), m)
  {
  }

  /** A message from the far process stays legitimate. */
  lemma BackMsgKeeps(s: System, id: nat, x: Sock, sent: seq<Msg>, back: seq<Msg>, m: Msg)
    requires PeerGrows(s, id, x) && MsgInv(Swap(s), m)
    requires SaysOne(sent, id)
    ensures MsgInv(Swap(Updated(s, id, x, sent, back)), m)
  {
  }

  lemma UpdateOut(s: System, id: nat, x: Sock, sent: seq<Msg>, back: seq<Msg>)
    requires WireInv(s) && id != 0 && PeerGrows(s, id, x) && SaysOne(sent, id) && Taken(s.back, back, id)
    ensures WireInv(Updated(s, id, x, sent, back))
  {
    var s' := Updated(s, id, x, sent, back);
    forall i | 0 <= i < |s'.out|
      ensures MsgInv(s', s'.out[i])
    {
      if i < |s.out| {
        OutMsgKeeps(s, id, x, sent, back, s.out[i]);
      } else {
        assert s'.out[i] == sent[0];
      }
    }
  }

  lemma UpdateBack(s: System, id: nat, x: Sock, sent: seq<Msg>, back: seq<Msg>)
    requires WireInv(Swap(s)) && PeerGrows(s, id, x) && SaysOne(sent, id) && Taken(s.back, back, id)
    ensures WireInv(Swap(Updated(s, id, x, sent, back)))
  {
    forall i | 0 <= i < |back|
      ensures MsgInv(Swap(Updated(s, id, x, sent, back)), back[i])
    {
      BackMsgKeeps(s, id, x, sent, back, s.back[if back == s.back then i else i + 1]);
    }
  }

  lemma UpdateSocks(s: System, id: nat, x: Sock)
    requires Inv(s) && PeerGrows(s, id, x) && SockInv(x, s.delayed) && Armed(x)
    ensures SocksInv(s.near[id := x], s.delayed)
  {
    if x.log.peer != s.near[id].log.peer {
      var b := x.log.peer.value;
      forall a | a in s.near && a != id
        ensures s.near[a].log.peer != Some(b)
      {
        assert PairInv(s, a, b);
      }
    }
  }

  lemma UpdateKeeps(s: System, id: nat, x: Sock, sent: seq<Msg>, back: seq<Msg>)
    requires Inv(s) && IsUpdate(s, id, x, sent, back)
    ensures Inv(Updated(s, id, x, sent, back))
  {
    UpdatePairs(s, id, x, sent, back);
    UpdateSocks(s, id, x);
    UpdateOut(s, id, x, sent, back);
    UpdateBack(s, id, x, sent, back);
  }

  lemma PeerIsRelated(s: System, id: nat)
    requires Inv(s) && id in s.near && s.near[id].log.peer.Some?
    ensures s.near[id].log.peer.value != 0 && Related(s, id, s.near[id].log.peer.value)
  {
  }

  // ---- the events

  lemma ReadableKeeps(s: System, id: nat, data: seq<Byte>)
    requires Inv(s) && Enabled(s, Readable(id, data, false))
    ensures Inv(Apply(s, Readable(id, data, false)))
  {
    var x := s.near[id];
    var (x', sent) := ReadSock(x, id, data, false);
    if data == [] {
      assert s.near[id := x'] == s.near && s.out + sent == s.out;
    } else {
      ReadSockInv(x, id, s.delayed, data);
      PeerIsRelated(s, id);
      forall b | b != 0 && Related(s, id, b)
        ensures b in s.far
        ensures Connection(x', s.far[b], id, b, Between(s.out, id, b) + sent, Between(s.back, b, id), s.delayed)
      {
        assert PairInv(s, id, b);
        ReadKeeps(x, s.far[b], id, b, Between(s.out, id, b), Between(s.back, b, id), s.delayed, data);
      }
      UpdateKeeps(s, id, x', sent, s.back);
    }
  }

  lemma CloseLocalKeeps(s: System, id: nat)
    requires Inv(s) && Enabled(s, CloseLocal(id))
    ensures Inv(Apply(s, CloseLocal(id)))
  {
    var x := s.near[id];
    var (x', sent) := CloseSock(x, id, BySelf);
    CloseSockInv(x, id, s.delayed, BySelf);
    forall b | b != 0 && Related(s, id, b)
      ensures b in s.far
      ensures Connection(x', s.far[b], id, b, Between(s.out, id, b) + sent, Between(s.back, b, id), s.delayed)
    {
      assert PairInv(s, id, b);
      CloseKeeps(x, s.far[b], id, b, Between(s.out, id, b), Between(s.back, b, id), s.delayed, BySelf);
    }
    UpdateKeeps(s, id, x', sent, s.back);
  }

  /** Reading up to the end of the file is reading, then closing. */
  lemma ReadableEofKeeps(s: System, id: nat, data: seq<Byte>)
    requires Inv(s) && Enabled(s, Readable(id, data, true))
    ensures Inv(Apply(s, Readable(id, data, true)))
  {
    var t := Apply(s, Readable(id, data, false));
    ReadableKeeps(s, id, data);
    CloseLocalKeeps(t, id);
    var (x', sent) := ReadSock(s.near[id], id, data, false);
    ConcatAssoc(s.out, sent, CloseSock(x', id, BySelf).1);
    assert s.near[id := x'][id := CloseSock(x', id, BySelf).0] == s.near[id := CloseSock(x', id, BySelf).0];
  }

  lemma WritableKeeps(s: System, id: nat, outcome: WriteOutcome)
    requires Inv(s) && Enabled(s, Writable(id, outcome))
    ensures Inv(Apply(s, Writable(id, outcome)))
  {
    var x := s.near[id];
    var (x', sent) := WriteSock(x, id, s.delayed, outcome);
    WriteSockInv(x, id, s.delayed, outcome);
    forall b | b != 0 && Related(s, id, b)
      ensures b in s.far
      ensures Connection(x', s.far[b], id, b, Between(s.out, id, b) + sent, Between(s.back, b, id), s.delayed)
    {
      assert PairInv(s, id, b);
      WriteKeeps(x, s.far[b], id, b, Between(s.out, id, b), Between(s.back, b, id), s.delayed, outcome);
    }
    UpdateKeeps(s, id, x', sent, s.back);
  }

  /** A message in flight between two sockets that are not 0 belongs to a connection. */
  lemma HeadIsConnected(s: System)
    requires Inv(s) && s.back != [] && !s.back[0].Open? && s.back[0].src != 0
    ensures var m := s.back[0];
            && m.dst in s.near && m.src in s.far && Related(s, m.dst, m.src)
            && Between(s.back, m.src, m.dst) == [m] + Between(s.back[1..], m.src, m.dst)
            && Connection(s.near[m.dst], s.far[m.src], m.dst, m.src,
                          Between(s.out, m.dst, m.src), Between(s.back, m.src, m.dst), s.delayed)
            && (forall b :: b != 0 && Related(s, m.dst, b) ==> b == m.src)
  {
    var m := s.back[0];
    assert MsgInv(Swap(s), m);
    assert PairInv(s, m.dst, m.src);
    forall b | b != 0 && Related(s, m.dst, b)
      ensures b == m.src
    {
      assert PairInv(s, m.dst, b);
    }
  }

  /** The pair the head of the wire belongs to, with that message taken off. */
  lemma HeadUpdate(s: System, x: Sock, sent: seq<Msg>)
    requires Inv(s) && s.back != [] && !s.back[0].Open? && s.back[0].src != 0
    requires s.back[0].dst in s.near && s.back[0].src in s.far
    requires var m := s.back[0];
             && PeerGrows(s, m.dst, x) && Armed(x)
             && (sent == [] || (|sent| == 1 && IsBetween(sent[0], m.dst, m.src)))
             && Connection(x, s.far[m.src], m.dst, m.src, Between(s.out, m.dst, m.src) + sent,
                           Between(s.back, m.src, m.dst)[1..], s.delayed)
    ensures Inv(Updated(s, s.back[0].dst, x, sent, s.back[1..]))
  {
    var m := s.back[0];
    assert MsgInv(Swap(s), m);
    HeadIsConnected(s);
    assert Between(s.back, m.src, m.dst)[1..] == Between(s.back[1..], m.src, m.dst);
    UpdateKeeps(s, m.dst, x, sent, s.back[1..]);
  }

  /** A message nobody wants any more is taken off and nothing else happens. */
  lemma DropHead(s: System)
    requires Inv(s) && s.back != [] && (s.back[0].Wrte? || s.back[0].Clse?) && s.back[0].src != 0
    requires !IsLive(s.near, s.back[0].dst)
    ensures Inv(s.(back := s.back[1..]))
  {
    var m := s.back[0];
    HeadIsConnected(s);
    var (x, y) := (s.near[m.dst], s.far[m.src]);
    var (inFlight, out) := (Between(s.back, m.src, m.dst), Between(s.out, m.dst, m.src));
    DropKeeps(x, y, m.dst, m.src, out, inFlight, s.delayed);
    assert out + [] == out;
    HeadUpdate(s, x, []);
    UpdateNothing(s, m.dst, s.back[1..]);
  }

  lemma UpdateNothing(s: System, id: nat, back: seq<Msg>)
    requires id in s.near
    ensures Updated(s, id, s.near[id], [], back) == s.(back := back)
  {
    assert s.near[id := s.near[id]] == s.near && s.out + [] == s.out;
  }

  /** The receiver of a WRTE is connected to its sender, or not live any more. */
  lemma WrteKeeps(s: System, outcome: WriteOutcome)
    requires Inv(s) && s.back != [] && s.back[0].Wrte? && IsLive(s.near, s.back[0].dst)
    requires Plausible(s.near[s.back[0].dst].conn.queue + s.back[0].data, outcome)
    ensures var m := s.back[0];
            var (x, sent) := EnqueueSock(s.near[m.dst], m.dst, s.delayed, m.data, outcome);
            && m.src != 0 && m.dst != 0 && s.near[m.dst].conn.peer == Some(m.src)
            && Inv(Updated(s, m.dst, x, sent, s.back[1..]))
  {
    var m := s.back[0];
    assert MsgInv(Swap(s), m);
    HeadIsConnected(s);
    EnqueueKeeps(s.near[m.dst], s.far[m.src], m.dst, m.src,
                 Between(s.out, m.dst, m.src), Between(s.back, m.src, m.dst), s.delayed, outcome);
    var (x, sent) := EnqueueSock(s.near[m.dst], m.dst, s.delayed, m.data, outcome);
    HeadUpdate(s, x, sent);
  }

  /** The receiver of a CLSE has every byte its sender ever sent. */
  lemma ClseKeeps(s: System)
    requires Inv(s) && s.back != [] && s.back[0].Clse? && s.back[0].src != 0 && IsLive(s.near, s.back[0].dst)
    ensures var m := s.back[0];
            var (x, sent) := CloseSock(s.near[m.dst], m.dst, ByPeer);
            && m.dst != 0 && s.near[m.dst].conn.peer == Some(m.src)
            && Inv(Updated(s, m.dst, x, sent, s.back[1..]))
  {
    var m := s.back[0];
    assert MsgInv(Swap(s), m);
    HeadIsConnected(s);
    PeerCloseKeeps(s.near[m.dst], s.far[m.src], m.dst, m.src,
                   Between(s.out, m.dst, m.src), Between(s.back, m.src, m.dst), s.delayed);
    var (x, sent) := CloseSock(s.near[m.dst], m.dst, ByPeer);
    HeadUpdate(s, x, sent);
  }

  /** CLOSE(0, id): the OPEN of socket id was refused. */
  lemma RefusalKeeps(s: System)
    requires Inv(s) && s.back != [] && s.back[0].Clse? && s.back[0].src == 0
    ensures var id := s.back[0].dst;
            && id != 0 && id in s.near
            && Inv(s.(back := s.back[1..]))
            && (s.near[id].phase == Live ==>
                  var (x, sent) := CloseSock(s.near[id], id, Refused);
                  sent == [] && Inv(Updated(s, id, x, sent, s.back[1..])))
  {
    var id := s.back[0].dst;
    assert MsgInv(Swap(s), s.back[0]);
    UpdateKeeps(s, id, s.near[id], [], s.back[1..]);
    UpdateNothing(s, id, s.back[1..]);
    if s.near[id].phase == Live {
      CloseSockInv(s.near[id], id, s.delayed, Refused);
      UpdateKeeps(s, id, CloseSock(s.near[id], id, Refused).0, [], s.back[1..]);
    }
  }

  lemma OkayLiveKeeps(s: System)
    requires Inv(s) && s.back != [] && s.back[0].Okay? && IsLive(s.near, s.back[0].dst)
    ensures var m := s.back[0];
            && m.src != 0 && m.dst != 0
            && Inv(Updated(s, m.dst, OkaySock(s.near[m.dst], m.src, m.ack), [], s.back[1..]))
  {
    var m := s.back[0];
    assert MsgInv(Swap(s), m);
    HeadIsConnected(s);
    var out := Between(s.out, m.dst, m.src);
    OkayKeeps(s.near[m.dst], s.far[m.src], m.dst, m.src, out, Between(s.back, m.src, m.dst), s.delayed);
    assert out + [] == out;
    HeadUpdate(s, OkaySock(s.near[m.dst], m.src, m.ack), []);
  }

  lemma OkayLateKeeps(s: System)
    requires Inv(s) && s.back != [] && s.back[0].Okay? && !IsLive(s.near, s.back[0].dst)
    ensures var m := s.back[0];
            && m.src != 0 && m.dst != 0
            && Inv(s.(out := s.out + [Clse(m.dst, m.src)], back := s.back[1..]))
  {
    var m := s.back[0];
    assert MsgInv(Swap(s), m);
    HeadIsConnected(s);
    LateOkayKeeps(s.near[m.dst], s.far[m.src], m.dst, m.src,
                  Between(s.out, m.dst, m.src), Between(s.back, m.src, m.dst), s.delayed);
    HeadUpdate(s, s.near[m.dst], [Clse(m.dst, m.src)]);
    assert s.near[m.dst := s.near[m.dst]] == s.near;
  }

  /** An id that was never used is nobody's peer, and nothing is on the way for it. */
  lemma NewIdIsAlone(s: System, id: nat, b: nat)
    requires Pairs(s) && id != 0 && b != 0 && id !in s.near
    ensures Between(s.out, id, b) == [] && Between(s.back, b, id) == []
    ensures b in s.far ==> s.far[b].log.peer != Some(id)
  {
    assert PairInv(s, id, b);
  }

  function Connected(s: System, id: nat): System {
    System(s.delayed, s.near[id := ConnectSock(s.delayed)], s.far, s.out + [Open(id, OpenWindow(s.delayed))], s.back)
  }

  lemma ConnectPairs(s: System, id: nat)
    requires Inv(s) && id != 0 && id !in s.near
    ensures Pairs(Connected(s, id))
  {
    var s' := Connected(s, id);
    forall a, b | true
      ensures Between(s'.out, a, b) == Between(s.out, a, b)
    {
      BetweenSnoc(s.out, Open(id, OpenWindow(s.delayed)), a, b);
    }
    OthersKeep(s, s', id);
    forall b | b != 0
      ensures PairInv(s', id, b)
    {
      NewIdIsAlone(s, id, b);
    }
  }

  lemma ConnectOut(s: System, id: nat)
    requires Inv(s) && id != 0 && id !in s.near
    ensures WireInv(Connected(s, id))
  {
    var s' := Connected(s, id);
    forall b | b in s.far
      ensures s.far[b].log.peer != Some(id)
    {
      NewIdIsAlone(s, id, b);
    }
    forall i | 0 <= i < |s'.out|
      ensures MsgInv(s', s'.out[i])
    {
      assert i < |s.out| ==> MsgInv(s, s.out[i]);
    }
  }

  lemma ConnectBack(s: System, id: nat)
    requires WireInv(Swap(s)) && id !in s.near
    ensures WireInv(Swap(Connected(s, id)))
  {
    var s' := Connected(s, id);
    forall i | 0 <= i < |s'.back|
      ensures MsgInv(Swap(s'), s'.back[i])
    {
      assert MsgInv(Swap(s), s.back[i]);
    }
  }

  lemma ConnectKeeps(s: System, id: nat)
    requires Inv(s) && Enabled(s, Connect(id))
    ensures Inv(Apply(s, Connect(id)))
  {
    ConnectPairs(s, id);
    ConnectOut(s, id);
    ConnectBack(s, id);
    assert Apply(s, Connect(id)) == Connected(s, id);
  }

  function AcceptedBy(s: System, id: nat, b: nat): System
    requires s.back != []
  {
    System(s.delayed, s.near[id := AcceptSock(b, OpenWindow(s.delayed), s.delayed)], s.far,
           s.out + [Ready(id, b, s.delayed, INITIAL_DELAYED_ACK_BYTES)], s.back[1..])
  }

  lemma AcceptPairs(s: System, id: nat, b: nat)
    requires Inv(s) && id != 0 && id !in s.near && s.back != [] && s.back[0].Open? && s.back[0].src == b
    ensures Pairs(AcceptedBy(s, id, b))
  {
    var s' := AcceptedBy(s, id, b);
    var ready := Ready(id, b, s.delayed, INITIAL_DELAYED_ACK_BYTES);
    assert MsgInv(Swap(s), s.back[0]);
    forall a, c | true
      ensures Between(s'.out, a, c) == Between(s.out, a, c) + if IsBetween(ready, a, c) then [ready] else []
      ensures Between(s'.back, c, a) == Between(s.back, c, a)
    {
      BetweenSnoc(s.out, ready, a, c);
    }
    OthersKeep(s, s', id);
    forall c | c != 0
      ensures PairInv(s', id, c)
    {
      NewIdIsAlone(s, id, c);
      if c == b {
        AcceptMakes(s.far[b], id, b, s.delayed);
        assert [] + [ready] == [ready];
      }
    }
  }

  lemma AcceptOut(s: System, id: nat, b: nat)
    requires Inv(s) && id != 0 && id !in s.near && s.back != [] && s.back[0].Open? && s.back[0].src == b
    ensures WireInv(AcceptedBy(s, id, b))
  {
    var s' := AcceptedBy(s, id, b);
    assert MsgInv(Swap(s), s.back[0]);
    forall i | 0 <= i < |s'.out|
      ensures MsgInv(s', s'.out[i])
    {
      assert i < |s.out| ==> MsgInv(s, s.out[i]);
    }
  }

  lemma AcceptBack(s: System, id: nat, b: nat)
    requires Inv(s) && id != 0 && id !in s.near && s.back != [] && s.back[0].Open? && s.back[0].src == b
    ensures WireInv(Swap(AcceptedBy(s, id, b)))
  {
    var s' := AcceptedBy(s, id, b);
    assert MsgInv(Swap(s), s.back[0]);
    forall i | 0 <= i < |s'.back|
      ensures MsgInv(Swap(s'), s'.back[i])
    {
      assert MsgInv(Swap(s), s.back[i + 1]);
    }
  }

  lemma AcceptKeeps(s: System, id: nat)
    requires Inv(s) && id != 0 && id !in s.near && s.back != [] && s.back[0].Open?
    ensures s.back[0].src != 0 && s.back[0].window == OpenWindow(s.delayed)
    ensures Inv(AcceptedBy(s, id, s.back[0].src))
  {
    var b := s.back[0].src;
    assert MsgInv(Swap(s), s.back[0]);
    AcceptPairs(s, id, b);
    AcceptOut(s, id, b);
    AcceptBack(s, id, b);
    AcceptMakes(s.far[b], id, b, s.delayed);
  }

  function RefusedBy(s: System): System
    requires s.back != []
  {
    s.(out := s.out + [Clse(0, s.back[0].src)], back := s.back[1..])
  }

  lemma RefusePairs(s: System)
    requires Pairs(s) && s.back != [] && s.back[0].Open?
    ensures Pairs(RefusedBy(s))
  {
    var s' := RefusedBy(s);
    forall a, c | a != 0
      ensures Between(s'.out, a, c) == Between(s.out, a, c) && Between(s'.back, c, a) == Between(s.back, c, a)
    {
      BetweenSnoc(s.out, Clse(0, s.back[0].src), a, c);
    }
    OthersKeep(s, s', 0);
  }

  lemma RefuseWires(s: System)
    requires WireInv(s) && WireInv(Swap(s)) && s.back != [] && s.back[0].Open?
    ensures WireInv(RefusedBy(s)) && WireInv(Swap(RefusedBy(s)))
  {
    var s' := RefusedBy(s);
    assert MsgInv(Swap(s), s.back[0]);
    assert RefusalInv(s', s.back[0].src);
    forall i | 0 <= i < |s'.out|
      ensures MsgInv(s', s'.out[i])
    {
      assert i < |s.out| ==> MsgInv(s, s.out[i]);
    }
    forall i | 0 <= i < |s'.back|
      ensures MsgInv(Swap(s'), s'.back[i])
    {
      assert MsgInv(Swap(s), s.back[i + 1]);
    }
  }

  /** Refusing an OPEN tells its socket so. */
  lemma RefuseKeeps(s: System)
    requires Inv(s) && s.back != [] && s.back[0].Open?
    ensures Inv(RefusedBy(s))
  {
    RefusePairs(s);
    RefuseWires(s);
  }

  // ---- steps and runs

  lemma ReceiveKeeps(s: System, newId: nat, accept: bool, outcome: WriteOutcome)
    requires Inv(s) && Enabled(s, Receive(newId, accept, outcome))
    ensures Inv(Apply(s, Receive(newId, accept, outcome)))
  {
    var m := s.back[0];
    match m
    case Open(src, window) =>
      if accept {
        AcceptKeeps(s, newId);
      }
      assert MsgInv(Swap(s), m);
      RefuseKeeps(s);
    case Okay(src, dst, ack) =>
      if IsLive(s.near, dst) {
        OkayLiveKeeps(s);
      } else {
        OkayLateKeeps(s);
      }
    case Clse(src, dst) =>
      if src == 0 {
        RefusalKeeps(s);
      } else if IsLive(s.near, dst) {
        ClseKeeps(s);
      } else {
        DropHead(s);
      }
    case Wrte(src, dst, data) =>
      assert MsgInv(Swap(s), m);
      if IsLive(s.near, dst) {
        WrteKeeps(s, outcome);
      } else {
        DropHead(s);
      }
  }

  lemma ApplyKeeps(s: System, e: Event)
    requires Inv(s) && Enabled(s, e)
    ensures Inv(Apply(s, e))
  {
    match e
    case Connect(id) => ConnectKeeps(s, id);
    case Readable(id, data, eof) =>
      if eof {
        ReadableEofKeeps(s, id, data);
      } else {
        ReadableKeeps(s, id, data);
      }
    case Writable(id, outcome) => WritableKeeps(s, id, outcome);
    case CloseLocal(id) => CloseLocalKeeps(s, id);
    case Receive(newId, accept, outcome) => ReceiveKeeps(s, newId, accept, outcome);
  }

  /** The invariant does not care which process is called near. */
  lemma SwapKeeps(s: System)
    requires Inv(s)
    ensures Inv(Swap(s))
  {
    forall b, a | a != 0 && b != 0
      ensures PairInv(Swap(s), b, a)
    {
      assert PairInv(s, a, b);
    }
    assert Swap(Swap(s)) == s;
  }

  lemma NextKeeps(s: System, s': System)
    requires Inv(s) && Next(s, s')
    ensures Inv(s')
  {
    if e :| Enabled(s, e) && s' == Apply(s, e) {
      ApplyKeeps(s, e);
    } else {
      var e :| Enabled(Swap(s), e) && s' == Swap(Apply(Swap(s), e));
      SwapKeeps(s);
      ApplyKeeps(Swap(s), e);
      SwapKeeps(Apply(Swap(s), e));
    }
  }

  /** Every state of every run satisfies the invariant. */
  lemma {:induction false} RunInv(run: seq<System>, k: nat)
    requires IsRun(run) && k < |run|
    ensures Inv(run[k])
  {
    if k == 0 {
      InitialInv(run[0].delayed);
    } else {
      RunInv(run, k - 1);
      NextKeeps(run[k - 1], run[k]);
    }
  }

  lemma InitialInv(delayed: bool)
    ensures Inv(Initial(delayed))
  {
  }

  /** Which process is called near is a matter of naming, so what follows holds of either one. */
  lemma RunsAreSymmetric(run: seq<System>)
    requires IsRun(run)
    ensures IsRun(seq(|run|, i requires 0 <= i < |run| => Swap(run[i])))
  {
    var mirrored := seq(|run|, i requires 0 <= i < |run| => Swap(run[i]));
    forall i | 0 < i < |mirrored|
      ensures Next(mirrored[i - 1], mirrored[i])
    {
      assert Next(run[i - 1], run[i]);
      assert Swap(Swap(run[i - 1])) == run[i - 1] && Swap(Swap(run[i])) == run[i];
    }
  }

  // ---- what every run keeps

  /**
   * Credit conservation: between two live ends, what the sender may still send, the data on the
   * way, the data not written yet and the acknowledgements on the way always add up to the window.
   */
  lemma CreditIsConserved(run: seq<System>, k: nat, a: nat, b: nat)
    requires IsRun(run) && k < |run| && run[k].delayed
    requires a != 0 && b != 0 && Related(run[k], a, b) && IsLive(run[k].near, a) && IsLive(run[k].far, b)
    ensures var s := run[k];
            var (x, y, out, back) := (s.near[a], s.far[b], Between(s.out, a, b), Between(s.back, b, a));
            && x.conn.avail.Some? && y.conn.avail.Some?
            && x.conn.avail.value + |DataIn(out)| + |y.conn.queue| + AcksIn(back) == INITIAL_DELAYED_ACK_BYTES
            && y.conn.avail.value + |DataIn(back)| + |x.conn.queue| + AcksIn(out) == INITIAL_DELAYED_ACK_BYTES
  {
    RunInv(run, k);
    assert PairInv(run[k], a, b);
  }

  /**
   * End-to-end safety, in both directions and whatever happened to either end: what one end's fd
   * took is a prefix of what the other end read.  While the receiver is live, the rest is exactly
   * its queue and the data on the way.
   */
  lemma StreamsArePrefixes(run: seq<System>, k: nat, a: nat, b: nat)
    requires IsRun(run) && k < |run|
    requires a != 0 && b != 0 && Related(run[k], a, b)
    ensures var s := run[k];
            && a in s.near && b in s.far
            && s.far[b].log.wrote <= s.near[a].log.read
            && s.near[a].log.wrote <= s.far[b].log.read
            && (IsLive(s.far, b) ==>
                  s.far[b].log.wrote + s.far[b].conn.queue + DataIn(Between(s.out, a, b)) == s.near[a].log.read)
            && (IsLive(s.near, a) ==>
                  s.near[a].log.wrote + s.near[a].conn.queue + DataIn(Between(s.back, b, a)) == s.far[b].log.read)
  {
    RunInv(run, k);
    assert PairInv(run[k], a, b);
  }

  /**
   * An end that was closed by the other end's CLSE has been given everything the other end read,
   * and once it is gone its fd has taken all of it, unless the fd failed.
   */
  lemma OrderlyCloseLosesNothing(run: seq<System>, k: nat, a: nat, b: nat)
    requires IsRun(run) && k < |run|
    requires a != 0 && b != 0 && Related(run[k], a, b) && b in run[k].far && run[k].far[b].log.ending == ByPeer
    ensures var s := run[k];
            && a in s.near && !IsLive(s.near, a)
            && s.far[b].log.enqueued == s.near[a].log.read
            && (s.far[b].phase == Gone && !s.far[b].conn.writeError ==> s.far[b].log.wrote == s.near[a].log.read)
  {
    RunInv(run, k);
    assert PairInv(run[k], a, b);
  }

  /**
   * The window bound: a live end never owes more than one packet, is watched for reading exactly
   * while it has credit, and no queue outgrows the window by a whole packet.
   */
  lemma WindowIsBounded(run: seq<System>, k: nat, a: nat)
    requires IsRun(run) && k < |run| && run[k].delayed && a in run[k].near && run[k].near[a].phase != Gone
    ensures var x := run[k].near[a];
            && |x.conn.queue| <= INITIAL_DELAYED_ACK_BYTES + MAX_PAYLOAD - 1
            && (x.phase == Live ==> x.conn.avail.Some? && x.conn.avail.value > 0 - MAX_PAYLOAD as int)
            && (x.phase == Live && x.conn.peer.Some? ==> (x.conn.readArmed <==> x.conn.avail.value > 0))
  {
    RunInv(run, k);
  }

  lemma {:induction false} GoodMember(w: seq<Msg>, delayed: bool, m: Msg)
    requires Good(w, delayed) && m in w
    ensures GoodMsg(m, delayed)
  {
    if m != w[0] {
      assert m in w[1..];
      GoodMember(w[1..], delayed, m);
    }
  }

  lemma {:induction false} BetweenMember(w: seq<Msg>, a: nat, b: nat, m: Msg)
    requires m in w && IsBetween(m, a, b)
    ensures m in Between(w, a, b)
  {
    if m != w[0] {
      assert m in w[1..];
      BetweenMember(w[1..], a, b, m);
    }
  }

  /** Every acknowledgement on the way is read back as the number that was written. */
  lemma AcksSurviveTheSignBit(run: seq<System>, k: nat, m: Msg)
    requires IsRun(run) && k < |run| && m in run[k].out && m.Okay?
    ensures m.ack.Some? == run[k].delayed
    ensures m.ack.Some? ==> AsInt32(m.ack.value) == m.ack.value
  {
    var s := run[k];
    RunInv(run, k);
    assert MsgInv(s, m);
    BetweenMember(s.out, m.src, m.dst, m);
    assert PairInv(s, m.src, m.dst);
    GoodMember(Between(s.out, m.src, m.dst), s.delayed, m);
  }

  /**
   * Graceful drain: unwritten bytes are always waited for, so the CHECK on a socket that is put
   * aside to drain cannot fail, and a socket goes away only with its queue written or its fd broken.
   */
  lemma DrainIsGraceful(run: seq<System>, k: nat, a: nat)
    requires IsRun(run) && k < |run| && a in run[k].near
    ensures var x := run[k].near[a];
            && (x.phase != Gone && x.conn.queue != [] && !x.conn.writeError ==> x.conn.writeArmed)
            && (x.phase == Live && !Close(x.conn, a).destroyed ==> Close(x.conn, a).conn.writeArmed)
            && (x.phase == Gone ==> x.log.wrote == x.log.enqueued || x.conn.writeError)
  {
    RunInv(run, k);
  }

  /** The teardown of a connected end says CLSE exactly once, when it stops being live. */
  lemma OneCloseEach(run: seq<System>, k: nat, a: nat, b: nat)
    requires IsRun(run) && k < |run|
    requires a != 0 && b != 0 && Related(run[k], a, b)
    ensures var s := run[k];
            && a in s.near && b in s.far
            && s.near[a].log.closes == (if !IsLive(s.near, a) && s.near[a].log.peer.Some? then 1 else 0)
            && s.near[a].log.closes + s.far[b].log.closes <= 2
  {
    RunInv(run, k);
    assert PairInv(run[k], a, b);
  }

  /**
   * No silent stall: a connected sender that is not watched for reading has data, or
   * acknowledgements, on the way, or a receiver with bytes it is waiting to write.
   */
  lemma BlockedSenderWaitsForSomething(run: seq<System>, k: nat, a: nat, b: nat)
    requires IsRun(run) && k < |run| && run[k].delayed
    requires a != 0 && b != 0 && IsLive(run[k].near, a) && IsLive(run[k].far, b)
    requires run[k].near[a].conn.peer == Some(b) && !run[k].near[a].conn.readArmed
    ensures var s := run[k];
            || DataIn(Between(s.out, a, b)) != []
            || AcksIn(Between(s.back, b, a)) > 0
            || (s.far[b].conn.queue != [] && (s.far[b].conn.writeArmed || s.far[b].conn.writeError))
  {
    RunInv(run, k);
    assert PairInv(run[k], a, b);
  }

  /** No OPEN is ever refused for naming the wrong kind of window. */
  lemma OpensNameTheRightWindow(run: seq<System>, k: nat, m: Msg)
    requires IsRun(run) && k < |run| && m in run[k].out && m.Open?
    ensures run[k].delayed == (m.window != 0)
  {
    RunInv(run, k);
    assert MsgInv(run[k], m);
  }
}
