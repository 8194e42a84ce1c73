/** The functions of adb's sockets.cpp that change the socket table in place. */
module SocketTables {
  import opened Bytes
  import opened FdIo
  import opened Framing
  import opened StreamProtocol
  import opened SocketGraph
  import SmartRequest

  type Packets = seq<(Transport, Msg)>

  /** The socket belongs to the transport, or to a peer that does. */
  predicate OnTransport(m: Memory, p: Ptr, on: Transport)
    requires p in m && Deref(m, p)
  {
    m[p].transport == Some(on) || (m[p].peer.Some? && m[m[p].peer.value].transport == Some(on))
  }

  /** What closing the socket sends: one CLSE if its peer is remote, and otherwise nothing. */
  function TeardownOf(m: Memory, p: Ptr): (r: Packets)
    requires p in m && Deref(m, p)
    ensures |r| <= 1
  {
    if m[p].peer.None? then [] else
    var q := m[m[p].peer.value];
    if q.kind == Remote && q.transport.Some? then [(q.transport.value, Clse(m[p].id, q.id))] else []
  }

  /** What tearing down the transport makes this socket send. */
  function Share(m: Memory, p: Ptr, on: Transport): Packets {
    if p in m && Deref(m, p) && OnTransport(m, p, on) then TeardownOf(m, p) else []
  }

  function Shares(m: Memory, list: seq<Ptr>, on: Transport): Packets {
    if list == [] then [] else Share(m, list[0], on) + Shares(m, list[1..], on)
  }

  /** Dropping sockets with no share, and changing none of the other shares, changes nothing. */
  lemma {:induction false} SharesKept(m: Memory, m': Memory, list: seq<Ptr>, drop: set<Ptr>, on: Transport)
    requires forall x :: x in list ==> if x in drop then Share(m, x, on) == [] else Share(m', x, on) == Share(m, x, on)
    ensures Shares(m', Keep(list, drop), on) == Shares(m, list, on)
  {
    if list != [] {
      SharesKept(m, m', list[1..], drop, on);
      if list[0] !in drop {
        assert Keep(list, drop)[1..] == Keep(list[1..], drop);
      }
    }
  }

  lemma {:induction false} NoShares(m: Memory, list: seq<Ptr>, on: Transport)
    requires forall x :: x in list ==> Share(m, x, on) == []
    ensures Shares(m, list, on) == []
  {
    if list != [] {
      NoShares(m, list[1..], on);
    }
  }

  /** Outside a closed pair, a socket and its peer are as before, so its share is too. */
  lemma ShareKept(t: Table, t': Table, p: Ptr, x: Ptr, on: Transport)
    requires Good(t) && p in t.memory && x in t.memory && Deref(t.memory, p)
    requires x !in WithPeer(t.memory, p) && ClosedPair(t, t', WithPeer(t.memory, p))
    ensures x in t'.memory && t'.memory[x] == t.memory[x]
    ensures t.memory[x].peer.Some? ==> t.memory[x].peer.value in t'.memory
                                       && t'.memory[t.memory[x].peer.value] == t.memory[t.memory[x].peer.value]
    ensures Share(t'.memory, x, on) == Share(t.memory, x, on)
  {
    assert PeerOk(t.memory, x) && PeerOk(t.memory, p);
    if t.memory[p].peer.Some? {
      assert PeerOk(t.memory, t.memory[p].peer.value);
    }
  }

  /** The same when the socket at index i, the first with a share, is dropped as well. */
  lemma {:induction false} SharesAround(m: Memory, m': Memory, list: seq<Ptr>, i: nat, drop: set<Ptr>, on: Transport)
    requires i < |list| && list[i] in drop
    requires forall j :: 0 <= j < i ==> Share(m, list[j], on) == []
    requires forall j :: 0 <= j < |list| && j != i ==>
               if list[j] in drop then Share(m, list[j], on) == [] else Share(m', list[j], on) == Share(m, list[j], on)
    ensures Shares(m, list, on) == Share(m, list[i], on) + Shares(m', Keep(list, drop), on)
  {
    if i == 0 {
      SharesKept(m, m', list[1..], drop, on);
    } else {
      SharesAround(m, m', list[1..], i - 1, drop, on);
      if list[0] !in drop {
        assert Keep(list, drop)[1..] == Keep(list[1..], drop);
      }
    }
  }

  /** The other local socket of a pair has nothing to say to a remote one. */
  lemma PeerHasNoShare(t: Table, p: Ptr, x: Ptr, on: Transport)
    requires Good(t) && p in t.localList && x in t.localList && x != p && x in WithPeer(t.memory, p)
    ensures Share(t.memory, x, on) == []
  {
    assert PeerOk(t.memory, p) && PeerOk(t.memory, x);
  }

  /** Closing the first socket of the list that is on the transport takes exactly its share off what is to be sent. */
  lemma CloseTakesShare(t: Table, i: nat, on: Transport)
    requires Good(t) && i < |t.localList| && t.localList[i] in t.memory && Deref(t.memory, t.localList[i])
    requires forall j :: 0 <= j < i ==> Share(t.memory, t.localList[j], on) == []
    requires OnTransport(t.memory, t.localList[i], on)
    ensures var (p, t') := (t.localList[i], AfterClose(t, t.localList[i]));
            Shares(t.memory, t.localList, on) == TeardownOf(t.memory, p) + Shares(t'.memory, t'.localList, on)
  {
    var p := t.localList[i];
    var (t', pair) := (AfterClose(t, p), WithPeer(t.memory, p));
    assert PeerOk(t.memory, p);
    CloseShape(t, p);
    forall j | 0 <= j < |t.localList| && j != i
      ensures if t.localList[j] in pair then Share(t.memory, t.localList[j], on) == []
              else Share(t'.memory, t.localList[j], on) == Share(t.memory, t.localList[j], on)
    {
      var x := t.localList[j];
      if x in pair {
        PeerHasNoShare(t, p, x, on);
      } else {
        ShareKept(t, t', p, x, on);
      }
    }
    SharesAround(t.memory, t'.memory, t.localList, i, pair, on);
  }

  /** The socket, and the one it points at, are as they were. */
  ghost predicate Untouched(m: Memory, m': Memory, x: Ptr) {
    && x in m && x in m' && m'[x] == m[x]
    && (m[x].peer.Some? ==> m[x].peer.value in m && m[x].peer.value in m' && m'[m[x].peer.value] == m[m[x].peer.value])
  }

  /** Closing a pair leaves the listed sockets untouched that were untouched so far. */
  lemma StaysUntouched(start: Table, t: Table, t': Table, p: Ptr)
    requires Good(t) && p in t.memory && Deref(t.memory, p) && ClosedPair(t, t', WithPeer(t.memory, p))
    requires forall x :: x in t.localList ==> Untouched(start.memory, t.memory, x)
    ensures forall x :: x in t'.localList ==> Untouched(start.memory, t'.memory, x)
  {
    forall x | x in t'.localList
      ensures Untouched(start.memory, t'.memory, x)
    {
      KeepMember(t.localList, WithPeer(t.memory, p), x);
      ShareKept(t, t', p, x, Transport(0, false, 0));
    }
  }

  /** A socket is on a transport exactly when its peer is. */
  lemma PeersShareTransport(start: Table, t: Table, p: Ptr, x: Ptr, on: Transport)
    requires Good(start) && Untouched(start.memory, t.memory, p)
    requires Deref(t.memory, p) && OnTransport(t.memory, p, on) && x in WithPeer(t.memory, p)
    ensures x in start.memory && PeerOk(start.memory, x) && OnTransport(start.memory, x, on)
  {
    assert PeerOk(start.memory, p) && PeerOk(start.memory, x);
  }

  predicate IsOn(m: Memory, p: Ptr, on: Transport) {
    p in m && Deref(m, p) && OnTransport(m, p, on)
  }

  /** The open sockets that belong to the transport, directly or through their peer. */
  function SocketsOn(t: Table, on: Transport): set<Ptr> {
    set p | p in t.localList && IsOn(t.memory, p, on)
  }

  /** None of the first i sockets in the list belongs to the transport. */
  predicate ScannedTo(m: Memory, list: seq<Ptr>, i: nat, on: Transport) {
    i <= |list| && forall j :: 0 <= j < i ==> !IsOn(m, list[j], on)
  }

  /** How far close_all_sockets has come since it found the table as `start`, with `dropped` closed. */
  ghost predicate TearingDown(start: Table, sent0: Packets, t: Table, sent: Packets, dropped: set<Ptr>, on: Transport) {
    && Good(start) && Good(t)
    && t.localList == Keep(start.localList, dropped)
    && (forall x :: x in t.localList ==> Untouched(start.memory, t.memory, x))
    && (forall x :: x in dropped ==> IsOn(start.memory, x, on))
    && sent + Shares(t.memory, t.localList, on) == sent0 + Shares(start.memory, start.localList, on)
  }

  lemma TearDownStart(t: Table, sent: Packets, on: Transport)
    requires Good(t)
    ensures TearingDown(t, sent, t, sent, {}, on)
  {
    KeepNone(t.localList);
    forall x | x in t.localList
      ensures Untouched(t.memory, t.memory, x)
    {
      assert PeerOk(t.memory, x);
    }
  }

  lemma TearDownStep(start: Table, sent0: Packets, t: Table, sent: Packets, dropped: set<Ptr>, i: nat, on: Transport)
    requires TearingDown(start, sent0, t, sent, dropped, on) && i < |t.localList| && IsOn(t.memory, t.localList[i], on)
    requires ScannedTo(t.memory, t.localList, i, on)
    ensures var (p, t') := (t.localList[i], AfterClose(t, t.localList[i]));
            && TearingDown(start, sent0, t', sent + TeardownOf(t.memory, p), dropped + WithPeer(t.memory, p), on)
            && |t'.localList| < |t.localList|
  {
    var p := t.localList[i];
    var (t', pair) := (AfterClose(t, p), WithPeer(t.memory, p));
    CloseKeeps(t, p);
    CloseShape(t, p);
    CloseTakesShare(t, i, on);
    ConcatAssoc(sent, TeardownOf(t.memory, p), Shares(t'.memory, t'.localList, on));
    KeepTwice(start.localList, dropped, pair);
    KeepShrinks(t.localList, pair);
    StaysUntouched(start, t, t', p);
    forall x | x in pair
      ensures IsOn(start.memory, x, on)
    {
      PeersShareTransport(start, t, p, x, on);
    }
  }

  lemma TearDownDone(start: Table, sent0: Packets, t: Table, sent: Packets, dropped: set<Ptr>, on: Transport)
    requires TearingDown(start, sent0, t, sent, dropped, on)
    requires ScannedTo(t.memory, t.localList, |t.localList|, on)
    ensures t.localList == Keep(start.localList, SocketsOn(start, on)) && SocketsOn(t, on) == {}
    ensures sent == sent0 + Shares(start.memory, start.localList, on)
  {
    NoShares(t.memory, t.localList, on);
    forall x | x in start.localList
      ensures x in dropped <==> x in SocketsOn(start, on)
    {
      KeepMember(start.localList, dropped, x);
    }
    KeepSame(start.localList, dropped, SocketsOn(start, on));
  }

  /** remove_if and erase: what stays moves to the front, the rest of the vector goes. */
  method Erase(list: seq<Ptr>, p: Ptr) returns (r: seq<Ptr>)
    ensures r == Keep(list, {p})
  {
    r := list;
    var kept := 0;
    for i := 0 to |list|
      invariant kept <= i && |r| == |list|
      invariant forall j :: i <= j < |list| ==> r[j] == list[j]
      invariant r[..kept] == Keep(list[..i], {p})
    {
      KeepSnoc(list[..i], list[i], {p});
      assert list[..i + 1] == list[..i] + [list[i]];
      if r[i] != p {
        ghost var front := r[..kept];
        r := r[kept := r[i]];
        assert r[..kept + 1] == front + [list[i]];
        kept := kept + 1;
      }
    }
    assert list[..|list|] == list;
    r := r[..kept];
  }

  class SocketTable {
    var nextId: nat
    var memory: Memory
    var localList: seq<Ptr>
    var closingList: seq<Ptr>

    /** The packets given to send_packet, with the transport they go to. */
    var sent: Packets

    function State(): Table
      reads this
    {
      Table(nextId, memory, localList, closingList)
    }

    ghost predicate Valid()
      reads this
    {
      Good(State())
    }

    constructor ()
      ensures Valid() && State() == EMPTY && sent == []
    {
      nextId, memory, localList, closingList, sent := 1, map[], [], [], [];
    }

    /** find_local_socket: the one open socket with this id, if its peer is the one asked for. */
    method Find(localId: nat, peerId: nat) returns (r: Option<Ptr>)
      requires Valid()
      ensures r.Some? ==> r.value in localList && memory[r.value].id == localId
      ensures r.Some? && peerId != 0 ==> Deref(memory, r.value) && memory[r.value].peer.Some?
                                         && memory[memory[r.value].peer.value].id == peerId
      ensures r.None? ==> forall p :: p in localList && memory[p].id == localId ==>
                peerId != 0 && PeerOk(memory, p) && (memory[p].peer.Some? ==> memory[memory[p].peer.value].id != peerId)
    {
      var i := 0;
      while i < |localList|
        invariant 0 <= i <= |localList|
        invariant forall j :: 0 <= j < i ==> memory[localList[j]].id != localId
      {
        var p := localList[i];
        assert PeerOk(memory, p);
        var s := memory[p];
        if s.id == localId {
          if peerId == 0 || (s.peer.Some? && memory[s.peer.value].id == peerId) {
            return Some(p);
          }
          return None;
        }
        i := i + 1;
      }
      return None;
    }

    /** install_local_socket for a new local socket. */
    method InstallLocal(p: Ptr, on: Option<Transport>)
      requires Valid() && p !in memory && nextId + 1 < TWO32
      modifies this
      ensures Valid() && State() == Installed(old(State()), p, on) && sent == old(sent)
      ensures memory[p].id == old(nextId) != 0
    {
      InstallKeeps(State(), p, on);
      memory := memory[p := NewSocket(nextId, Local, on)];
      nextId := nextId + 1;
      localList := localList + [p];
    }

    /** remove_socket: out of both lists, each of which keeps its order. */
    method RemoveSocket(p: Ptr)
      modifies this`localList, this`closingList
      ensures localList == Keep(old(localList), {p}) && closingList == Keep(old(closingList), {p})
      ensures p !in localList && p !in closingList
    {
      KeepMember(localList, {p}, p);
      KeepMember(closingList, {p}, p);
      localList := Erase(localList, p);
      closingList := Erase(closingList, p);
    }

    /** The close function of a socket that has no peer: it is destroyed, or put aside until it has drained. */
    method CloseAlone(p: Ptr)
      requires p in memory && memory[p].peer.None?
      modifies this`memory, this`localList, this`closingList
      ensures State() == AfterCloseAlone(old(State()), p)
    {
      if memory[p].kind == Notify {
        memory := memory[p := memory[p].(kind := Local)];
      }
      var s := memory[p];
      if !s.IsLocal() || s.closing || s.writeError || s.queue == [] {
        RemoveSocket(p);
        memory := memory - {p};
        return;
      }
      memory := memory[p := s.(closing := true, readArmed := false)];
      RemoveSocket(p);
      closingList := closingList + [p];
    }

    /**
     * local_socket_close and smart_socket_close.  A remote peer is shut down first, while it can still
     * say whose peer it was; then the peer closes, and then the socket itself.
     */
    method CloseInOrder(p: Ptr)
      requires p in memory && Deref(memory, p)
      modifies this`memory, this`localList, this`closingList, this`sent
      ensures State() == AfterClose(old(State()), p)
      ensures sent == old(sent) + TeardownOf(old(memory), p)
    {
      if memory[p].peer.Some? {
        var q := memory[p].peer.value;
        if memory[q].kind == Remote && memory[q].transport.Some? {
          sent := sent + [(memory[q].transport.value, Clse(memory[p].id, memory[q].id))];
        }
        memory := memory[q := memory[q].(peer := None)];
        CloseAlone(q);
        memory := memory[p := memory[p].(peer := None)];
      }
      CloseAlone(p);
    }

    /** Closing keeps the table sound, sends at most one CLSE, and touches no other pair of sockets. */
    method Close(p: Ptr)
      requires Valid() && p in memory && (p in localList || memory[p].kind == Smart)
      modifies this`memory, this`localList, this`closingList, this`sent
      ensures Valid() && PeerOk(old(memory), p) && State() == AfterClose(old(State()), p)
      ensures ClosedPair(old(State()), State(), WithPeer(old(memory), p))
      ensures sent == old(sent) + TeardownOf(old(memory), p)
    {
      assert PeerOk(memory, p);
      CloseShape(State(), p);
      if p in localList {
        CloseKeeps(State(), p);
      } else {
        SmartCloseKeeps(State(), p);
      }
      CloseInOrder(p);
    }

    /** One restart of the scan: socket i is closed. */
    method CloseNext(i: nat, on: Transport, ghost start: Table, ghost sent0: Packets, ghost dropped: set<Ptr>)
      returns (ghost dropped': set<Ptr>)
      requires Valid() && i < |localList| && IsOn(memory, localList[i], on) && ScannedTo(memory, localList, i, on)
      requires TearingDown(start, sent0, State(), sent, dropped, on)
      modifies this`memory, this`localList, this`closingList, this`sent
      ensures Valid() && |localList| < |old(localList)|
      ensures TearingDown(start, sent0, State(), sent, dropped', on)
    {
      var p := localList[i];
      assert PeerOk(memory, p);
      TearDownStep(start, sent0, State(), sent, dropped, i, on);
      dropped' := dropped + WithPeer(memory, p);
      Close(p);
    }

    /**
     * close_all_sockets: scan the list and start over after every close, because closing changes the
     * list.  It ends; it leaves exactly the sockets that had nothing to do with the transport, in
     * order and untouched; and it sends exactly the CLSEs due, in list order.
     */
    method CloseAll(on: Transport)
      requires Valid()
      modifies this`memory, this`localList, this`closingList, this`sent
      ensures Valid()
      ensures localList == Keep(old(localList), SocketsOn(old(State()), on))
      ensures forall x :: x in localList ==> Untouched(old(memory), memory, x)
      ensures SocketsOn(State(), on) == {}
      ensures sent == old(sent) + Shares(old(memory), old(localList), on)
    {
      ghost var dropped: set<Ptr> := {};
      TearDownStart(State(), sent, on);
      var i := 0;
      while i < |localList|
        invariant 0 <= i <= |localList| && Valid() && ScannedTo(memory, localList, i, on)
        invariant TearingDown(old(State()), old(sent), State(), sent, dropped, on)
        decreases |localList|, |localList| - i
      {
        assert PeerOk(memory, localList[i]);
        if OnTransport(memory, localList[i], on) {
          dropped := CloseNext(i, on, old(State()), old(sent), dropped);
          i := 0;
        } else {
          i := i + 1;
        }
      }
      TearDownDone(old(State()), old(sent), State(), sent, dropped, on);
    }

    /**
     * The end of smart_socket_enqueue for a host service: the client becomes a plain local socket tied
     * to the service's socket, the smart socket goes away, and the service may be read.
     */
    method TieToService(p: Ptr, s2: Ptr)
      requires Valid() && p in memory && memory[p].kind == Smart && IsAlone(State(), s2)
      modifies this`memory, this`localList, this`closingList
      ensures Valid() && PeerOk(old(memory), p) && State() == TiedToService(old(State()), p, s2)
      ensures var c := old(memory)[p].peer.value;
              && p !in memory && c in localList && s2 in localList
              && memory[c].peer == Some(s2) && memory[s2].peer == Some(c)
    {
      TieKeeps(State(), p, s2);
      assert PeerOk(memory, p);
      ghost var c := memory[p].peer.value;
      assert PeerOk(memory, c) && DrainOk(memory[c]);
      Tie(p, s2);
    }

    method Tie(p: Ptr, s2: Ptr)
      requires p in memory && s2 in memory && memory[p].peer.Some? && Deref(memory, p)
      modifies this`memory, this`localList, this`closingList
      ensures State() == TiedToService(old(State()), p, s2)
    {
      var c := memory[p].peer.value;
      memory := memory[c := memory[c].(kind := Local, peer := Some(s2))];
      memory := memory[s2 := memory[s2].(peer := Some(c), readArmed := true)];
      RemoveSocket(p);
      memory := memory - {p};
    }

    /**
     * The end of smart_socket_enqueue for a device: the client is left without a peer, rigged to report
     * the outcome, and an OPEN with its id goes out on the transport the smart socket chose.
     */
    method LeaveWaiting(p: Ptr)
      requires Valid() && p in memory && memory[p].kind == Smart && memory[p].transport.Some?
      modifies this`memory, this`localList, this`closingList, this`sent
      ensures Valid() && PeerOk(old(memory), p) && State() == LeftWaiting(old(State()), p)
      ensures var (c, on) := (old(memory)[p].peer.value, old(memory)[p].transport.value);
              && p !in memory && c in localList && memory[c].peer == None && memory[c].transport == Some(on)
              && sent == old(sent) + [(on, Open(memory[c].id, OpenWindow(on.delayedAck)))]
    {
      LeaveKeeps(State(), p);
      assert PeerOk(memory, p);
      ghost var c := memory[p].peer.value;
      assert PeerOk(memory, c) && DrainOk(memory[c]);
      DetachClient(p, memory[p].transport.value);
    }

    method DetachClient(p: Ptr, on: Transport)
      requires p in memory && memory[p].peer.Some? && Deref(memory, p) && memory[p].transport == Some(on)
      modifies this`memory, this`localList, this`closingList, this`sent
      ensures State() == LeftWaiting(old(State()), p)
      ensures sent == old(sent) + [(on, Open(old(memory)[old(memory)[p].peer.value].id, OpenWindow(on.delayedAck)))]
    {
      var c := memory[p].peer.value;
      var s := memory[c].(kind := Notify, peer := None, transport := Some(on));
      if on.delayedAck {
        s := s.(avail := Some(0));
      }
      sent := sent + [(on, Open(s.id, OpenWindow(on.delayedAck)))];
      memory := memory[c := s];
      RemoveSocket(p);
      memory := memory - {p};
    }

    /** local_socket_flush_incoming does to the table, and sends, what the stream protocol says. */
    method FlushIncomingSteps(p: Ptr, outcome: WriteOutcome) returns (destroyed: bool)
      requires p in memory && Deref(memory, p) && Plausible(memory[p].queue, outcome) && memory[p].IsLocal()
      modifies this`memory, this`localList, this`closingList, this`sent
      ensures State() == AfterFlush(old(State()), p, outcome)
      ensures destroyed == FlushOf(old(memory), p, outcome).destroyed
      ensures sent == old(sent) + Tagged(old(memory)[p].transport, FlushOf(old(memory), p, outcome).sent)
    {
      var s, flushed := WriteQueue(memory[p], outcome);
      FlushIsWriteThenReady(memory, p, outcome, s, flushed);
      var fdFull := s.queue != [] && !s.writeError;
      SendReady(s, flushed);
      if s.closing && !fdFull {
        RemoveSocket(p);
        memory := memory - {p};
        return true;
      }
      memory := memory[p := s.(writeArmed := fdFull)];
      return false;
    }

    /** Deferred acks go out for every flush; otherwise data is asked for while less than a packet is queued. */
    method SendReady(s: ASocket, flushed: Uint32)
      requires s.peer.Some? ==> s.peer.value in memory
      modifies this`sent
      ensures sent == old(sent) + ReadyPackets(memory, s, flushed)
    {
      if s.transport.Some? && s.peer.Some? {
        var remote := memory[s.peer.value].id;
        if s.avail.Some? {
          sent := sent + [(s.transport.value, Ready(s.id, remote, s.transport.value.delayedAck, flushed))];
        } else if flushed != 0 && |s.queue| < MAX_PAYLOAD {
          sent := sent + [(s.transport.value, Ready(s.id, remote, s.transport.value.delayedAck, 0))];
        }
      }
    }

    /** A writable fd: the table stays sound, and only a socket that had nothing left to do goes away. */
    method Flush(p: Ptr, outcome: WriteOutcome) returns (destroyed: bool)
      requires Valid() && p in memory && memory[p].IsLocal() && Plausible(memory[p].queue, outcome)
      modifies this`memory, this`localList, this`closingList, this`sent
      ensures Valid() && Deref(old(memory), p) && State() == AfterFlush(old(State()), p, outcome)
      ensures sent == old(sent) + Tagged(old(memory)[p].transport, FlushOf(old(memory), p, outcome).sent)
      ensures destroyed ==> p in old(closingList) && p !in memory
      ensures !destroyed ==> p in memory && (memory[p].queue != [] && !memory[p].writeError <==> memory[p].writeArmed)
    {
      assert PeerOk(memory, p) && DrainOk(memory[p]);
      FlushKeeps(State(), p, outcome);
      destroyed := FlushIncomingSteps(p, outcome);
    }

    method EnqueueSteps(p: Ptr, data: seq<Byte>, outcome: WriteOutcome) returns (result: int)
      requires p in memory && memory[p].IsLocal() && Deref(memory, p) && Plausible(memory[p].queue + data, outcome)
      modifies this`memory, this`localList, this`closingList, this`sent
      ensures State() == AfterEnqueue(old(State()), p, data, outcome)
      ensures result == if p !in memory then -1 else if memory[p].writeArmed then 1 else 0
      ensures sent == old(sent) + Tagged(old(memory)[p].transport, EnqueueOf(old(memory), p, data, outcome).sent)
    {
      EnqueueIsFlush(memory, p, data, outcome);
      memory := memory[p := memory[p].(queue := memory[p].queue + data)];
      var destroyed := FlushIncomingSteps(p, outcome);
      result := if destroyed then -1 else if memory[p].writeArmed then 1 else 0;
    }

    /** local_socket_enqueue on an open socket: data goes behind what is queued, and the socket stays. */
    method Enqueue(p: Ptr, data: seq<Byte>, outcome: WriteOutcome) returns (result: int)
      requires Valid() && p in localList && Plausible(memory[p].queue + data, outcome)
      modifies this`memory, this`localList, this`closingList, this`sent
      ensures Valid() && Deref(old(memory), p) && State() == AfterEnqueue(old(State()), p, data, outcome)
      ensures p in localList && result == if memory[p].writeArmed then 1 else 0
      ensures sent == old(sent) + Tagged(old(memory)[p].transport, EnqueueOf(old(memory), p, data, outcome).sent)
    {
      assert PeerOk(memory, p);
      EnqueueKeeps(State(), p, data, outcome);
      result := EnqueueSteps(p, data, outcome);
    }

    /** smart_socket_enqueue: the bytes so far are looked at again, a zero ends the request, and it is served. */
    method SmartEnqueue(q: Ptr, data: seq<Byte>, answer: Answer) returns (result: int)
      requires q in memory && Deref(memory, q) && memory[q].peer.Some?
      requires answer.Ties? ==> answer.s2 in memory
      modifies this`memory, this`localList, this`closingList, this`sent
      ensures Taken(result, State()) == SmartTakes(old(State()), q, data, answer)
      ensures sent == old(sent) + SmartSends(old(memory), q, data, answer)
    {
      var what, kept := SmartRequest.Read(memory[q].request + data);
      memory := memory[q := memory[q].(request := kept)];
      result := 0;
      if !what.Partial? {
        result := Serve(q, what, answer);
      }
    }

    /** What becomes of a request once it is read. */
    method Serve(q: Ptr, what: SmartRequest.Request, answer: Answer) returns (result: int)
      requires q in memory && Deref(memory, q) && memory[q].peer.Some?
      requires answer.Ties? ==> answer.s2 in memory
      requires !what.Partial?
      modifies this`memory, this`localList, this`closingList, this`sent
      ensures Taken(result, State()) == Served(old(State()), q, what, answer)
      ensures sent == old(sent) + ServeSends(old(memory), q, what, answer)
    {
      if what.BadTransportId? {
        return -1;
      }
      if what.Service? && answer.Switches? {
        memory := memory[q := memory[q].(transport := Some(answer.to), request := [])];
        return 0;
      }
      if what.Service? && answer.Ties? {
        Tie(q, answer.s2);
        return 0;
      }
      if what.Destination? && memory[q].transport.Some? && answer.Leaves? {
        DetachClient(q, memory[q].transport.value);
        return 1;
      }
      CloseInOrder(q);
      return -1;
    }

    /** The enqueue function of the peer of socket p. */
    method EnqueueAt(q: Ptr, data: seq<Byte>, outcome: WriteOutcome, answer: Answer) returns (result: int)
      requires q in memory && CanTake(State(), q, data, outcome, answer)
      requires memory[q].kind == Remote ==> memory[q].transport.Some? && memory[q].peer.Some?
      modifies this`memory, this`localList, this`closingList, this`sent
      ensures Taken(result, State()) == Takes(old(State()), q, data, outcome, answer)
      ensures sent == old(sent) + TakeSends(old(memory), q, data, outcome, answer)
    {
      match memory[q].kind
      case Remote =>
        sent := sent + [(memory[q].transport.value, Wrte(memory[memory[q].peer.value].id, memory[q].id, data))];
        result := 1;
      case Smart => result := SmartEnqueue(q, data, answer);
      case _ => result := EnqueueSteps(q, data, outcome);
    }

    method Charge(p: Ptr, n: nat)
      requires p in memory
      modifies this`memory
      ensures memory == old(memory)[p := Charged(old(memory)[p], n)]
    {
      var s := memory[p];
      if s.avail.Some? {
        s := s.(avail := Some(s.avail.value - n));
      }
      memory := memory[p := s];
    }

    /** What was read is taken off the credit and given to the peer. */
    method Give(p: Ptr, data: seq<Byte>, outcome: WriteOutcome, answer: Answer) returns (result: int)
      requires p in memory && CanGive(State(), p, data, outcome, answer) && PeerIsReady(memory, p)
      modifies this`memory, this`localList, this`closingList, this`sent
      ensures Taken(result, State()) == Given(old(State()), p, data, outcome, answer)
      ensures sent == old(sent) + GiveSends(old(State()), p, data, outcome, answer)
    {
      if data == [] || memory[p].peer.None? {
        return 0;
      }
      var q := memory[p].peer.value;
      Charge(p, |data|);
      result := EnqueueAt(q, data, outcome, answer);
    }

    method Pause(p: Ptr)
      requires p in memory
      modifies this`memory
      ensures memory == old(memory)[p := Paused(old(memory)[p])]
    {
      var s := memory[p];
      if s.avail.None? || s.avail.value <= 0 {
        s := s.(readArmed := false);
      }
      memory := memory[p := s];
    }

    /** What follows the enqueue of the peer. */
    method Resume(p: Ptr, result: int, eof: bool) returns (alive: bool)
      requires Continues(Taken(result, State()), p)
      modifies this`memory, this`localList, this`closingList, this`sent
      ensures alive == (result >= 0 && !eof)
      ensures State() == Resumed(Taken(result, old(State())), p, eof)
      ensures sent == old(sent) + LastWords(Taken(result, old(State())), p, eof)
    {
      if result < 0 {
        return false;
      }
      if result > 0 {
        Pause(p);
      }
      if eof {
        CloseInOrder(p);
      }
      return !eof;
    }

    /**
     * local_socket_flush_outgoing: everything that can be read up to one packet is taken off the credit and
     * given to the peer, whatever that is.  After a negative result the socket is not touched any more; after
     * a positive one it is read further only with credit left; at the end of the fd it closes.
     */
    method SendOutgoing(p: Ptr, bytes: seq<Byte>, ended: bool, max: nat, outcome: WriteOutcome, answer: Answer)
      returns (alive: bool)
      requires Valid() && p in localList && 0 < max <= MAX_PAYLOAD
      requires memory[p].peer.Some? ==> Decides(State(), memory[p].peer.value, UpTo(bytes, max), outcome, answer)
      modifies this`memory, this`localList, this`closingList, this`sent
      ensures Valid() && CanGive(old(State()), p, UpTo(bytes, max), outcome, answer)
      ensures var (data, eof) := (UpTo(bytes, max), ended && |bytes| < max);
              var taken := Given(old(State()), p, data, outcome, answer);
              && Continues(taken, p) && alive == (taken.result >= 0 && !eof)
              && State() == Resumed(taken, p, eof)
              && sent == old(sent) + GiveSends(old(State()), p, data, outcome, answer) + LastWords(taken, p, eof)
    {
      var data, eof := ReadUpTo(bytes, ended, max);
      GiveKeeps(State(), p, data, outcome, answer);
      ResumeKeeps(Given(State(), p, data, outcome, answer), p, eof);
      PeerOfOpenIsReady(State(), p, data, outcome, answer);
      var result := Give(p, data, outcome, answer);
      alive := Resume(p, result, eof);
    }

    /** local_socket_ack; an acknowledgement of the wrong kind changes nothing. */
    method Ack(p: Ptr, ack: Option<Uint32>)
      requires Valid() && p in localList
      modifies this`memory
      ensures Valid() && State() == AfterAck(old(State()), p, ack)
      ensures Deref(old(memory), p) && Deref(memory, p)
      ensures ConnOf(memory, p) == Acknowledge(ConnOf(old(memory), p), ack)
    {
      assert PeerOk(memory, p);
      AckKeeps(State(), p, ack);
      AckFollowsProtocol(State(), p, ack);
      var s := Acked(memory[p], ack);
      memory := memory[p := s];
    }
  }

  /** The CLSE of a socket that has come to the end of its fd. */
  function LastWords(taken: Taken, p: Ptr, eof: bool): Packets
    requires Continues(taken, p)
  {
    if taken.result < 0 || !eof then [] else TeardownOf(taken.table.memory, p)
  }

  /** The peer has what its enqueue function needs. */
  predicate PeerIsReady(m: Memory, p: Ptr)
    requires p in m && Deref(m, p)
  {
    m[p].peer.Some? ==>
      var q := m[m[p].peer.value];
      q.kind == Remote ==> q.transport.Some? && q.peer.Some?
  }

  lemma PeerOfOpenIsReady(t: Table, p: Ptr, data: seq<Byte>, outcome: WriteOutcome, answer: Answer)
    requires Good(t) && p in t.localList
    requires t.memory[p].peer.Some? ==> Decides(t, t.memory[p].peer.value, data, outcome, answer)
    ensures Deref(t.memory, p) && PeerIsReady(t.memory, p)
  {
    assert PeerOk(t.memory, p);
    if t.memory[p].peer.Some? {
      assert PeerOk(t.memory, t.memory[p].peer.value);
    }
  }

  /** What serving a request sends: the OPEN for a device, and nothing but a CLSE otherwise. */
  function ServeSends(m: Memory, q: Ptr, what: SmartRequest.Request, answer: Answer): Packets
    requires q in m && Deref(m, q) && m[q].peer.Some?
  {
    if what.Partial? || what.BadTransportId? then []
    else if Refused(what, m[q].transport, answer) then TeardownOf(m, q)
    else if what.Destination? && m[q].transport.Some? then
      [(m[q].transport.value, Open(m[m[q].peer.value].id, OpenWindow(m[q].transport.value.delayedAck)))]
    else []
  }

  function SmartSends(m: Memory, q: Ptr, data: seq<Byte>, answer: Answer): Packets
    requires q in m && Deref(m, q) && m[q].peer.Some?
  {
    ServeSends(m, q, SmartRequest.Recognize(m[q].request + data), answer)
  }

  /** What giving data to socket q sends: a WRTE of a remote one, the READYs of a local one, the OPEN of a smart one. */
  function TakeSends(m: Memory, q: Ptr, data: seq<Byte>, outcome: WriteOutcome, answer: Answer): Packets
    requires q in m && Deref(m, q) && (m[q].IsLocal() ==> Plausible(m[q].queue + data, outcome))
  {
    if m[q].IsLocal() then Tagged(m[q].transport, EnqueueOf(m, q, data, outcome).sent)
    else if m[q].peer.None? then []
    else if m[q].kind == Smart then SmartSends(m, q, data, answer)
    else Tagged(m[q].transport, [Wrte(m[m[q].peer.value].id, m[q].id, data)])
  }

  function GiveSends(t: Table, p: Ptr, data: seq<Byte>, outcome: WriteOutcome, answer: Answer): Packets
    requires p in t.memory && CanGive(t, p, data, outcome, answer)
  {
    if data == [] || t.memory[p].peer.None? then []
    else TakeSends(t.memory[p := Charged(t.memory[p], |data|)], t.memory[p].peer.value, data, outcome, answer)
  }

  /** Towards a remote peer the packets are those of the stream protocol. */
  lemma RemoteSendsFollowProtocol(t: Table, p: Ptr, data: seq<Byte>, outcome: WriteOutcome, answer: Answer)
    requires p in t.memory && FacesRemote(t.memory, p) && CanGive(t, p, data, outcome, answer)
    requires t.memory[p].peer.Some? ==> t.memory[t.memory[p].peer.value].peer == Some(p)
    ensures GiveSends(t, p, data, outcome, answer) == Tagged(t.memory[p].transport, SendOf(t.memory, p, data).sent)
  {
  }

  method Acked(before: ASocket, ack: Option<Uint32>) returns (s: ASocket)
    ensures s == AckSocket(before, ack)
  {
    s := before;
    if s.avail.Some? == ack.Some? {
      if s.avail.Some? {
        s := s.(avail := Some(s.avail.value + AsInt32(ack.value)));
      }
      if s.avail.None? || s.avail.value > 0 {
        s := ReadySocket(s);
      }
    }
  }

  function UpTo(bytes: seq<Byte>, max: nat): seq<Byte> {
    if |bytes| <= max then bytes else bytes[..max]
  }

  /**
   * The read loop of local_socket_flush_outgoing: however short the single reads are, it takes what is there
   * up to the limit, and notices the end of the fd only if it does not reach the limit before.
   */
  method ReadUpTo(bytes: seq<Byte>, ended: bool, max: nat) returns (data: seq<Byte>, eof: bool)
    ensures data == UpTo(bytes, max) && eof == (ended && |bytes| < max)
  {
    data, eof := [], false;
    var avail := max;
    while avail > 0
      invariant 0 <= avail && avail + |data| == max && data <= bytes && !eof
    {
      var rest := bytes[|data|..];
      if rest == [] {
        eof := ended;
        return;
      }
      var r :| 1 <= r <= avail && r <= |rest|;
      data := data + rest[..r];
      avail := avail - r;
    }
    assert data == bytes[..max];
  }

  /** What the stream protocol makes of data read from the fd, and of data from the other end. */
  function SendOf(m: Memory, p: Ptr, data: seq<Byte>): Sent
    requires p in m && Deref(m, p)
  {
    FlushOutgoing(ConnOf(m, p), m[p].id, data)
  }

  function EnqueueOf(m: Memory, p: Ptr, data: seq<Byte>, outcome: WriteOutcome): Flushed
    requires p in m && Deref(m, p) && Plausible(m[p].queue + data, outcome)
  {
    StreamProtocol.Enqueue(ConnOf(m, p), m[p].id, DelayedAck(m[p]), data, outcome)
  }

  lemma EnqueueIsFlush(m: Memory, p: Ptr, data: seq<Byte>, outcome: WriteOutcome)
    requires p in m && Deref(m, p) && Plausible(m[p].queue + data, outcome) && m[p].peer != Some(p)
    ensures var m' := m[p := m[p].(queue := m[p].queue + data)];
            Deref(m', p) && FlushOf(m', p, outcome) == EnqueueOf(m, p, data, outcome)
  {
  }

  /** The READY that follows a flush, if one does. */
  function ReadyPackets(m: Memory, s: ASocket, flushed: Uint32): Packets
    requires s.peer.Some? ==> s.peer.value in m
  {
    if s.transport.None? || s.peer.None? then []
    else if s.avail.Some? then
      [(s.transport.value, Ready(s.id, m[s.peer.value].id, s.transport.value.delayedAck, flushed))]
    else if flushed != 0 && |s.queue| < MAX_PAYLOAD then
      [(s.transport.value, Ready(s.id, m[s.peer.value].id, s.transport.value.delayedAck, 0))]
    else []
  }

  predicate WroteSome(before: ASocket, outcome: WriteOutcome, s: ASocket, flushed: Uint32)
    requires Plausible(before.queue, outcome)
  {
    var failed := before.queue != [] && (outcome.WriteFailed? || outcome == Wrote(0));
    && flushed == (if before.queue != [] && outcome.Wrote? then outcome.count else 0)
    && s == before.(queue := before.queue[flushed..], writeError := before.writeError || failed)
  }

  /** The steps of the code and the one step of the protocol agree. */
  lemma FlushIsWriteThenReady(m: Memory, p: Ptr, outcome: WriteOutcome, s: ASocket, flushed: Uint32)
    requires p in m && Deref(m, p) && Plausible(m[p].queue, outcome) && WroteSome(m[p], outcome, s, flushed)
    ensures var (f, fdFull) := (FlushOf(m, p, outcome), s.queue != [] && !s.writeError);
            && f.destroyed == (s.closing && !fdFull)
            && Tagged(m[p].transport, f.sent) == ReadyPackets(m, s, flushed)
            && WithConn(m[p], f.conn) == s.(writeArmed := fdFull)
  {
  }

  /** The writev of local_socket_flush_incoming: what the fd took leaves the queue, a broken fd is remembered. */
  method WriteQueue(before: ASocket, outcome: WriteOutcome) returns (s: ASocket, flushed: Uint32)
    requires Plausible(before.queue, outcome)
    ensures WroteSome(before, outcome, s, flushed)
  {
    s, flushed := before, 0;
    if s.queue != [] {
      if outcome.Wrote? && outcome.count > 0 {
        flushed := outcome.count;
        s := s.(queue := if flushed == |s.queue| then [] else s.queue[flushed..]);
      } else if !outcome.WouldBlock? {
        s := s.(writeError := true);
      }
    }
  }

  /** The packets of one socket, tagged with its transport. */
  function Tagged(on: Option<Transport>, msgs: seq<Msg>): Packets {
    if on.None? then [] else seq(|msgs|, i requires 0 <= i < |msgs| => (on.value, msgs[i]))
  }

  /** What the stream protocol makes of a writable fd. */
  function FlushOf(m: Memory, p: Ptr, outcome: WriteOutcome): Flushed
    requires p in m && Deref(m, p) && Plausible(m[p].queue, outcome)
  {
    FlushIncoming(ConnOf(m, p), m[p].id, DelayedAck(m[p]), outcome)
  }
}
