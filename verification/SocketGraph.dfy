/**
 * The socket table of one adb process: sockets that point at each other, the list of open local
 * sockets and the list of those that only drain.  Sockets live in an explicit memory, so that a
 * deleted socket is an address that is no longer there.
 */
module SocketGraph {
  import opened Bytes
  import opened FdIo
  import opened Framing
  import opened StreamProtocol
  import SmartRequest

  datatype Transport = Transport(serial: nat, delayedAck: bool, maxPayload: nat)

  /**
   * Which functions a socket's pointers name.  Notify is a local socket whose ready and close
   * functions first tell the client how its request ended.
   */
  datatype Kind = Local | Notify | Remote | Smart

  type Ptr = nat

  datatype ASocket = ASocket(id: nat, kind: Kind, peer: Option<Ptr>, transport: Option<Transport>,
                             closing: bool, writeError: bool, readArmed: bool, writeArmed: bool,
                             queue: seq<Byte>, avail: Option<int>, request: seq<Byte>) {

    predicate IsLocal() {
      kind == Local || kind == Notify
    }

    /** Closing this socket only puts it aside, because it still has bytes to write. */
    predicate Survives() {
      IsLocal() && !closing && !writeError && queue != []
    }
  }

  function NewSocket(id: nat, kind: Kind, transport: Option<Transport>): ASocket {
    ASocket(id, kind, None, transport, false, false, false, false, [], None, [])
  }

  type Memory = map<Ptr, ASocket>

  // ---- lists of addresses

  /** The list without the addresses in `drop`, in the same order. */
  function Keep(list: seq<Ptr>, drop: set<Ptr>): seq<Ptr> {
    if list == [] then []
    else if list[0] in drop then Keep(list[1..], drop)
    else [list[0]] + Keep(list[1..], drop)
  }

  ghost predicate Distinct(list: seq<Ptr>) {
    forall i, j :: 0 <= i < j < |list| ==> list[i] != list[j]
  }

  lemma {:induction false} KeepMember(list: seq<Ptr>, drop: set<Ptr>, x: Ptr)
    ensures x in Keep(list, drop) <==> x in list && x !in drop
  {
    if list != [] {
      KeepMember(list[1..], drop, x);
    }
  }

  lemma {:induction false} KeepDistinct(list: seq<Ptr>, drop: set<Ptr>)
    requires Distinct(list)
    ensures Distinct(Keep(list, drop))
  {
    if list != [] {
      assert forall i :: 0 <= i < |list[1..]| ==> list[1..][i] == list[i + 1];
      KeepDistinct(list[1..], drop);
      KeepMember(list[1..], drop, list[0]);
    }
  }

  lemma {:induction false} KeepShrinks(list: seq<Ptr>, drop: set<Ptr>)
    ensures |Keep(list, drop)| <= |list|
    ensures forall x :: x in list && x in drop ==> |Keep(list, drop)| < |list|
  {
    if list != [] {
      KeepShrinks(list[1..], drop);
    }
  }

  lemma {:induction false} KeepTwice(list: seq<Ptr>, a: set<Ptr>, b: set<Ptr>)
    ensures Keep(Keep(list, a), b) == Keep(list, a + b)
  {
    if list != [] {
      KeepTwice(list[1..], a, b);
      var rest := Keep(list[1..], a);
      assert ([list[0]] + rest)[1..] == rest;
    }
  }

  /** Only the members of the list matter. */
  lemma {:induction false} KeepSame(list: seq<Ptr>, a: set<Ptr>, b: set<Ptr>)
    requires forall x :: x in list ==> (x in a <==> x in b)
    ensures Keep(list, a) == Keep(list, b)
  {
    if list != [] {
      KeepSame(list[1..], a, b);
    }
  }

  lemma {:induction false} KeepSnoc(list: seq<Ptr>, x: Ptr, drop: set<Ptr>)
    ensures Keep(list + [x], drop) == Keep(list, drop) + if x in drop then [] else [x]
  {
    if list == [] {
      assert list + [x] == [x] && [x][1..] == [];
    } else {
      KeepSnoc(list[1..], x, drop);
      assert (list + [x])[1..] == list[1..] + [x];
    }
  }

  lemma {:induction false} KeepNone(list: seq<Ptr>)
    ensures Keep(list, {}) == list
  {
    if list != [] {
      KeepNone(list[1..]);
    }
  }

  // ---- the invariants of the table

  datatype Table = Table(nextId: nat, memory: Memory, localList: seq<Ptr>, closingList: seq<Ptr>)

  /** Following the socket's peer pointer does not touch a deleted socket. */
  predicate Deref(m: Memory, p: Ptr)
    requires p in m
  {
    m[p].peer.Some? ==> m[p].peer.value in m && m[p].peer.value != p
  }

  /** The socket's peer exists and points back, and only local sockets may be alone. */
  ghost predicate PeerOk(m: Memory, p: Ptr)
    requires p in m
  {
    && Deref(m, p)
    && (m[p].peer.Some? ==> m[m[p].peer.value].peer == Some(p))
    && (!m[p].IsLocal() ==> m[p].peer.Some? && m[m[p].peer.value].IsLocal())
    && (m[p].kind == Remote ==> m[p].transport.Some? && m[p].id != 0)
  }

  /** Peering is symmetric, except at the sockets in `hole`, which are in the middle of closing. */
  ghost predicate Peering(m: Memory, hole: set<Ptr>) {
    forall p :: p in m && p !in hole ==> PeerOk(m, p)
  }

  ghost predicate Unpointed(m: Memory, p: Ptr, hole: set<Ptr>) {
    forall x :: x in m && x !in hole ==> m[x].peer != Some(p)
  }

  predicate SameLocalId(s: ASocket, r: ASocket) {
    s.IsLocal() && r.IsLocal() && s.id == r.id
  }

  /** Every local socket is in the list its state calls for, once, under an id of its own. */
  ghost predicate Lists(t: Table) {
    && Distinct(t.localList) && Distinct(t.closingList) && t.nextId > 0
    && (forall p :: p in t.localList <==> p in t.memory && t.memory[p].IsLocal() && !t.memory[p].closing)
    && (forall p :: p in t.closingList <==> p in t.memory && t.memory[p].IsLocal() && t.memory[p].closing)
    && (forall p :: p in t.memory && t.memory[p].IsLocal() ==> 0 < t.memory[p].id < t.nextId)
    && (forall p, q :: p in t.memory && q in t.memory && SameLocalId(t.memory[p], t.memory[q]) ==> p == q)
  }

  /** A socket that drains has no peer and something to write, and unwritten bytes are always waited for. */
  ghost predicate DrainOk(s: ASocket) {
    s.IsLocal() ==>
      && (s.closing ==> s.peer.None? && s.queue != [] && !s.writeError && !s.readArmed)
      && (s.queue != [] && !s.writeError ==> s.writeArmed)
  }

  ghost predicate Drains(m: Memory, hole: set<Ptr>) {
    forall p :: p in m && p !in hole ==> DrainOk(m[p])
  }

  ghost predicate Good(t: Table) {
    Peering(t.memory, {}) && Lists(t) && Drains(t.memory, {})
  }

  // ---- destroying and putting aside

  function Destroyed(t: Table, p: Ptr): Table {
    Table(t.nextId, t.memory - {p}, Keep(t.localList, {p}), Keep(t.closingList, {p}))
  }

  function Parked(t: Table, p: Ptr): Table
    requires p in t.memory
  {
    Table(t.nextId, t.memory[p := t.memory[p].(closing := true, readArmed := false)],
          Keep(t.localList, {p}), Keep(t.closingList, {p}) + [p])
  }

  lemma DestroyKeepsLists(t: Table, p: Ptr)
    requires Lists(t)
    ensures Lists(Destroyed(t, p))
  {
    KeepDistinct(t.localList, {p});
    KeepDistinct(t.closingList, {p});
    forall x
      ensures x in Keep(t.localList, {p}) <==> x in t.localList && x != p
      ensures x in Keep(t.closingList, {p}) <==> x in t.closingList && x != p
    {
      KeepMember(t.localList, {p}, x);
      KeepMember(t.closingList, {p}, x);
    }
  }

  lemma DestroyKeeps(t: Table, p: Ptr, hole: set<Ptr>)
    requires Peering(t.memory, hole) && Lists(t) && Drains(t.memory, {p}) && Unpointed(t.memory, p, hole)
    ensures var t' := Destroyed(t, p); Peering(t'.memory, hole) && Lists(t') && Drains(t'.memory, {})
  {
    DestroyKeepsLists(t, p);
    var m := t.memory - {p};
    forall x | x in m && x !in hole
      ensures PeerOk(m, x)
    {
      assert PeerOk(t.memory, x);
    }
  }

  /** When only the destroyed socket was out of order, nothing is any more. */
  lemma DestroyMends(t: Table, p: Ptr)
    requires Peering(t.memory, {p}) && Lists(t) && Drains(t.memory, {p}) && Unpointed(t.memory, p, {p})
    ensures Good(Destroyed(t, p))
  {
    DestroyKeeps(t, p, {p});
    assert p !in Destroyed(t, p).memory;
  }

  lemma ParkKeepsLists(t: Table, p: Ptr)
    requires Lists(t) && p in t.memory && t.memory[p].IsLocal()
    ensures Lists(Parked(t, p))
  {
    KeepDistinct(t.localList, {p});
    KeepDistinct(t.closingList, {p});
    forall x
      ensures x in Keep(t.localList, {p}) <==> x in t.localList && x != p
      ensures x in Keep(t.closingList, {p}) <==> x in t.closingList && x != p
    {
      KeepMember(t.localList, {p}, x);
      KeepMember(t.closingList, {p}, x);
    }
  }

  lemma ParkKeeps(t: Table, p: Ptr, hole: set<Ptr>)
    requires Peering(t.memory, hole) && Lists(t) && Drains(t.memory, {})
    requires p in t.memory && t.memory[p].Survives() && t.memory[p].peer.None?
    ensures var t' := Parked(t, p); Peering(t'.memory, hole) && Lists(t') && Drains(t'.memory, {})
    ensures t.memory[p].writeArmed
  {
    ParkKeepsLists(t, p);
    assert DrainOk(t.memory[p]);
    var m := Parked(t, p).memory;
    forall x | x in m && x !in hole
      ensures PeerOk(m, x)
    {
      assert PeerOk(t.memory, x);
    }
  }

  // ---- changing one socket in place

  function SetSocket(t: Table, p: Ptr, s: ASocket): Table {
    t.(memory := t.memory[p := s])
  }

  lemma SetKeepsLists(t: Table, p: Ptr, s: ASocket)
    requires Lists(t) && p in t.memory
    requires s.IsLocal() == t.memory[p].IsLocal() && s.closing == t.memory[p].closing && s.id == t.memory[p].id
    ensures Lists(SetSocket(t, p, s))
  {
  }

  lemma SetKeepsPeering(m: Memory, p: Ptr, s: ASocket, hole: set<Ptr>)
    requires Peering(m, hole) && p in m
    requires s.peer == m[p].peer && s.IsLocal() == m[p].IsLocal() && s.id == m[p].id && s.transport == m[p].transport
    requires s.kind == Remote ==> m[p].kind == Remote
    ensures Peering(m[p := s], hole)
  {
    forall x | x in m[p := s] && x !in hole
      ensures PeerOk(m[p := s], x)
    {
      assert PeerOk(m, x);
    }
  }

  // ---- closing

  function SetPeer(t: Table, p: Ptr, peer: Option<Ptr>): Table
    requires p in t.memory
  {
    SetSocket(t, p, t.memory[p].(peer := peer))
  }

  /** A Notify socket that is closed or becomes ready turns into a plain local one. */
  function Settled(t: Table, p: Ptr): Table
    requires p in t.memory
  {
    if t.memory[p].kind == Notify then SetSocket(t, p, t.memory[p].(kind := Local)) else t
  }

  lemma SettleKeeps(t: Table, p: Ptr, hole: set<Ptr>)
    requires Peering(t.memory, hole) && Lists(t) && Drains(t.memory, {}) && p in t.memory
    ensures var t' := Settled(t, p); Peering(t'.memory, hole) && Lists(t') && Drains(t'.memory, {})
  {
    if t.memory[p].kind == Notify {
      var s := t.memory[p].(kind := Local);
      SetKeepsPeering(t.memory, p, s, hole);
      SetKeepsLists(t, p, s);
      assert DrainOk(t.memory[p]);
    }
  }

  /** The close function of a socket that has no peer. */
  function AfterCloseAlone(t: Table, p: Ptr): Table
    requires p in t.memory
  {
    if t.memory[p].Survives() then Parked(Settled(t, p), p) else Destroyed(Settled(t, p), p)
  }

  lemma CloseAloneKeeps(t: Table, p: Ptr, hole: set<Ptr>)
    requires Peering(t.memory, hole) && Lists(t) && Drains(t.memory, {}) && Unpointed(t.memory, p, hole)
    requires p in t.memory && t.memory[p].peer.None?
    ensures var t' := AfterCloseAlone(t, p); Peering(t'.memory, hole) && Lists(t') && Drains(t'.memory, {})
    ensures t.memory[p].Survives() ==> t.memory[p].writeArmed
  {
    SettleKeeps(t, p, hole);
    if t.memory[p].Survives() {
      ParkKeeps(Settled(t, p), p, hole);
    } else {
      DestroyKeeps(Settled(t, p), p, hole);
    }
  }

  /** What closing a lone socket leaves of the memory. */
  ghost predicate ClosedAlone(t: Table, t': Table, p: Ptr)
    requires p in t.memory
  {
    && t'.localList == Keep(t.localList, {p}) && t'.nextId == t.nextId
    && t'.memory.Keys == (if t.memory[p].Survives() then t.memory.Keys else t.memory.Keys - {p})
    && (forall x :: x in t'.memory && x != p ==> t'.memory[x] == t.memory[x])
    && (p in t'.memory ==> t'.memory[p] == t.memory[p].(kind := Local, closing := true, readArmed := false))
  }

  lemma StillUnpointed(t: Table, t': Table, q: Ptr, p: Ptr, hole: set<Ptr>)
    requires q in t.memory && ClosedAlone(t, t', q) && Unpointed(t.memory, p, hole)
    ensures Unpointed(t'.memory, p, hole)
  {
  }

  lemma CloseAloneShape(t: Table, p: Ptr)
    requires p in t.memory
    ensures ClosedAlone(t, AfterCloseAlone(t, p), p)
  {
  }

  /** local_socket_close: the peer forgets the socket and closes, then the socket forgets it and closes. */
  function AfterClose(t: Table, p: Ptr): Table
    requires p in t.memory && Deref(t.memory, p)
  {
    if t.memory[p].peer.None? then AfterCloseAlone(t, p) else
    var q := t.memory[p].peer.value;
    AfterCloseAlone(SetPeer(AfterCloseAlone(SetPeer(t, q, None), q), p, None), p)
  }

  /** The socket and, if it has one, its peer. */
  function WithPeer(m: Memory, p: Ptr): set<Ptr>
    requires p in m
  {
    {p} + if m[p].peer.Some? then {m[p].peer.value} else {}
  }

  lemma ForgetPeerKeeps(t: Table, p: Ptr, q: Ptr)
    requires Good(t) && p in t.memory && t.memory[p].peer == Some(q)
    ensures q in t.memory && q != p && t.memory[q].peer == Some(p)
    ensures Lists(SetPeer(t, q, None)) && Drains(SetPeer(t, q, None).memory, {})
    ensures Peering(SetPeer(t, q, None).memory, {p, q})
    ensures Unpointed(SetPeer(t, q, None).memory, q, {p, q}) && Unpointed(SetPeer(t, q, None).memory, p, {p, q})
  {
    assert PeerOk(t.memory, p) && PeerOk(t.memory, q);
    SetKeepsLists(t, q, t.memory[q].(peer := None));
    var m := t.memory[q := t.memory[q].(peer := None)];
    forall x | x in m && x !in {p, q}
      ensures PeerOk(m, x) && m[x].peer != Some(q) && m[x].peer != Some(p)
    {
      assert PeerOk(t.memory, x);
    }
    assert DrainOk(t.memory[q]);
  }

  /** Once the peer has closed, the socket is an ordinary one without a peer. */
  lemma ForgetClosedPeerKeeps(t: Table, p: Ptr, q: Ptr)
    requires Peering(t.memory, {p, q}) && Lists(t) && Drains(t.memory, {})
    requires p in t.memory && t.memory[p].IsLocal() && !t.memory[p].closing
    requires Unpointed(t.memory, p, {p, q}) && Unpointed(t.memory, q, {p, q})
    requires q in t.memory ==> t.memory[q].IsLocal() && t.memory[q].peer.None?
    ensures Good(SetPeer(t, p, None)) && Unpointed(SetPeer(t, p, None).memory, p, {})
  {
    SetKeepsLists(t, p, t.memory[p].(peer := None));
    var m := t.memory[p := t.memory[p].(peer := None)];
    forall x | x in m
      ensures PeerOk(m, x) && m[x].peer != Some(p)
    {
      assert x !in {p, q} ==> PeerOk(t.memory, x);
    }
    assert DrainOk(t.memory[p]);
  }

  lemma NobodyPointsAtAlone(t: Table, p: Ptr)
    requires Good(t) && p in t.memory && t.memory[p].peer.None?
    ensures Unpointed(t.memory, p, {})
  {
    forall x | x in t.memory
      ensures t.memory[x].peer != Some(p)
    {
      assert PeerOk(t.memory, x);
    }
  }

  /** Closing a socket keeps the graph sound. */
  lemma CloseKeeps(t: Table, p: Ptr)
    requires Good(t) && p in t.localList
    ensures PeerOk(t.memory, p) && Good(AfterClose(t, p))
  {
    assert PeerOk(t.memory, p);
    if t.memory[p].peer.None? {
      NobodyPointsAtAlone(t, p);
      CloseAloneKeeps(t, p, {});
    } else {
      var q := t.memory[p].peer.value;
      ForgetPeerKeeps(t, p, q);
      var t1 := SetPeer(t, q, None);
      CloseAloneKeeps(t1, q, {p, q});
      CloseAloneShape(t1, q);
      var t2 := AfterCloseAlone(t1, q);
      ForgetClosedPeerKeeps(t2, p, q);
      CloseAloneKeeps(SetPeer(t2, p, None), p, {});
    }
  }

  /** What closing a socket and its peer leaves of the memory. */
  ghost predicate ClosedPair(t: Table, t': Table, pair: set<Ptr>) {
    && t'.localList == Keep(t.localList, pair)
    && t'.nextId == t.nextId
    && (forall x :: x in t'.memory <==> x in t.memory && (x !in pair || t.memory[x].Survives()))
    && (forall x :: x in t'.memory && x !in pair ==> t'.memory[x] == t.memory[x])
  }

  lemma ClosedOneByOne(t: Table, t1: Table, t2: Table, p: Ptr, q: Ptr)
    requires p in t.memory && q in t.memory && p != q
    requires ClosedAlone(SetPeer(t, q, None), t1, q) && p in t1.memory && ClosedAlone(SetPeer(t1, p, None), t2, p)
    ensures ClosedPair(t, t2, {q} + {p})
  {
    KeepTwice(t.localList, {q}, {p});
  }

  lemma ClosePairShape(t: Table, p: Ptr, q: Ptr)
    requires p in t.memory && q in t.memory && p != q
    ensures ClosedPair(t, AfterCloseAlone(SetPeer(AfterCloseAlone(SetPeer(t, q, None), q), p, None), p), {q} + {p})
  {
    var t1 := AfterCloseAlone(SetPeer(t, q, None), q);
    CloseAloneShape(SetPeer(t, q, None), q);
    CloseAloneShape(SetPeer(t1, p, None), p);
    ClosedOneByOne(t, t1, AfterCloseAlone(SetPeer(t1, p, None), p), p, q);
  }

  /**
   * Closing drops exactly the socket and its peer from the list of open sockets; of these two, the
   * ones with bytes to write survive, and no other socket is touched.
   */
  lemma CloseShape(t: Table, p: Ptr)
    requires p in t.memory && PeerOk(t.memory, p)
    ensures ClosedPair(t, AfterClose(t, p), WithPeer(t.memory, p))
  {
    if t.memory[p].peer.None? {
      assert WithPeer(t.memory, p) == {p};
      CloseAloneShape(t, p);
    } else {
      assert WithPeer(t.memory, p) == {t.memory[p].peer.value} + {p};
      ClosePairShape(t, p, t.memory[p].peer.value);
    }
  }

  /** A smart socket that gives up takes its client down with it and goes away. */
  lemma SmartCloseKeeps(t: Table, p: Ptr)
    requires Good(t) && p in t.memory && !t.memory[p].IsLocal()
    ensures PeerOk(t.memory, p) && t.memory[p].peer.Some? && Good(AfterClose(t, p))
  {
    assert PeerOk(t.memory, p);
    var q := t.memory[p].peer.value;
    ForgetPeerKeeps(t, p, q);
    var t1 := SetPeer(t, q, None);
    CloseAloneKeeps(t1, q, {p, q});
    CloseAloneShape(t1, q);
    StillUnpointed(t1, AfterCloseAlone(t1, q), q, p, {p, q});
    DropSmartKeeps(AfterCloseAlone(t1, q), p, q);
  }

  lemma DropSmartKeeps(t: Table, p: Ptr, q: Ptr)
    requires Peering(t.memory, {p, q}) && Lists(t) && Drains(t.memory, {})
    requires p in t.memory && !t.memory[p].IsLocal()
    requires Unpointed(t.memory, p, {p, q})
    requires q in t.memory ==> t.memory[q].IsLocal() && t.memory[q].peer.None?
    ensures Good(AfterCloseAlone(SetPeer(t, p, None), p))
  {
    var t1 := SetPeer(t, p, None);
    SetKeepsLists(t, p, t1.memory[p]);
    forall x | x in t1.memory && x != p
      ensures PeerOk(t1.memory, x) && t1.memory[x].peer != Some(p)
    {
      assert x != q ==> PeerOk(t.memory, x);
    }
    DestroyMends(t1, p);
  }

  // ---- new sockets

  /** create_local_socket and install_local_socket at a fresh address. */
  function Installed(t: Table, p: Ptr, transport: Option<Transport>): Table {
    Table(t.nextId + 1, t.memory[p := NewSocket(t.nextId, Local, transport)], t.localList + [p], t.closingList)
  }

  lemma FreshIsUnpointed(t: Table, p: Ptr)
    requires Good(t) && p !in t.memory
    ensures p !in t.localList && p !in t.closingList
    ensures forall x :: x in t.memory ==> t.memory[x].peer != Some(p)
  {
    forall x | x in t.memory
      ensures t.memory[x].peer != Some(p)
    {
      assert PeerOk(t.memory, x);
    }
  }

  lemma InstallKeepsLists(t: Table, p: Ptr, transport: Option<Transport>)
    requires Lists(t) && p !in t.memory
    ensures Lists(Installed(t, p, transport))
  {
    assert p !in t.localList && p !in t.closingList;
  }

  lemma InstallKeeps(t: Table, p: Ptr, transport: Option<Transport>)
    requires Good(t) && p !in t.memory
    ensures Good(Installed(t, p, transport))
  {
    FreshIsUnpointed(t, p);
    InstallKeepsLists(t, p, transport);
    var t' := Installed(t, p, transport);
    forall x | x in t'.memory
      ensures PeerOk(t'.memory, x)
    {
      assert x != p ==> PeerOk(t.memory, x);
    }
  }

  /** A new remote or smart socket at a fresh address q becomes the peer of the lone socket p. */
  function Peered(t: Table, p: Ptr, q: Ptr, s: ASocket): Table
    requires p in t.memory
  {
    t.(memory := t.memory[p := t.memory[p].(peer := Some(q))][q := s.(peer := Some(p))])
  }

  lemma PeerKeepsLists(t: Table, p: Ptr, q: Ptr, s: ASocket)
    requires Lists(t) && p in t.localList && q !in t.memory && !s.IsLocal()
    ensures Lists(Peered(t, p, q, s))
  {
    var t1 := SetSocket(t, p, t.memory[p].(peer := Some(q)));
    SetKeepsLists(t, p, t.memory[p].(peer := Some(q)));
    AddKeepsLists(t1, q, s.(peer := Some(p)));
  }

  /** A socket that is not local is in no list. */
  lemma AddKeepsLists(t: Table, q: Ptr, s: ASocket)
    requires Lists(t) && q !in t.memory && !s.IsLocal()
    ensures Lists(SetSocket(t, q, s))
  {
    assert q !in t.localList && q !in t.closingList;
  }

  lemma PeerKeeps(t: Table, p: Ptr, q: Ptr, s: ASocket)
    requires Good(t) && p in t.localList && t.memory[p].peer.None? && q !in t.memory && !s.IsLocal()
    requires s.kind == Remote ==> s.transport.Some? && s.id != 0
    ensures Good(Peered(t, p, q, s))
  {
    FreshIsUnpointed(t, q);
    NobodyPointsAtAlone(t, p);
    PeerKeepsLists(t, p, q, s);
    var t' := Peered(t, p, q, s);
    forall x | x in t'.memory
      ensures PeerOk(t'.memory, x) && DrainOk(t'.memory[x])
    {
      assert x != q ==> PeerOk(t.memory, x) && DrainOk(t.memory[x]);
    }
  }

  // ---- events that leave the graph alone

  /** A change that keeps who a socket is, where it points and where it is listed. */
  predicate SameRole(s: ASocket, s': ASocket) {
    && s'.id == s.id && s'.IsLocal() == s.IsLocal() && (s'.IsLocal() || s'.kind == s.kind)
    && s'.peer == s.peer && s'.transport == s.transport && s'.closing == s.closing
  }

  lemma SetKeeps(t: Table, p: Ptr, s: ASocket)
    requires Good(t) && p in t.memory && SameRole(t.memory[p], s) && DrainOk(s)
    ensures Good(SetSocket(t, p, s))
  {
    SetKeepsPeering(t.memory, p, s, {});
    SetKeepsLists(t, p, s);
  }

  /** The socket as the stream protocol sees it: it answers to a peer only through its own transport. */
  function ConnOf(m: Memory, p: Ptr): Conn
    requires p in m && Deref(m, p)
  {
    var s := m[p];
    Conn(if s.peer.Some? && s.transport.Some? then Some(m[s.peer.value].id) else None,
         s.queue, s.avail, s.closing, s.writeError, s.readArmed, s.writeArmed)
  }

  predicate DelayedAck(s: ASocket) {
    s.transport.Some? && s.transport.value.delayedAck
  }

  /** The fields of a socket that the stream protocol changes. */
  function WithConn(s: ASocket, c: Conn): ASocket {
    s.(queue := c.queue, avail := c.avail, writeError := c.writeError, readArmed := c.readArmed,
       writeArmed := c.writeArmed)
  }

  /** local_socket_flush_incoming in terms of the stream protocol; a socket that drained goes away. */
  function AfterFlush(t: Table, p: Ptr, outcome: WriteOutcome): Table
    requires p in t.memory && Deref(t.memory, p) && Plausible(t.memory[p].queue, outcome)
  {
    var s := t.memory[p];
    var f := FlushIncoming(ConnOf(t.memory, p), s.id, DelayedAck(s), outcome);
    if f.destroyed then Destroyed(t, p) else SetSocket(t, p, WithConn(s, f.conn))
  }

  /** The only socket an fd write can remove is one that drains, and a socket is as busy as it says afterwards. */
  lemma FlushKeeps(t: Table, p: Ptr, outcome: WriteOutcome)
    requires Peering(t.memory, {}) && Lists(t) && Drains(t.memory, {p})
    requires p in t.memory && t.memory[p].IsLocal() && Plausible(t.memory[p].queue, outcome)
    requires t.memory[p].closing ==> t.memory[p].peer.None? && !t.memory[p].readArmed && !t.memory[p].writeError
    ensures PeerOk(t.memory, p) && Good(AfterFlush(t, p, outcome))
  {
    assert PeerOk(t.memory, p);
    var s := t.memory[p];
    var f := FlushIncoming(ConnOf(t.memory, p), s.id, DelayedAck(s), outcome);
    if f.destroyed {
      forall x | x in t.memory
        ensures t.memory[x].peer != Some(p)
      {
        assert PeerOk(t.memory, x);
      }
      DestroyKeeps(t, p, {});
    } else {
      var s' := WithConn(s, f.conn);
      SetKeepsPeering(t.memory, p, s', {});
      SetKeepsLists(t, p, s');
    }
  }

  /** local_socket_enqueue. */
  function AfterEnqueue(t: Table, p: Ptr, data: seq<Byte>, outcome: WriteOutcome): Table
    requires p in t.memory && Deref(t.memory, p) && Plausible(t.memory[p].queue + data, outcome)
  {
    var t' := SetSocket(t, p, t.memory[p].(queue := t.memory[p].queue + data));
    AfterFlush(t', p, outcome)
  }

  // ---- smart sockets

  /**
   * smart_socket_enqueue found a host service: the smart socket's client is tied to the service's
   * socket s2 instead, which starts to read, and the smart socket goes away.
   */
  function TiedToService(t: Table, p: Ptr, s2: Ptr): Table
    requires p in t.memory && s2 in t.memory && t.memory[p].peer.Some? && Deref(t.memory, p)
  {
    Destroyed(Tied(t, t.memory[p].peer.value, s2), p)
  }

  /** ... or a device: the client waits alone for the device's answer, under the smart socket's transport. */
  function LeftWaiting(t: Table, p: Ptr): Table
    requires p in t.memory && t.memory[p].peer.Some? && Deref(t.memory, p)
  {
    var c := t.memory[p].peer.value;
    var avail := if DelayedAck(t.memory[p]) then Some(0) else t.memory[c].avail;
    Destroyed(SetSocket(t, c,
                        t.memory[c].(kind := Notify, peer := None, transport := t.memory[p].transport, avail := avail)),
              p)
  }

  /** Client c and service s2 point at each other; the smart socket is left as it is. */
  function Tied(t: Table, c: Ptr, s2: Ptr): Table
    requires c in t.memory && s2 in t.memory
  {
    var t1 := SetSocket(t, c, t.memory[c].(kind := Local, peer := Some(s2)));
    SetSocket(t1, s2, t1.memory[s2].(peer := Some(c), readArmed := true))
  }

  lemma TieKeepsPeering(t: Table, p: Ptr, c: Ptr, s2: Ptr)
    requires Peering(t.memory, {}) && p in t.memory && c in t.memory && s2 in t.memory
    requires t.memory[p].peer == Some(c) && t.memory[p].kind == Smart
    requires t.memory[s2].peer.None? && t.memory[s2].IsLocal()
    ensures c != s2 && t.memory[c].IsLocal()
    ensures Peering(Tied(t, c, s2).memory, {p}) && Unpointed(Tied(t, c, s2).memory, p, {p})
  {
    assert PeerOk(t.memory, p) && PeerOk(t.memory, c) && PeerOk(t.memory, s2);
    var m' := Tied(t, c, s2).memory;
    forall x | x in m' && x != p
      ensures PeerOk(m', x) && m'[x].peer != Some(p)
    {
      assert PeerOk(t.memory, x);
    }
  }

  lemma TieKeepsLists(t: Table, c: Ptr, s2: Ptr)
    requires Lists(t) && c in t.memory && s2 in t.memory && c != s2 && t.memory[c].IsLocal()
    ensures Lists(Tied(t, c, s2))
  {
    var s := t.memory[c].(kind := Local, peer := Some(s2));
    SetKeepsLists(t, c, s);
    SetKeepsLists(SetSocket(t, c, s), s2, t.memory[s2].(peer := Some(c), readArmed := true));
  }

  lemma TieKeepsDrains(t: Table, c: Ptr, s2: Ptr)
    requires Drains(t.memory, {}) && c in t.memory && s2 in t.memory && t.memory[c].IsLocal() && t.memory[s2].IsLocal()
    requires t.memory[c].peer.Some? && !t.memory[s2].closing
    ensures Drains(Tied(t, c, s2).memory, {})
  {
    assert DrainOk(t.memory[c]) && DrainOk(t.memory[s2]);
  }

  lemma TieKeeps(t: Table, p: Ptr, s2: Ptr)
    requires Good(t) && p in t.memory && t.memory[p].kind == Smart && s2 in t.localList && t.memory[s2].peer.None?
    ensures PeerOk(t.memory, p) && Good(TiedToService(t, p, s2))
  {
    assert PeerOk(t.memory, p);
    var c := t.memory[p].peer.value;
    assert PeerOk(t.memory, c);
    TieKeepsPeering(t, p, c, s2);
    TieKeepsLists(t, c, s2);
    TieKeepsDrains(t, c, s2);
    DestroyMends(Tied(t, c, s2), p);
  }

  lemma LeaveKeeps(t: Table, p: Ptr)
    requires Good(t) && p in t.memory && t.memory[p].kind == Smart
    ensures PeerOk(t.memory, p) && Good(LeftWaiting(t, p))
  {
    assert PeerOk(t.memory, p);
    var c := t.memory[p].peer.value;
    assert PeerOk(t.memory, c) && DrainOk(t.memory[c]);
    var avail := if DelayedAck(t.memory[p]) then Some(0) else t.memory[c].avail;
    var s := t.memory[c].(kind := Notify, peer := None, transport := t.memory[p].transport, avail := avail);
    SetKeepsLists(t, c, s);
    var t1 := SetSocket(t, c, s);
    forall x | x in t1.memory && x != p
      ensures PeerOk(t1.memory, x) && t1.memory[x].peer != Some(p)
    {
      assert PeerOk(t.memory, x);
    }
    DestroyMends(t1, p);
  }

  // ---- runs

  /** ready() on a local socket: its fd is watched for reading, and a waiting client is told so first. */
  function ReadySocket(s: ASocket): ASocket {
    s.(kind := if s.kind == Notify then Local else s.kind, readArmed := true)
  }

  function AfterReady(t: Table, p: Ptr): Table
    requires p in t.memory
  {
    SetSocket(t, p, ReadySocket(t.memory[p]))
  }

  /** local_socket_ack calls ready exactly when the acknowledgement leaves something to send. */
  predicate BecomesReady(avail: Option<int>, ack: Option<Uint32>) {
    avail.Some? == ack.Some? && (avail.None? || avail.value + AsInt32(ack.value) > 0)
  }

  function AckSocket(s: ASocket, ack: Option<Uint32>): ASocket {
    var avail := if s.avail.Some? && ack.Some? then Some(s.avail.value + AsInt32(ack.value)) else s.avail;
    if BecomesReady(s.avail, ack) then ReadySocket(s.(avail := avail)) else s.(avail := avail)
  }

  function AfterAck(t: Table, p: Ptr, ack: Option<Uint32>): Table
    requires p in t.memory
  {
    SetSocket(t, p, AckSocket(t.memory[p], ack))
  }

  /** In the eyes of the stream protocol that is an acknowledgement. */
  lemma AckFollowsProtocol(t: Table, p: Ptr, ack: Option<Uint32>)
    requires p in t.memory && Deref(t.memory, p)
    ensures Deref(AfterAck(t, p, ack).memory, p)
    ensures ConnOf(AfterAck(t, p, ack).memory, p) == Acknowledge(ConnOf(t.memory, p), ack)
  {
  }

  // ---- reading from an fd

  /** The socket's peer, if it has one, is a remote socket on its own transport. */
  predicate FacesRemote(m: Memory, p: Ptr) {
    p in m && (m[p].peer.Some? ==>
      && m[p].peer.value in m && m[m[p].peer.value].kind == Remote
      && m[p].transport.Some? && m[m[p].peer.value].transport == m[p].transport)
  }

  /**
   * What comes of a request once it is recognized: a host request may switch the transport or lead to the
   * socket of a service, a device request may find the device online, and both may fail.
   */
  datatype Answer = Fails | Switches(to: Transport) | Ties(s2: Ptr) | Leaves

  /** What an enqueue returns, and the table after it. */
  datatype Taken = Taken(result: int, table: Table)

  /** The bytes of the request so far are kept with the smart socket. */
  function Listening(t: Table, q: Ptr, d: seq<Byte>): Table
    requires q in t.memory
  {
    SetSocket(t, q, t.memory[q].(request := SmartRequest.Kept(d)))
  }

  /** What is asked of the bytes so far, and whether it comes to nothing. */
  predicate Refused(what: SmartRequest.Request, on: Option<Transport>, answer: Answer) {
    || what.BadLength? || what.BadSerial?
    || (what.Service? && !answer.Switches? && !answer.Ties?)
    || (what.Destination? && (on.None? || !answer.Leaves?))
  }

  /** The rest of smart_socket_enqueue once the request is recognized; the socket has the bytes. */
  function Served(t: Table, q: Ptr, what: SmartRequest.Request, answer: Answer): Taken
    requires q in t.memory && Deref(t.memory, q) && t.memory[q].peer.Some? && (answer.Ties? ==> answer.s2 in t.memory)
  {
    if what.Partial? then Taken(0, t)
    else if what.BadTransportId? then Taken(-1, t)
    else if Refused(what, t.memory[q].transport, answer) then Taken(-1, AfterClose(t, q))
    else match answer
      case Switches(to) => Taken(0, SetSocket(t, q, t.memory[q].(transport := Some(to), request := [])))
      case Ties(s2) => Taken(0, TiedToService(t, q, s2))
      case _ => Taken(1, LeftWaiting(t, q))
  }

  /**
   * smart_socket_enqueue.  It waits for more, switches the transport and forgets the request, ties the client
   * to a host service, leaves it to a device, or closes both; for a malformed transport id it returns -1 and
   * closes nothing.
   */
  function SmartTakes(t: Table, q: Ptr, data: seq<Byte>, answer: Answer): Taken
    requires q in t.memory && Deref(t.memory, q) && t.memory[q].peer.Some? && (answer.Ties? ==> answer.s2 in t.memory)
  {
    var d := t.memory[q].request + data;
    Served(Listening(t, q, d), q, SmartRequest.Recognize(d), answer)
  }

  /** The enqueue function of socket q: a remote socket sends, a local one queues and writes, a smart one listens. */
  function Takes(t: Table, q: Ptr, data: seq<Byte>, outcome: WriteOutcome, answer: Answer): Taken
    requires q in t.memory && CanTake(t, q, data, outcome, answer)
  {
    match t.memory[q].kind
    case Remote => Taken(1, t)
    case Smart => SmartTakes(t, q, data, answer)
    case _ =>
      var t' := AfterEnqueue(t, q, data, outcome);
      Taken(if q !in t'.memory then -1 else if t'.memory[q].writeArmed then 1 else 0, t')
  }

  /** The pointers that the enqueue function follows lead to sockets that exist. */
  predicate CanTake(t: Table, q: Ptr, data: seq<Byte>, outcome: WriteOutcome, answer: Answer)
    requires q in t.memory
  {
    && Deref(t.memory, q)
    && (t.memory[q].kind == Smart ==> t.memory[q].peer.Some? && (answer.Ties? ==> answer.s2 in t.memory))
    && (t.memory[q].IsLocal() ==> Plausible(t.memory[q].queue + data, outcome))
  }

  /** What the environment decides about an enqueue is possible. */
  predicate Decides(t: Table, q: Ptr, data: seq<Byte>, outcome: WriteOutcome, answer: Answer) {
    && (q in t.memory && t.memory[q].IsLocal() ==> Plausible(t.memory[q].queue + data, outcome))
    && (answer.Ties? ==> IsAlone(t, answer.s2))
  }

  /** Credit is taken off before the peer is given the data. */
  function Charged(s: ASocket, n: nat): ASocket {
    if s.avail.Some? then s.(avail := Some(s.avail.value - n)) else s
  }

  /** After a positive result, reading stops unless there is credit left. */
  function Paused(s: ASocket): ASocket {
    if s.avail.None? || s.avail.value <= 0 then s.(readArmed := false) else s
  }

  /** The part of local_socket_flush_outgoing up to the return of the peer's enqueue. */
  function Given(t: Table, p: Ptr, data: seq<Byte>, outcome: WriteOutcome, answer: Answer): Taken
    requires p in t.memory && CanGive(t, p, data, outcome, answer)
  {
    if data == [] || t.memory[p].peer.None? then Taken(0, t)
    else Takes(SetSocket(t, p, Charged(t.memory[p], |data|)), t.memory[p].peer.value, data, outcome, answer)
  }

  predicate CanGive(t: Table, p: Ptr, data: seq<Byte>, outcome: WriteOutcome, answer: Answer)
    requires p in t.memory
  {
    && Deref(t.memory, p)
    && (data != [] && t.memory[p].peer.Some? ==>
          CanTake(SetSocket(t, p, Charged(t.memory[p], |data|)), t.memory[p].peer.value, data, outcome, answer))
  }

  /** The rest of it touches the socket again, but not after a negative result. */
  predicate Continues(taken: Taken, p: Ptr) {
    taken.result >= 0 ==> p in taken.table.memory && Deref(taken.table.memory, p)
  }

  function Resumed(taken: Taken, p: Ptr, eof: bool): Table
    requires Continues(taken, p)
  {
    if taken.result < 0 then taken.table else
    var t := if taken.result > 0 then SetSocket(taken.table, p, Paused(taken.table.memory[p])) else taken.table;
    if eof then AfterClose(t, p) else t
  }

  /** Everything that happens to the table; addresses of new sockets are not in use. */
  datatype Event =
    | Create(p: Ptr, on: Option<Transport>)
    | ConnectSmart(p: Ptr, q: Ptr)
    | ConnectRemote(p: Ptr, q: Ptr, id: nat, transport: Transport)
    | SetWindow(p: Ptr, avail: Option<int>)
    | MakeReady(p: Ptr)
    | Acknowledged(p: Ptr, ack: Option<Uint32>)
    | Readable(p: Ptr, data: seq<Byte>, eof: bool, outcome: WriteOutcome, answer: Answer)
    | Received(p: Ptr, data: seq<Byte>, outcome: WriteOutcome)
    | Written(p: Ptr, outcome: WriteOutcome)
    | CloseSocket(p: Ptr)

  predicate IsAlone(t: Table, p: Ptr) {
    p in t.localList && p in t.memory && t.memory[p].peer.None?
  }

  /** What the code tests, or what must be so for the event to come up. */
  predicate Enabled(t: Table, e: Event) {
    match e
    case Create(p, _) => p !in t.memory && t.nextId + 1 < TWO32
    case ConnectSmart(p, q) => IsAlone(t, p) && q !in t.memory
    case ConnectRemote(p, q, id, _) => IsAlone(t, p) && q !in t.memory && id != 0
    case Readable(p, data, eof, outcome, answer) =>
      && p in t.localList
      && (p in t.memory && t.memory[p].peer.Some? ==> Decides(t, t.memory[p].peer.value, data, outcome, answer))
    case Received(p, data, outcome) =>
      p in t.localList && (p in t.memory ==> Plausible(t.memory[p].queue + data, outcome))
    case Written(p, outcome) => p in t.memory && t.memory[p].IsLocal() && Plausible(t.memory[p].queue, outcome)
    case _ => e.p in t.localList
  }

  /**
   * The pointers the event follows all lead to sockets that exist.  A socket that was read from is touched
   * again after its peer took the data, unless the result says that it is closed.
   */
  predicate Safe(t: Table, e: Event) {
    match e
    case Create(_, _) => true
    case Readable(p, data, eof, outcome, answer) =>
      p in t.memory && CanGive(t, p, data, outcome, answer) && Continues(Given(t, p, data, outcome, answer), p)
    case _ => e.p in t.memory && Deref(t.memory, e.p)
  }

  function Apply(t: Table, e: Event): Table
    requires Enabled(t, e) && Safe(t, e)
  {
    match e
    case Create(p, on) => Installed(t, p, on)
    case ConnectSmart(p, q) => AfterReady(Peered(t, p, q, NewSocket(0, Smart, None)), p)
    case ConnectRemote(p, q, id, transport) => Peered(t, p, q, NewSocket(id, Remote, Some(transport)))
    case SetWindow(p, avail) => SetSocket(t, p, t.memory[p].(avail := avail))
    case MakeReady(p) => AfterReady(t, p)
    case Acknowledged(p, ack) => AfterAck(t, p, ack)
    case Readable(p, data, eof, outcome, answer) => Resumed(Given(t, p, data, outcome, answer), p, eof)
    case Received(p, data, outcome) => AfterEnqueue(t, p, data, outcome)
    case Written(p, outcome) => AfterFlush(t, p, outcome)
    case CloseSocket(p) => AfterClose(t, p)
  }

  lemma ReadyKeeps(t: Table, p: Ptr)
    requires Good(t) && p in t.localList
    ensures Good(AfterReady(t, p))
  {
    assert DrainOk(t.memory[p]);
    SetKeeps(t, p, ReadySocket(t.memory[p]));
  }

  lemma AckKeeps(t: Table, p: Ptr, ack: Option<Uint32>)
    requires Good(t) && p in t.localList
    ensures Good(AfterAck(t, p, ack))
  {
    assert DrainOk(t.memory[p]);
    SetKeeps(t, p, AckSocket(t.memory[p], ack));
  }

  lemma EnqueueKeeps(t: Table, p: Ptr, data: seq<Byte>, outcome: WriteOutcome)
    requires Good(t) && p in t.localList && Plausible(t.memory[p].queue + data, outcome)
    ensures PeerOk(t.memory, p) && Good(AfterEnqueue(t, p, data, outcome))
    ensures p in AfterEnqueue(t, p, data, outcome).localList
  {
    assert PeerOk(t.memory, p);
    var s := t.memory[p].(queue := t.memory[p].queue + data);
    SetKeepsPeering(t.memory, p, s, {});
    SetKeepsLists(t, p, s);
    FlushKeeps(SetSocket(t, p, s), p, outcome);
  }

  lemma SwitchKeeps(t: Table, p: Ptr, transport: Transport)
    requires Good(t) && p in t.memory && t.memory[p].kind == Smart
    ensures Good(SetSocket(t, p, t.memory[p].(transport := Some(transport), request := [])))
  {
    var s := t.memory[p].(transport := Some(transport), request := []);
    SetKeepsLists(t, p, s);
    var m := t.memory[p := s];
    forall x | x in m
      ensures PeerOk(m, x)
    {
      assert PeerOk(t.memory, x);
    }
  }

  lemma ListenKeeps(t: Table, p: Ptr, q: Ptr, d: seq<Byte>)
    requires Good(t) && p in t.localList && t.memory[p].peer == Some(q) && q in t.memory && t.memory[q].kind == Smart
    ensures var t1 := Listening(t, q, d);
            Good(t1) && p in t1.localList && t1.memory[p] == t.memory[p] && t1.memory[q].peer == Some(p)
  {
    assert PeerOk(t.memory, p);
    SetKeeps(t, q, t.memory[q].(request := SmartRequest.Kept(d)));
  }

  /** The table stays sound, and after a result that is not negative the client is still open. */
  ghost predicate Returns(taken: Taken, p: Ptr) {
    Good(taken.table) && (taken.result >= 0 ==> p in taken.table.localList)
  }

  lemma RefuseKeeps(t: Table, p: Ptr, q: Ptr)
    requires Good(t) && p in t.localList && q in t.memory && t.memory[q].kind == Smart && t.memory[q].peer == Some(p)
    ensures PeerOk(t.memory, q) && Good(AfterClose(t, q)) && p !in AfterClose(t, q).localList
  {
    SmartCloseKeeps(t, q);
    CloseShape(t, q);
    KeepMember(t.localList, WithPeer(t.memory, q), p);
  }

  /** The recognized request is served. */
  lemma ServeKeeps(t: Table, p: Ptr, q: Ptr, answer: Answer)
    requires Good(t) && p in t.localList && q in t.memory && t.memory[q].kind == Smart && t.memory[q].peer == Some(p)
    requires answer.Ties? ==> IsAlone(t, answer.s2)
    ensures PeerOk(t.memory, q) && Good(LeftWaiting(t, q)) && p in LeftWaiting(t, q).localList
    ensures answer.Ties? ==> Good(TiedToService(t, q, answer.s2)) && p in TiedToService(t, q, answer.s2).localList
  {
    assert PeerOk(t.memory, q);
    LeaveKeeps(t, q);
    KeepMember(t.localList, {q}, p);
    if answer.Ties? {
      TieKeeps(t, q, answer.s2);
    }
  }

  /**
   * However a recognized request is served, the graph stays sound.  The client is closed exactly if the request
   * is refused, and the result is negative exactly then and for a malformed transport id.
   */
  lemma ServedKeeps(t: Table, p: Ptr, q: Ptr, what: SmartRequest.Request, answer: Answer)
    requires Good(t) && p in t.localList && q in t.memory && t.memory[q].kind == Smart && t.memory[q].peer == Some(p)
    requires answer.Ties? ==> IsAlone(t, answer.s2)
    ensures PeerOk(t.memory, q) && Returns(Served(t, q, what, answer), p)
    ensures var (taken, refused) := (Served(t, q, what, answer), Refused(what, t.memory[q].transport, answer));
            && (p !in taken.table.localList <==> refused)
            && (taken.result < 0 <==> refused || what.BadTransportId?)
  {
    assert PeerOk(t.memory, q);
    if what.Partial? || what.BadTransportId? {
      assert !Refused(what, t.memory[q].transport, answer);
    } else if Refused(what, t.memory[q].transport, answer) {
      RefuseKeeps(t, p, q);
    } else if answer.Switches? {
      SwitchKeeps(t, q, answer.to);
    } else {
      ServeKeeps(t, p, q, answer);
    }
  }

  /** The same for data at a smart socket, in terms of all the bytes it has got. */
  lemma SmartTakeKeeps(t: Table, p: Ptr, q: Ptr, data: seq<Byte>, answer: Answer)
    requires Good(t) && p in t.localList && t.memory[p].peer == Some(q) && q in t.memory && t.memory[q].kind == Smart
    requires answer.Ties? ==> IsAlone(t, answer.s2)
    ensures PeerOk(t.memory, q) && t.memory[q].peer == Some(p) && Returns(SmartTakes(t, q, data, answer), p)
    ensures var (what, taken) := (AskedOf(t, q, data), SmartTakes(t, q, data, answer));
            && (p !in taken.table.localList <==> Refused(what, t.memory[q].transport, answer))
            && (taken.result < 0 <==> Refused(what, t.memory[q].transport, answer) || what.BadTransportId?)
  {
    var d := t.memory[q].request + data;
    assert PeerOk(t.memory, p);
    assert PeerOk(t.memory, q);
    ListenKeeps(t, p, q, d);
    assert answer.Ties? ==> IsAlone(Listening(t, q, d), answer.s2);
    ServedKeeps(Listening(t, q, d), p, q, SmartRequest.Recognize(d), answer);
  }

  lemma LocalTakeKeeps(t: Table, p: Ptr, q: Ptr, data: seq<Byte>, outcome: WriteOutcome, answer: Answer)
    requires Good(t) && p in t.localList && t.memory[p].peer == Some(q) && q in t.memory && t.memory[q].IsLocal()
    requires Plausible(t.memory[q].queue + data, outcome)
    ensures CanTake(t, q, data, outcome, answer) && Takes(t, q, data, outcome, answer).result >= 0
    ensures Returns(Takes(t, q, data, outcome, answer), p)
  {
    assert PeerOk(t.memory, p) && PeerOk(t.memory, q) && DrainOk(t.memory[q]);
    EnqueueKeeps(t, q, data, outcome);
  }

  lemma TakeKeeps(t: Table, p: Ptr, q: Ptr, data: seq<Byte>, outcome: WriteOutcome, answer: Answer)
    requires Good(t) && p in t.localList && t.memory[p].peer == Some(q) && Decides(t, q, data, outcome, answer)
    ensures q in t.memory && CanTake(t, q, data, outcome, answer) && Returns(Takes(t, q, data, outcome, answer), p)
  {
    assert PeerOk(t.memory, p);
    assert PeerOk(t.memory, q);
    if t.memory[q].kind == Smart {
      SmartTakeKeeps(t, p, q, data, answer);
    } else if t.memory[q].IsLocal() {
      LocalTakeKeeps(t, p, q, data, outcome, answer);
    }
  }

  lemma ChargeKeeps(t: Table, p: Ptr, n: nat)
    requires Good(t) && p in t.localList
    ensures Good(SetSocket(t, p, Charged(t.memory[p], n)))
  {
    assert DrainOk(t.memory[p]);
    SetKeeps(t, p, Charged(t.memory[p], n));
  }

  lemma PauseKeeps(t: Table, p: Ptr)
    requires Good(t) && p in t.localList
    ensures Good(SetSocket(t, p, Paused(t.memory[p])))
  {
    assert DrainOk(t.memory[p]);
    SetKeeps(t, p, Paused(t.memory[p]));
  }

  lemma StillDecides(t: Table, p: Ptr, s: ASocket, q: Ptr, data: seq<Byte>, outcome: WriteOutcome, answer: Answer)
    requires Decides(t, q, data, outcome, answer) && p in t.memory && p != q && s.peer.Some? && t.memory[p].peer.Some?
    ensures Decides(SetSocket(t, p, s), q, data, outcome, answer)
  {
  }

  lemma GiveKeeps(t: Table, p: Ptr, data: seq<Byte>, outcome: WriteOutcome, answer: Answer)
    requires Good(t) && p in t.localList
    requires t.memory[p].peer.Some? ==> Decides(t, t.memory[p].peer.value, data, outcome, answer)
    ensures CanGive(t, p, data, outcome, answer) && Returns(Given(t, p, data, outcome, answer), p)
  {
    assert PeerOk(t.memory, p);
    if data != [] && t.memory[p].peer.Some? {
      var charged, q := Charged(t.memory[p], |data|), t.memory[p].peer.value;
      ChargeKeeps(t, p, |data|);
      StillDecides(t, p, charged, q, data, outcome, answer);
      TakeKeeps(SetSocket(t, p, charged), p, q, data, outcome, answer);
    }
  }

  lemma ResumeKeeps(taken: Taken, p: Ptr, eof: bool)
    requires Returns(taken, p)
    ensures Continues(taken, p) && Good(Resumed(taken, p, eof))
  {
    if taken.result >= 0 {
      var t := taken.table;
      assert PeerOk(t.memory, p);
      PauseKeeps(t, p);
      if eof {
        CloseKeeps(if taken.result > 0 then SetSocket(t, p, Paused(t.memory[p])) else t, p);
      }
    }
  }

  /** The request that data completes at smart socket q. */
  function AskedOf(t: Table, q: Ptr, data: seq<Byte>): SmartRequest.Request
    requires q in t.memory
  {
    SmartRequest.Recognize(t.memory[q].request + data)
  }

  lemma NegativeTake(t: Table, p: Ptr, q: Ptr, data: seq<Byte>, outcome: WriteOutcome, answer: Answer)
    requires Good(t) && p in t.localList && t.memory[p].peer == Some(q) && Decides(t, q, data, outcome, answer)
    ensures q in t.memory && CanTake(t, q, data, outcome, answer)
    ensures var (taken, refused) := (Takes(t, q, data, outcome, answer),
                                     Refused(AskedOf(t, q, data), t.memory[q].transport, answer));
            && (p !in taken.table.localList <==> t.memory[q].kind == Smart && refused)
            && (taken.result < 0 <==> t.memory[q].kind == Smart && (refused || AskedOf(t, q, data).BadTransportId?))
  {
    assert PeerOk(t.memory, p);
    assert PeerOk(t.memory, q);
    if t.memory[q].kind == Smart {
      SmartTakeKeeps(t, p, q, data, answer);
    } else if t.memory[q].IsLocal() {
      LocalTakeKeeps(t, p, q, data, outcome, answer);
    }
  }

  /** The socket gives these bytes to a smart socket. */
  predicate AsksSmart(t: Table, p: Ptr, data: seq<Byte>)
    requires p in t.memory && Deref(t.memory, p)
  {
    data != [] && t.memory[p].peer.Some? && t.memory[t.memory[p].peer.value].kind == Smart
  }

  /**
   * The caller takes a negative result for a sign that it was closed.  It was, unless the bytes that it gave to a
   * smart socket so far are a request with a malformed transport id: then the result is negative and it is open.
   */
  lemma NegativeMeansClosed(t: Table, p: Ptr, data: seq<Byte>, outcome: WriteOutcome, answer: Answer)
    requires Good(t) && p in t.localList
    requires t.memory[p].peer.Some? ==> Decides(t, t.memory[p].peer.value, data, outcome, answer)
    ensures PeerOk(t.memory, p) && CanGive(t, p, data, outcome, answer)
    ensures var taken := Given(t, p, data, outcome, answer);
            && (p !in taken.table.localList ==> taken.result < 0)
            && (taken.result < 0 && p in taken.table.localList <==>
                  AsksSmart(t, p, data) && AskedOf(t, t.memory[p].peer.value, data).BadTransportId?)
  {
    assert PeerOk(t.memory, p);
    if data != [] && t.memory[p].peer.Some? {
      var charged, q := Charged(t.memory[p], |data|), t.memory[p].peer.value;
      ChargeKeeps(t, p, |data|);
      StillDecides(t, p, charged, q, data, outcome, answer);
      NegativeTake(SetSocket(t, p, charged), p, q, data, outcome, answer);
    }
  }

  /** For instance the first bytes of a client that asks for transport id x. */
  lemma MalformedIdIsLeftOpen(t: Table, p: Ptr, outcome: WriteOutcome, answer: Answer)
    requires Good(t) && p in t.localList && t.memory[p].peer.Some? && PeerOk(t.memory, p)
    requires t.memory[t.memory[p].peer.value].kind == Smart && t.memory[t.memory[p].peer.value].request == []
    requires Decides(t, t.memory[p].peer.value, SmartRequest.StrayBytes(), outcome, answer)
    ensures var data := SmartRequest.StrayBytes();
            && CanGive(t, p, data, outcome, answer)
            && Given(t, p, data, outcome, answer).result < 0
            && p in Given(t, p, data, outcome, answer).table.localList
  {
    var data := SmartRequest.StrayBytes();
    SmartRequest.StrayRequest();
    assert [] + data == data;
    NegativeMeansClosed(t, p, data, outcome, answer);
  }

  /** A fresh client whose request is for a device ends up as the connecting socket of the stream protocol. */
  lemma LeftClientIsConnecting(t: Table, p: Ptr, data: seq<Byte>, outcome: WriteOutcome)
    requires p in t.memory && PeerOk(t.memory, p) && AsksSmart(t, p, data) && !t.memory[p].closing
    requires t.memory[t.memory[p].peer.value].transport.Some?
    requires AskedOf(t, t.memory[p].peer.value, data).Destination?
    requires t.memory[p].queue == [] && !t.memory[p].writeError && !t.memory[p].writeArmed && t.memory[p].avail.None?
    ensures CanGive(t, p, data, outcome, Leaves)
    ensures var taken := Given(t, p, data, outcome, Leaves);
            && Continues(taken, p)
            && var t' := Resumed(taken, p, false);
            && p in t'.memory && Deref(t'.memory, p)
            && ConnOf(t'.memory, p) == Connecting(DelayedAck(t'.memory[p]))
  {
    var q := t.memory[p].peer.value;
    GivenToSmart(t, p, q, data, outcome, Leaves);
    LeftIsConnecting(Listening(t, q, t.memory[q].request + data), p, q);
  }

  /** Without credit to charge, giving data to a smart socket is only its taking. */
  lemma GivenToSmart(t: Table, p: Ptr, q: Ptr, data: seq<Byte>, outcome: WriteOutcome, answer: Answer)
    requires p in t.memory && t.memory[p].peer == Some(q) && q in t.memory && p != q && data != []
    requires t.memory[q].kind == Smart && t.memory[q].peer == Some(p) && t.memory[p].avail.None?
    requires answer.Ties? ==> answer.s2 in t.memory
    ensures CanGive(t, p, data, outcome, answer) && Given(t, p, data, outcome, answer) == SmartTakes(t, q, data, answer)
  {
    SetTwice(t, p, t.memory[p], t.memory[p]);
  }

  lemma LeftIsConnecting(t: Table, p: Ptr, q: Ptr)
    requires p in t.memory && q in t.memory && p != q && t.memory[q].peer == Some(p) && t.memory[p].queue == []
    requires !t.memory[p].closing && !t.memory[p].writeError && !t.memory[p].writeArmed && t.memory[p].avail.None?
    ensures var taken := Taken(1, LeftWaiting(t, q));
            && Continues(taken, p)
            && var t' := Resumed(taken, p, false);
            && p in t'.memory && Deref(t'.memory, p)
            && ConnOf(t'.memory, p) == Connecting(DelayedAck(t'.memory[p]))
  {
    var left := LeftWaiting(t, q).memory[p];
    assert left == t.memory[p].(kind := Notify, peer := None, transport := t.memory[q].transport, avail := left.avail);
  }

  /** The credit and the arming of a socket that sends. */
  lemma SendFollowsProtocol(m: Memory, p: Ptr, data: seq<Byte>)
    requires p in m && Deref(m, p) && m[p].peer.Some? && m[p].transport.Some? && data != []
    ensures WithConn(m[p], FlushOutgoing(ConnOf(m, p), m[p].id, data).conn) == Paused(Charged(m[p], |data|))
  {
  }

  lemma SetTwice(t: Table, p: Ptr, s: ASocket, s': ASocket)
    ensures SetSocket(SetSocket(t, p, s), p, s') == SetSocket(t, p, s')
    ensures p in t.memory ==> SetSocket(t, p, t.memory[p]) == t
  {
    assert t.memory[p := s][p := s'] == t.memory[p := s'];
    assert p in t.memory ==> t.memory[p := t.memory[p]] == t.memory;
  }

  /** Reading for a remote peer is what the stream protocol says. */
  lemma RemoteReadFollowsProtocol(t: Table, p: Ptr, data: seq<Byte>, outcome: WriteOutcome, answer: Answer)
    requires p in t.memory && FacesRemote(t.memory, p) && CanGive(t, p, data, outcome, answer)
    ensures var taken := Given(t, p, data, outcome, answer);
            && Continues(taken, p)
            && Resumed(taken, p, false)
               == SetSocket(t, p, WithConn(t.memory[p], FlushOutgoing(ConnOf(t.memory, p), t.memory[p].id, data).conn))
  {
    var s := t.memory[p];
    if data == [] || s.peer.None? {
      SetTwice(t, p, s, s);
      assert WithConn(s, FlushOutgoing(ConnOf(t.memory, p), s.id, data).conn) == s;
    } else {
      SendFollowsProtocol(t.memory, p, data);
      SetTwice(t, p, Charged(s, |data|), Paused(Charged(s, |data|)));
    }
  }

  /** In a sound graph no event follows a dangling pointer. */
  lemma GoodIsSafe(t: Table, e: Event)
    requires Good(t) && Enabled(t, e)
    ensures Safe(t, e)
  {
    if e.Readable? {
      GiveKeeps(t, e.p, e.data, e.outcome, e.answer);
      ResumeKeeps(Given(t, e.p, e.data, e.outcome, e.answer), e.p, e.eof);
    } else if !e.Create? {
      assert PeerOk(t.memory, e.p);
    }
  }

  /** Every event keeps the graph sound. */
  lemma ApplyKeeps(t: Table, e: Event)
    requires Good(t) && Enabled(t, e) && Safe(t, e)
    ensures Good(Apply(t, e))
  {
    match e
    case Create(p, on) => InstallKeeps(t, p, on);
    case ConnectSmart(p, q) =>
      PeerKeeps(t, p, q, NewSocket(0, Smart, None));
      ReadyKeeps(Peered(t, p, q, NewSocket(0, Smart, None)), p);
    case ConnectRemote(p, q, id, transport) => PeerKeeps(t, p, q, NewSocket(id, Remote, Some(transport)));
    case SetWindow(p, avail) =>
      assert DrainOk(t.memory[p]);
      SetKeeps(t, p, t.memory[p].(avail := avail));
    case MakeReady(p) => ReadyKeeps(t, p);
    case Acknowledged(p, ack) => AckKeeps(t, p, ack);
    case Readable(p, data, eof, outcome, answer) =>
      GiveKeeps(t, p, data, outcome, answer);
      ResumeKeeps(Given(t, p, data, outcome, answer), p, eof);
    case Received(p, data, outcome) => EnqueueKeeps(t, p, data, outcome);
    case Written(p, outcome) =>
      assert DrainOk(t.memory[p]);
      FlushKeeps(t, p, outcome);
    case CloseSocket(p) => CloseKeeps(t, p);
  }

  const EMPTY := Table(1, map[], [], [])

  datatype Outcome = Running(table: Table) | UseAfterFree

  /** The events one after the other, as far as they are enabled; a dangling pointer ends it all. */
  function Run(es: seq<Event>): Outcome {
    if es == [] then Running(EMPTY) else
    match Run(es[..|es| - 1])
    case UseAfterFree => UseAfterFree
    case Running(t) =>
      var e := es[|es| - 1];
      if !Enabled(t, e) then Running(t) else if !Safe(t, e) then UseAfterFree else Running(Apply(t, e))
  }

  /**
   * On every run: no pointer dangles, peering is symmetric, every local socket is in exactly one list
   * under a non-zero id of its own, and every socket put aside has bytes its fd is watched for.
   */
  lemma {:induction false} RunsStaySound(es: seq<Event>)
    ensures Run(es).Running? && Good(Run(es).table)
  {
    if es != [] {
      RunsStaySound(es[..|es| - 1]);
      var (t, e) := (Run(es[..|es| - 1]).table, es[|es| - 1]);
      if Enabled(t, e) {
        GoodIsSafe(t, e);
        ApplyKeeps(t, e);
      }
    }
  }
}
