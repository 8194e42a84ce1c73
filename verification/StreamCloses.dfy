/**
 * The CLSEs of a connection, counted over whole runs.  Beside the one of its teardown an end says CLSE
 * once for every OKAY that comes too late; what the other end gets after the first one changes nothing.
 */
module StreamCloses {
  import opened Bytes
  import opened FdIo
  import opened StreamProtocol
  import opened StreamConnection
  import opened StreamSystem

  // ---- what is observed of a step

  /** What the near process put on its wire. */
  function SentIn(s: System, s': System): seq<Msg> {
    if |s'.out| > |s.out| then s'.out[|s.out|..] else []
  }

  function ClsesSent(run: seq<System>, k: nat, a: nat, b: nat): nat
    requires k < |run|
  {
    if k == 0 then 0 else ClsesSent(run, k - 1, a, b) + multiset(SentIn(run[k - 1], run[k]))[Clse(a, b)]
  }

  /** The near process took an OKAY of socket b for socket a, which is not live any more. */
  predicate LateOkay(s: System, s': System, a: nat, b: nat) {
    && |s'.back| < |s.back| && s.back[0].Okay? && s.back[0].src == b && s.back[0].dst == a
    && !IsLive(s.near, a)
  }

  function LateOkays(run: seq<System>, k: nat, a: nat, b: nat): nat
    requires k < |run|
  {
    if k == 0 then 0 else LateOkays(run, k - 1, a, b) + if LateOkay(run[k - 1], run[k], a, b) then 1 else 0
  }

  /** The far process took the CLSE of socket a for socket b. */
  predicate TakesClse(s: System, s': System, a: nat, b: nat) {
    |s'.out| < |s.out| && s.out[0] == Clse(a, b)
  }

  predicate Dead(socks: map<nat, Sock>, id: nat) {
    id in socks && socks[id].phase != Live
  }

  /** Socket a was connected to b and is not live any more. */
  predicate TornDown(s: System, a: nat, b: nat) {
    Dead(s.near, a) && s.near[a].log.peer == Some(b)
  }

  // ---- the sockets

  lemma CloseSays(x: Sock, id: nat, delayed: bool, ending: Ending, a: nat, b: nat)
    requires x.phase == Live && SockInv(x, delayed)
    ensures var (x', sent) := CloseSock(x, id, ending);
            && x'.phase != Live && x'.log.peer == x.log.peer && |sent| <= 1
            && multiset(sent)[Clse(a, b)] == if a == id && x.log.peer == Some(b) then 1 else 0
  {
  }

  lemma ReadSays(x: Sock, id: nat, delayed: bool, data: seq<Byte>, eof: bool, a: nat, b: nat)
    requires x.phase == Live && SockInv(x, delayed)
    ensures var (x', sent) := ReadSock(x, id, data, eof);
            && x'.log.peer == x.log.peer && (x'.phase == Live <==> !eof)
            && multiset(sent)[Clse(a, b)] == if eof && a == id && x.log.peer == Some(b) then 1 else 0
  {
    var f := FlushOutgoing(x.conn, id, data);
    assert multiset(f.sent)[Clse(a, b)] == 0;
    var c := Close(f.conn, id);
    assert multiset(f.sent + c.sent) == multiset(f.sent) + multiset(c.sent);
  }

  lemma WriteSays(x: Sock, id: nat, delayed: bool, outcome: WriteOutcome, a: nat, b: nat)
    requires x.phase != Gone && SockInv(x, delayed) && Plausible(x.conn.queue, outcome)
    ensures var (x', sent) := WriteSock(x, id, delayed, outcome);
            && x'.log.peer == x.log.peer && (x'.phase == Live <==> x.phase == Live)
            && multiset(sent)[Clse(a, b)] == 0
  {
  }

  lemma EnqueueSays(x: Sock, id: nat, delayed: bool, data: seq<Byte>, outcome: WriteOutcome, a: nat, b: nat)
    requires x.phase == Live && SockInv(x, delayed) && Plausible(x.conn.queue + data, outcome)
    ensures var (x', sent) := EnqueueSock(x, id, delayed, data, outcome);
            x'.log.peer == x.log.peer && x'.phase == Live && multiset(sent)[Clse(a, b)] == 0
  {
  }

  // ---- the steps

  function One(p: bool): nat {
    if p then 1 else 0
  }

  /** The CLSEs of a step are those of a teardown and of a late OKAY. */
  ghost predicate Balanced(s: System, s': System, a: nat, b: nat) {
    multiset(SentIn(s, s'))[Clse(a, b)] + One(TornDown(s, a, b)) == One(TornDown(s', a, b)) + One(LateOkay(s, s', a, b))
  }

  lemma SaidIsSent(s: System, s': System, sent: seq<Msg>)
    requires s'.out == s.out + sent
    ensures SentIn(s, s') == sent
  {
  }

  lemma SocketBalances(s: System, s': System, id: nat, x: Sock, sent: seq<Msg>, a: nat, b: nat)
    requires s'.near == s.near[id := x] && s'.out == s.out + sent && !LateOkay(s, s', a, b)
    requires multiset(sent)[Clse(a, b)] + One(a == id && TornDown(s, id, b))
             == One(a == id && x.phase != Live && x.log.peer == Some(b))
    ensures Balanced(s, s', a, b)
  {
    SaidIsSent(s, s', sent);
  }

  lemma NothingBalances(s: System, s': System, sent: seq<Msg>, a: nat, b: nat)
    requires s'.near == s.near && s'.out == s.out + sent
    requires multiset(sent)[Clse(a, b)] == One(LateOkay(s, s', a, b))
    ensures Balanced(s, s', a, b)
  {
    SaidIsSent(s, s', sent);
  }

  lemma OpenBalances(s: System, newId: nat, accept: bool, outcome: WriteOutcome, a: nat, b: nat)
    requires Enabled(s, Receive(newId, accept, outcome)) && a != 0
    requires s.back[0].Open? && s.back[0].src != 0
    ensures Balanced(s, Apply(s, Receive(newId, accept, outcome)), a, b)
  {
    var src, window, s' := s.back[0].src, s.back[0].window, Apply(s, Receive(newId, accept, outcome));
    if s.delayed != (window != 0) || !accept {
      NothingBalances(s, s', [Clse(0, src)], a, b);
    } else {
      var ready := Ready(newId, src, s.delayed, INITIAL_DELAYED_ACK_BYTES);
      SocketBalances(s, s', newId, AcceptSock(src, window, s.delayed), [ready], a, b);
    }
  }

  lemma OkayBalances(s: System, newId: nat, accept: bool, outcome: WriteOutcome, a: nat, b: nat)
    requires Enabled(s, Receive(newId, accept, outcome)) && a != 0
    requires s.back[0].Okay? && s.back[0].src != 0 && s.back[0].dst != 0
    ensures Balanced(s, Apply(s, Receive(newId, accept, outcome)), a, b)
  {
    var m, s' := s.back[0], Apply(s, Receive(newId, accept, outcome));
    if IsLive(s.near, m.dst) {
      SocketBalances(s, s', m.dst, OkaySock(s.near[m.dst], m.src, m.ack), [], a, b);
    } else {
      NothingBalances(s, s', [Clse(m.dst, m.src)], a, b);
    }
  }

  lemma ClseBalances(s: System, newId: nat, accept: bool, outcome: WriteOutcome, a: nat, b: nat)
    requires Inv(s) && Enabled(s, Receive(newId, accept, outcome)) && a != 0 && s.back[0].Clse? && s.back[0].dst != 0
    ensures Balanced(s, Apply(s, Receive(newId, accept, outcome)), a, b)
  {
    var src, dst, s' := s.back[0].src, s.back[0].dst, Apply(s, Receive(newId, accept, outcome));
    if IsLive(s.near, dst) && (src == 0 || s.near[dst].conn.peer == Some(src)) {
      var ending := if src == 0 then Refused else ByPeer;
      CloseSays(s.near[dst], dst, s.delayed, ending, a, b);
      var (x, sent) := CloseSock(s.near[dst], dst, ending);
      SocketBalances(s, s', dst, x, sent, a, b);
    } else {
      NothingBalances(s, s', [], a, b);
    }
  }

  lemma WrteBalances(s: System, newId: nat, accept: bool, outcome: WriteOutcome, a: nat, b: nat)
    requires Inv(s) && Enabled(s, Receive(newId, accept, outcome)) && a != 0 && s.back[0].Wrte?
    requires s.back[0].src != 0 && s.back[0].dst != 0
    ensures Balanced(s, Apply(s, Receive(newId, accept, outcome)), a, b)
  {
    var m, s' := s.back[0], Apply(s, Receive(newId, accept, outcome));
    if IsLive(s.near, m.dst) && s.near[m.dst].conn.peer == Some(m.src) {
      EnqueueSays(s.near[m.dst], m.dst, s.delayed, m.data, outcome, a, b);
      var (x, sent) := EnqueueSock(s.near[m.dst], m.dst, s.delayed, m.data, outcome);
      SocketBalances(s, s', m.dst, x, sent, a, b);
    } else {
      NothingBalances(s, s', [], a, b);
    }
  }

  lemma ReceiveBalances(s: System, newId: nat, accept: bool, outcome: WriteOutcome, a: nat, b: nat)
    requires Inv(s) && Enabled(s, Receive(newId, accept, outcome)) && a != 0
    ensures Balanced(s, Apply(s, Receive(newId, accept, outcome)), a, b)
  {
    assert MsgInv(Swap(s), s.back[0]);
    match s.back[0]
    case Open(_, _) => OpenBalances(s, newId, accept, outcome, a, b);
    case Okay(_, _, _) => OkayBalances(s, newId, accept, outcome, a, b);
    case Clse(_, _) => ClseBalances(s, newId, accept, outcome, a, b);
    case Wrte(_, _, _) => WrteBalances(s, newId, accept, outcome, a, b);
  }

  lemma NearBalances(s: System, e: Event, a: nat, b: nat)
    requires Inv(s) && Enabled(s, e) && a != 0
    ensures Balanced(s, Apply(s, e), a, b)
  {
    var s' := Apply(s, e);
    match e
    case Connect(id) =>
      SocketBalances(s, s', id, ConnectSock(s.delayed), [Open(id, OpenWindow(s.delayed))], a, b);
    case Readable(id, data, eof) =>
      ReadSays(s.near[id], id, s.delayed, data, eof, a, b);
      var (x, sent) := ReadSock(s.near[id], id, data, eof);
      SocketBalances(s, s', id, x, sent, a, b);
    case Writable(id, outcome) =>
      WriteSays(s.near[id], id, s.delayed, outcome, a, b);
      var (x, sent) := WriteSock(s.near[id], id, s.delayed, outcome);
      SocketBalances(s, s', id, x, sent, a, b);
    case CloseLocal(id) =>
      CloseSays(s.near[id], id, s.delayed, BySelf, a, b);
      var (x, sent) := CloseSock(s.near[id], id, BySelf);
      SocketBalances(s, s', id, x, sent, a, b);
    case Receive(newId, accept, outcome) => ReceiveBalances(s, newId, accept, outcome, a, b);
  }

  /** At the far process a step takes at most the first message off the near one's wire. */
  lemma FarStep(s: System, e: Event)
    requires Enabled(Swap(s), e)
    ensures var s' := Swap(Apply(Swap(s), e));
            && s'.near == s.near && |s'.back| >= |s.back|
            && (s'.out == s.out || (e.Receive? && s.out != [] && s'.out == s.out[1..]))
            && (e.Receive? ==> |s'.out| < |s.out|)
  {
  }

  lemma NextBalances(s: System, s': System, a: nat, b: nat)
    requires Inv(s) && Next(s, s') && a != 0
    ensures Balanced(s, s', a, b)
  {
    if e :| Enabled(s, e) && s' == Apply(s, e) {
      NearBalances(s, e, a, b);
    } else {
      var e :| Enabled(Swap(s), e) && s' == Swap(Apply(Swap(s), e));
      FarStep(s, e);
    }
  }

  /**
   * Over every run: the CLSEs one end has sent the other are the one of its teardown, if it was connected,
   * and one for each OKAY that reached it when it was not live any more.
   */
  lemma {:induction false} ClsesAreAccountedFor(run: seq<System>, k: nat, a: nat, b: nat)
    requires IsRun(run) && k < |run| && a != 0
    ensures ClsesSent(run, k, a, b) == One(TornDown(run[k], a, b)) + LateOkays(run, k, a, b)
  {
    if k > 0 {
      ClsesAreAccountedFor(run, k - 1, a, b);
      StepOf(run, k - 1);
      NextBalances(run[k - 1], run[k], a, b);
    }
  }

  // ---- what the other end makes of them

  lemma DeadStaysInStep(s: System, e: Event, id: nat)
    requires Inv(s) && Enabled(s, e) && Dead(s.near, id)
    ensures Dead(Apply(s, e).near, id)
  {
    match e
    case Connect(n) =>
    case Readable(n, data, eof) =>
    case Writable(n, outcome) =>
      if n == id {
        WriteSays(s.near[id], id, s.delayed, outcome, 0, 0);
      }
    case CloseLocal(n) =>
    case Receive(newId, accept, outcome) => DeadStaysInReceive(s, newId, accept, outcome, id);
  }

  lemma DeadStaysInReceive(s: System, newId: nat, accept: bool, outcome: WriteOutcome, id: nat)
    requires Enabled(s, Receive(newId, accept, outcome)) && Dead(s.near, id)
    ensures Dead(Apply(s, Receive(newId, accept, outcome)).near, id)
  {
  }

  lemma FarStaysOut(s: System, e: Event)
    requires Enabled(s, e)
    ensures Apply(s, e).far == s.far && |Apply(s, e).out| >= |s.out|
  {
  }

  lemma DeadStays(s: System, s': System, b: nat)
    requires Inv(s) && Next(s, s') && Dead(s.far, b)
    ensures Dead(s'.far, b)
  {
    if e :| Enabled(s, e) && s' == Apply(s, e) {
      FarStaysOut(s, e);
    } else {
      var e :| Enabled(Swap(s), e) && s' == Swap(Apply(Swap(s), e));
      SwapKeeps(s);
      DeadStaysInStep(Swap(s), e, b);
    }
  }

  lemma StepOf(run: seq<System>, k: nat)
    requires IsRun(run) && k + 1 < |run|
    ensures Inv(run[k]) && Next(run[k], run[k + 1])
  {
    RunInv(run, k);
    assert Next(run[k + 1 - 1], run[k + 1]);
  }

  lemma {:induction false} DeadForGood(run: seq<System>, i: nat, j: nat, b: nat)
    requires IsRun(run) && i <= j < |run| && Dead(run[i].far, b)
    ensures Dead(run[j].far, b)
    decreases j - i
  {
    if i < j {
      StepOf(run, i);
      DeadStays(run[i], run[i + 1], b);
      DeadForGood(run, i + 1, j, b);
    }
  }

  /** Taking a CLSE ends the socket it is for; if that was not live any more, nothing else happens. */
  lemma TakingCloses(s: System, s': System, a: nat, b: nat)
    requires Inv(s) && Next(s, s') && TakesClse(s, s', a, b) && a != 0
    ensures Dead(s'.far, b)
    ensures Dead(s.far, b) ==> s' == s.(out := s.out[1..])
  {
    if e :| Enabled(s, e) && s' == Apply(s, e) {
      FarStaysOut(s, e);
      assert false;
    }
    var e :| Enabled(Swap(s), e) && s' == Swap(Apply(Swap(s), e));
    FarStep(s, e);
    SwapKeeps(s);
    HeadIsConnected(Swap(s));
    if IsLive(s.far, b) {
      ClseKeeps(Swap(s));
    }
  }

  /** Of the CLSEs that one end sends the other, all but the first one taken are dropped. */
  lemma LaterClsesAreDropped(run: seq<System>, i: nat, j: nat, a: nat, b: nat)
    requires IsRun(run) && i < j && j + 1 < |run| && a != 0
    requires TakesClse(run[i], run[i + 1], a, b) && TakesClse(run[j], run[j + 1], a, b)
    ensures run[j + 1] == run[j].(out := run[j].out[1..])
  {
    StepOf(run, i);
    StepOf(run, j);
    TakingCloses(run[i], run[i + 1], a, b);
    DeadForGood(run, i + 1, j, b);
    TakingCloses(run[j], run[j + 1], a, b);
  }

  // ---- one end can say CLSE twice

  lemma NearGoesOn(run: seq<System>, e: Event)
    requires IsRun(run) && Enabled(run[|run| - 1], e)
    ensures IsRun(run + [Apply(run[|run| - 1], e)])
  {
    var longer := run + [Apply(run[|run| - 1], e)];
    forall i | 0 < i < |longer|
      ensures Next(longer[i - 1], longer[i])
    {
      assert i < |run| ==> Next(run[i - 1], run[i]);
    }
  }

  lemma FarGoesOn(run: seq<System>, e: Event)
    requires IsRun(run) && Enabled(Swap(run[|run| - 1]), e)
    ensures IsRun(run + [Swap(Apply(Swap(run[|run| - 1]), e))])
  {
    var longer := run + [Swap(Apply(Swap(run[|run| - 1]), e))];
    forall i | 0 < i < |longer|
      ensures Next(longer[i - 1], longer[i])
    {
      assert i < |run| ==> Next(run[i - 1], run[i]);
    }
  }

  /** Socket 1 of the near process is connected to socket 1 of the far one, and nothing is on the way. */
  predicate JustConnected(s: System) {
    && s.delayed && s.out == [] && s.back == [] && s.near.Keys == {1} && s.far.Keys == {1}
    && s.near[1] == OkaySock(ConnectSock(true), 1, Some(INITIAL_DELAYED_ACK_BYTES))
    && s.far[1] == AcceptSock(1, INITIAL_DELAYED_ACK_BYTES, true)
  }

  lemma ConnectedRun() returns (run: seq<System>)
    ensures IsRun(run) && JustConnected(run[|run| - 1])
  {
    run := [Initial(true)];
    NearGoesOn(run, Connect(1));
    run := run + [Apply(run[0], Connect(1))];
    FarGoesOn(run, Receive(1, true, Wrote(0)));
    run := run + [Swap(Apply(Swap(run[1]), Receive(1, true, Wrote(0))))];
    NearGoesOn(run, Receive(0, false, Wrote(0)));
    run := run + [Apply(run[2], Receive(0, false, Wrote(0)))];
  }

  lemma OnePacket(run: seq<System>) returns (run': seq<System>)
    requires IsRun(run) && JustConnected(run[|run| - 1])
    ensures IsRun(run')
    ensures var s := run'[|run'| - 1];
            && s.out == [] && s.back == [Okay(1, 1, Some(1))] && IsLive(s.near, 1) && IsLive(s.far, 1)
            && s.near[1].conn.peer == Some(1)
  {
    var s := run[|run| - 1];
    var sent := Apply(s, Readable(1, [0], false));
    NearGoesOn(run, Readable(1, [0], false));
    assert sent.out == [Wrte(1, 1, [0])];
    var taken := Swap(Apply(Swap(sent), Receive(0, false, Wrote(1))));
    FarGoesOn(run + [sent], Receive(0, false, Wrote(1)));
    run' := run + [sent] + [taken];
  }

  /** An end that closes while an OKAY is on the way to it says CLSE twice, and the other end is live all the while. */
  lemma TwoClses() returns (run: seq<System>)
    ensures IsRun(run)
    ensures var s := run[|run| - 1];
            s.out == [Clse(1, 1), Clse(1, 1)] && IsLive(s.far, 1)
  {
    run := ConnectedRun();
    run := OnePacket(run);
    var s := run[|run| - 1];
    var closed := Apply(s, CloseLocal(1));
    NearGoesOn(run, CloseLocal(1));
    assert closed.out == [Clse(1, 1)] && closed.back == s.back;
    var late := Apply(closed, Receive(0, false, Wrote(0)));
    NearGoesOn(run + [closed], Receive(0, false, Wrote(0)));
    run := run + [closed] + [late];
  }
}
