/**
 * Stop-and-wait over a network that loses, delays, reorders and repeats datagrams.  The host numbers
 * its requests modulo 2^16 and goes on to the next number only after it has accepted an answer to the
 * last; the target takes each expected number once and repeats its last answer when asked again.  A
 * host that gives up keeps the number, for whatever it sends next.
 */
module UdpSystem {
  import opened Bytes

  const SEQUENCES: nat := 0x1_0000

  /** A datagram on the way; `born` says how many exchanges the host had completed when it was sent. */
  datatype Datagram = Datagram(sequence: nat, data: seq<Byte>, born: nat)

  /**
   * `requests` and `accepted` are the host's, `consumed` and `answers` the target's; while `waiting` the
   * host receives, and the last request has no answer yet.  A datagram stays in `toTarget` or `toHost` once
   * it was sent: delivering it again is a repeat, never delivering it a loss.
   */
  datatype System = System(base: nat, requests: seq<seq<Byte>>, accepted: seq<seq<Byte>>,
                           consumed: seq<seq<Byte>>, answers: seq<seq<Byte>>,
                           toTarget: set<Datagram>, toHost: set<Datagram>, waiting: bool)

  /** The number request or answer n travels under, when the two ends agreed on `base` to begin with. */
  function Number(base: nat, n: nat): nat {
    (base + n) % SEQUENCES
  }

  function Initial(base: nat): System {
    System(base, [], [], [], [], {}, {}, false)
  }

  datatype Event =
    | HostSends(data: seq<Byte>)
    | TargetReceives(d: Datagram, answer: seq<Byte>)
    | HostReceives(d: Datagram)
    | GiveUp

  /**
   * What the host does after a call that ended without an answer: nothing more, nothing but the same request
   * again, or anything.
   */
  datatype After = Stops | Repeats | GoesOn

  /** A copy is delivered while at most `lifetime` exchanges were completed since it was sent. */
  predicate Enabled(s: System, e: Event, lifetime: nat, after: After) {
    match e
    case HostSends(data) =>
      && !s.waiting
      && (|s.requests| <= |s.accepted| || after.GoesOn? || (after.Repeats? && data == s.requests[|s.accepted|]))
    case TargetReceives(d, answer) => d in s.toTarget && |s.accepted| <= d.born + lifetime
    case HostReceives(d) => d in s.toHost && |s.accepted| <= d.born + lifetime
    case GiveUp => s.waiting
  }

  /** A request after a given-up one goes under the same number and takes its place. */
  function Apply(s: System, e: Event): (r: System)
    requires |s.accepted| <= |s.requests|
    ensures |r.accepted| <= |r.requests|
  {
    match e
    case HostSends(data) =>
      var n := |s.accepted|;
      s.(requests := s.requests[..n] + [data], waiting := true,
         toTarget := s.toTarget + {Datagram(Number(s.base, n), data, n)})
    case TargetReceives(d, answer) =>
      var expected := |s.consumed|;
      if d.sequence == Number(s.base, expected) then
        s.(consumed := s.consumed + [d.data], answers := s.answers + [answer],
           toHost := s.toHost + {Datagram(d.sequence, answer, |s.accepted|)})
      else if expected > 0 && |s.answers| > 0 && d.sequence == Number(s.base, expected - 1) then
        s.(toHost := s.toHost + {Datagram(d.sequence, s.answers[|s.answers| - 1], |s.accepted|)})
      else s
    case HostReceives(d) =>
      if s.waiting && |s.accepted| < |s.requests| && d.sequence == Number(s.base, |s.accepted|)
      then s.(accepted := s.accepted + [d.data], waiting := false)
      else s
    case GiveUp => s.(waiting := false)
  }

  /** The state after the enabled events of the list. */
  function Run(base: nat, es: seq<Event>, lifetime: nat, after: After): (s: System)
    ensures |s.accepted| <= |s.requests|
  {
    if es == [] then Initial(base) else
    var t := Run(base, es[..|es| - 1], lifetime, after);
    if Enabled(t, es[|es| - 1], lifetime, after) then Apply(t, es[|es| - 1]) else t
  }

  /** One event, if it is enabled, and a list of them. */
  function Step(s: System, e: Event, lifetime: nat, after: After): (r: System)
    requires |s.accepted| <= |s.requests|
    ensures |r.accepted| <= |r.requests|
  {
    if Enabled(s, e, lifetime, after) then Apply(s, e) else s
  }

  function Then(s: System, es: seq<Event>, lifetime: nat, after: After): (r: System)
    requires |s.accepted| <= |s.requests|
    ensures |r.accepted| <= |r.requests|
    decreases |es|
  {
    if es == [] then s else Then(Step(s, es[0], lifetime, after), es[1..], lifetime, after)
  }

  lemma {:induction false} RunThen(base: nat, es: seq<Event>, more: seq<Event>, lifetime: nat, after: After)
    ensures Run(base, es + more, lifetime, after) == Then(Run(base, es, lifetime, after), more, lifetime, after)
    decreases |more|
  {
    if more == [] {
      assert es + more == es;
    } else {
      RunSnoc(base, es, more[0], lifetime, after);
      assert es + more == es + [more[0]] + more[1..];
      RunThen(base, es + [more[0]], more[1..], lifetime, after);
    }
  }

  lemma {:induction false} ThenConcat(s: System, es: seq<Event>, more: seq<Event>, lifetime: nat, after: After)
    requires |s.accepted| <= |s.requests|
    ensures Then(s, es + more, lifetime, after) == Then(Then(s, es, lifetime, after), more, lifetime, after)
    decreases |es|
  {
    if es == [] {
      assert es + more == more;
    } else {
      assert (es + more)[1..] == es[1..] + more;
      ThenConcat(Step(s, es[0], lifetime, after), es[1..], more, lifetime, after);
    }
  }

  /** The host has accepted exactly the target's answers, and the two counters differ by at most one. */
  ghost predicate InStep(s: System) {
    && s.accepted <= s.answers
    && |s.accepted| <= |s.consumed| <= |s.accepted| + 1
    && |s.answers| == |s.consumed|
  }

  /** Under every number the target has consumed at most one of the requests the host sent under it. */
  ghost predicate AtMostOnce(s: System) {
    InStep(s) && forall n :: 0 <= n < |s.consumed| ==> WasSent(s, n, s.consumed[n])
  }

  /** The target has consumed exactly the host's requests, in order and once each. */
  ghost predicate ExactlyOnce(s: System) {
    InStep(s) && s.consumed <= s.requests
  }

  /** Every copy on the way is a request of the host, or an answer of the target, under its own number. */
  ghost predicate Honest(s: System) {
    && |s.accepted| + (if s.waiting then 1 else 0) <= |s.requests| <= |s.accepted| + 1
    && (forall d :: d in s.toTarget ==>
          d.born < |s.requests| && d.born <= |s.accepted| && d.sequence == Number(s.base, d.born))
    && (forall d :: d in s.toHost ==>
          && d.born <= |s.accepted|
          && (   (d.born < |s.answers| && d.sequence == Number(s.base, d.born) && d.data == s.answers[d.born])
              || (0 < d.born <= |s.answers| && d.sequence == Number(s.base, d.born - 1)
                  && d.data == s.answers[d.born - 1])))
  }

  /** Every number was used for one request only. */
  ghost predicate Unambiguous(s: System) {
    forall d :: d in s.toTarget ==> d.born < |s.requests| && d.data == s.requests[d.born]
  }

  ghost predicate Inv(s: System, after: After) {
    AtMostOnce(s) && Honest(s) && (after.GoesOn? || Unambiguous(s))
  }

  /** Numbers closer than 2^16 are told apart. */
  lemma NumberIsInjective(base: nat, m: nat, n: nat)
    requires m <= n < m + SEQUENCES && Number(base, m) == Number(base, n)
    ensures m == n
  {
    var q := (base + n) / SEQUENCES - (base + m) / SEQUENCES;
    assert n - m == q * SEQUENCES;
  }

  /** Request n as the host sent it. */
  ghost predicate WasSent(s: System, n: nat, data: seq<Byte>) {
    Datagram(Number(s.base, n), data, n) in s.toTarget
  }

  lemma SendKeeps(s: System, data: seq<Byte>, lifetime: nat, after: After)
    requires Inv(s, after) && Enabled(s, HostSends(data), lifetime, after)
    ensures Inv(Apply(s, HostSends(data)), after)
  {
    var r := Apply(s, HostSends(data));
    assert forall n :: 0 <= n < |s.consumed| && WasSent(s, n, s.consumed[n]) ==> WasSent(r, n, s.consumed[n]);
  }

  lemma TargetKeeps(s: System, d: Datagram, answer: seq<Byte>, lifetime: nat, after: After)
    requires lifetime <= SEQUENCES - 2 && Inv(s, after) && Enabled(s, TargetReceives(d, answer), lifetime, after)
    ensures Inv(Apply(s, TargetReceives(d, answer)), after)
  {
    var r := Apply(s, TargetReceives(d, answer));
    if d.sequence == Number(s.base, |s.consumed|) {
      NumberIsInjective(s.base, d.born, |s.consumed|);
      TargetConsumes(s, d, answer);
    } else {
      assert forall n :: 0 <= n < |s.consumed| && WasSent(s, n, s.consumed[n]) ==> WasSent(r, n, s.consumed[n]);
    }
    assert Unambiguous(s) ==> Unambiguous(r);
  }

  lemma TargetConsumes(s: System, d: Datagram, answer: seq<Byte>)
    requires AtMostOnce(s) && Honest(s) && d in s.toTarget && d.born == |s.consumed|
    ensures var r := Apply(s, TargetReceives(d, answer));
            AtMostOnce(r) && Honest(r)
  {
    var r := Apply(s, TargetReceives(d, answer));
    assert d == Datagram(Number(s.base, |s.consumed|), d.data, |s.consumed|);
    assert WasSent(r, |s.consumed|, d.data);
    assert forall n :: 0 <= n < |s.consumed| && WasSent(s, n, s.consumed[n]) ==> WasSent(r, n, s.consumed[n]);
  }

  lemma HostKeeps(s: System, d: Datagram, lifetime: nat, after: After)
    requires lifetime <= SEQUENCES - 2 && Inv(s, after) && Enabled(s, HostReceives(d), lifetime, after)
    ensures Inv(Apply(s, HostReceives(d)), after)
  {
    var r := Apply(s, HostReceives(d));
    assert forall n :: 0 <= n < |s.consumed| && WasSent(s, n, s.consumed[n]) ==> WasSent(r, n, s.consumed[n]);
    if s.waiting && d.sequence == Number(s.base, |s.accepted|) {
      if d.born < |s.answers| && d.sequence == Number(s.base, d.born) && d.data == s.answers[d.born] {
        NumberIsInjective(s.base, d.born, |s.accepted|);
      } else {
        NumberIsInjective(s.base, d.born - 1, |s.accepted|);
        assert false;
      }
    }
  }

  lemma StepKeeps(s: System, e: Event, lifetime: nat, after: After)
    requires lifetime <= SEQUENCES - 2 && Inv(s, after) && Enabled(s, e, lifetime, after)
    ensures Inv(Apply(s, e), after)
  {
    match e
    case HostSends(data) => SendKeeps(s, data, lifetime, after);
    case TargetReceives(d, answer) => TargetKeeps(s, d, answer, lifetime, after);
    case HostReceives(d) => HostKeeps(s, d, lifetime, after);
    case GiveUp =>
      var r := Apply(s, GiveUp);
      assert forall n :: 0 <= n < |s.consumed| && WasSent(s, n, s.consumed[n]) ==> WasSent(r, n, s.consumed[n]);
  }

  lemma {:induction false} RunInv(base: nat, es: seq<Event>, lifetime: nat, after: After)
    requires lifetime <= SEQUENCES - 2
    ensures Inv(Run(base, es, lifetime, after), after)
  {
    if es != [] {
      RunInv(base, es[..|es| - 1], lifetime, after);
      var (s, e) := (Run(base, es[..|es| - 1], lifetime, after), es[|es| - 1]);
      if Enabled(s, e, lifetime, after) {
        StepKeeps(s, e, lifetime, after);
      }
    }
  }

  lemma InvIsExactlyOnce(s: System, after: After)
    requires Inv(s, after) && !after.GoesOn?
    ensures ExactlyOnce(s)
  {
    forall n | 0 <= n < |s.consumed|
      ensures n < |s.requests| && s.consumed[n] == s.requests[n]
    {
      var d := Datagram(Number(s.base, n), s.consumed[n], n);
      assert WasSent(s, n, s.consumed[n]);
      assert d in s.toTarget && d.born == n && d.data == s.consumed[n];
    }
    if s.consumed != [] {
      assert WasSent(s, |s.consumed| - 1, s.consumed[|s.consumed| - 1]);
    }
  }

  lemma RunIsExactlyOnce(base: nat, es: seq<Event>, lifetime: nat, after: After)
    requires lifetime <= SEQUENCES - 2 && !after.GoesOn?
    ensures ExactlyOnce(Run(base, es, lifetime, after))
  {
    RunInv(base, es, lifetime, after);
    InvIsExactlyOnce(Run(base, es, lifetime, after), after);
  }

  // ---- runs in which nothing is lost

  lemma RunSnoc(base: nat, es: seq<Event>, e: Event, lifetime: nat, after: After)
    ensures var s := Run(base, es, lifetime, after);
            Run(base, es + [e], lifetime, after) == if Enabled(s, e, lifetime, after) then Apply(s, e) else s
  {
    assert (es + [e])[..|es|] == es;
  }

  /** Request or answer i as it travels. */
  function Copy(base: nat, data: seq<seq<Byte>>, i: nat): Datagram
    requires i < |data|
  {
    Datagram(Number(base, i), data[i], i)
  }

  function Copies(base: nat, data: seq<seq<Byte>>): set<Datagram> {
    set i | 0 <= i < |data| :: Copy(base, data, i)
  }

  lemma CopiesGrow(base: nat, data: seq<seq<Byte>>, n: nat)
    requires |data| == n + 1
    ensures Copies(base, data) == Copies(base, data[..n]) + {Copy(base, data, n)}
  {
    var fewer := data[..n];
    forall d | d in Copies(base, data)
      ensures d in Copies(base, fewer) + {Copy(base, data, n)}
    {
      var i :| 0 <= i < |data| && d == Copy(base, data, i);
      assert i < n ==> Copy(base, fewer, i) == d;
    }
    forall d | d in Copies(base, fewer)
      ensures d in Copies(base, data)
    {
      var i :| 0 <= i < |fewer| && d == Copy(base, fewer, i);
      assert Copy(base, data, i) == d;
    }
    assert Copy(base, data, n) in Copies(base, data);
  }

  /** Every request arrives and is answered, and every answer arrives. */
  function Smooth(base: nat, requests: seq<seq<Byte>>, answers: seq<seq<Byte>>): seq<Event>
    requires |requests| == |answers|
  {
    if requests == [] then [] else
    var n := |requests| - 1;
    Smooth(base, requests[..n], answers[..n]) + [HostSends(requests[n])]
    + [TargetReceives(Copy(base, requests, n), answers[n])] + [HostReceives(Copy(base, answers, n))]
  }

  function AfterSmooth(base: nat, requests: seq<seq<Byte>>, answers: seq<seq<Byte>>): System {
    System(base, requests, answers, requests, answers, Copies(base, requests), Copies(base, answers), false)
  }

  /** The target has taken the last request and its answer is on the way. */
  function HalfWay(base: nat, requests: seq<seq<Byte>>, answers: seq<seq<Byte>>, n: nat): System
    requires n <= |answers|
  {
    System(base, requests, answers[..n], requests, answers, Copies(base, requests), Copies(base, answers), true)
  }

  lemma HalfStep(base: nat, requests: seq<seq<Byte>>, answers: seq<seq<Byte>>, n: nat, es: seq<Event>, lifetime: nat,
                 after: After)
    requires |requests| == |answers| == n + 1
    requires Run(base, es, lifetime, after) == AfterSmooth(base, requests[..n], answers[..n])
    ensures Run(base, es + [HostSends(requests[n])] + [TargetReceives(Copy(base, requests, n), answers[n])],
                lifetime, after)
            == HalfWay(base, requests, answers, n)
  {
    CopiesGrow(base, requests, n);
    CopiesGrow(base, answers, n);
    assert requests[..n][..n] + [requests[n]] == requests && answers[..n] + [answers[n]] == answers;
    RunSnoc(base, es, HostSends(requests[n]), lifetime, after);
    RunSnoc(base, es + [HostSends(requests[n])], TargetReceives(Copy(base, requests, n), answers[n]), lifetime, after);
  }

  /** Any requests and answers are those of a run. */
  lemma {:induction false} SmoothRun(base: nat, requests: seq<seq<Byte>>, answers: seq<seq<Byte>>, lifetime: nat,
                                     after: After)
    requires |requests| == |answers|
    ensures Run(base, Smooth(base, requests, answers), lifetime, after) == AfterSmooth(base, requests, answers)
  {
    if requests == [] {
      assert Copies(base, []) == {};
    } else {
      var n := |requests| - 1;
      SmoothRun(base, requests[..n], answers[..n], lifetime, after);
      var es := Smooth(base, requests[..n], answers[..n]);
      HalfStep(base, requests, answers, n, es, lifetime, after);
      es := es + [HostSends(requests[n])] + [TargetReceives(Copy(base, requests, n), answers[n])];
      assert Copy(base, answers, n) in Copies(base, answers) && answers[..n] + [answers[n]] == answers;
      RunSnoc(base, es, HostReceives(Copy(base, answers, n)), lifetime, after);
    }
  }

  // ---- the conditions are sharp

  function Silent(n: nat): seq<seq<Byte>> {
    seq(n, _ => [])
  }

  /** A first request that turns up again after 2^16 - 1 exchanges is taken for the next one. */
  function Replay(): seq<Event> {
    var (n, all) := (SEQUENCES - 1, Silent(SEQUENCES));
    Smooth(0, Silent(n), Silent(n)) + [HostSends([])] + [TargetReceives(Copy(0, all, n), [])]
    + [TargetReceives(Copy(0, all, 0), [])]
  }

  lemma ReplayIsConsumed(lifetime: nat, after: After)
    requires lifetime > SEQUENCES - 2
    ensures !InStep(Run(0, Replay(), lifetime, after))
  {
    var n, all := SEQUENCES - 1, Silent(SEQUENCES);
    assert all[..n] == Silent(n);
    SmoothRun(0, Silent(n), Silent(n), lifetime, after);
    HalfStep(0, all, all, n, Smooth(0, Silent(n), Silent(n)), lifetime, after);
    var es := Smooth(0, Silent(n), Silent(n)) + [HostSends([])] + [TargetReceives(Copy(0, all, n), [])];
    assert Copy(0, all, 0) in Copies(0, all);
    RunSnoc(0, es, TargetReceives(Copy(0, all, 0), []), lifetime, after);
    assert |Run(0, Replay(), lifetime, after).consumed| == n + 2;
  }

  /** The target takes a request and its answers are late; the host gives up and sends another one. */
  function Abandon(base: nat, x: seq<Byte>, y: seq<Byte>, a: seq<Byte>): seq<Event> {
    [HostSends(x)] + [TargetReceives(Datagram(Number(base, 0), x, 0), a)] + [GiveUp] + [HostSends(y)]
    + [HostReceives(Datagram(Number(base, 0), a, 0))]
  }

  /** The answer to an abandoned request is taken for the answer to the next one, which is never consumed. */
  lemma AbandonedIsAnswered(base: nat, x: seq<Byte>, y: seq<Byte>, a: seq<Byte>, lifetime: nat)
    ensures var s := Run(base, Abandon(base, x, y, a), lifetime, GoesOn);
            && s.requests == [y] && s.accepted == [a] && s.consumed == [x] && s.answers == [a]
            && (ExactlyOnce(s) <==> x == y)
  {
    var d, d' := Datagram(Number(base, 0), x, 0), Datagram(Number(base, 0), a, 0);
    var es := [HostSends(x)];
    RunSnoc(base, [], HostSends(x), lifetime, GoesOn);
    assert [] + es == es;
    RunSnoc(base, es, TargetReceives(d, a), lifetime, GoesOn);
    es := es + [TargetReceives(d, a)];
    RunSnoc(base, es, GiveUp, lifetime, GoesOn);
    RunSnoc(base, es + [GiveUp], HostSends(y), lifetime, GoesOn);
    RunSnoc(base, es + [GiveUp] + [HostSends(y)], HostReceives(d'), lifetime, GoesOn);
    var s := Run(base, es + [GiveUp] + [HostSends(y)], lifetime, GoesOn);
    assert s.requests == [y] && s.consumed == [x] && s.answers == [a] && d' in s.toHost;
    assert [y][0] == y && [x][0] == x;
  }

  /**
   * Over every run the ends stay in step and the target consumes at most one request under each number,
   * if and only if no copy of a datagram lives longer than 2^16 - 2 completed exchanges.
   */
  lemma AtMostOnceIffShortLived(lifetime: nat, after: After)
    ensures (forall base, es :: AtMostOnce(Run(base, es, lifetime, after))) <==> lifetime <= SEQUENCES - 2
  {
    if lifetime <= SEQUENCES - 2 {
      forall base, es
        ensures AtMostOnce(Run(base, es, lifetime, after))
      {
        RunInv(base, es, lifetime, after);
      }
    } else {
      ReplayIsConsumed(lifetime, after);
    }
  }

  /**
   * Exactly once, over every run: the target consumes the host's requests in order and once each, and
   * the host accepts the answers in order and once each, if and only if no copy lives longer than that
   * and the host does not go on to another request after a call that ended without an answer.
   */
  lemma ExactlyOnceIff(lifetime: nat, after: After)
    ensures (forall base, es :: ExactlyOnce(Run(base, es, lifetime, after))) <==>
              lifetime <= SEQUENCES - 2 && !after.GoesOn?
  {
    if lifetime > SEQUENCES - 2 {
      ReplayIsConsumed(lifetime, after);
    } else if after.GoesOn? {
      AbandonedIsAnswered(0, [0], [1], [], lifetime);
    } else {
      forall base, es
        ensures ExactlyOnce(Run(base, es, lifetime, after))
      {
        RunIsExactlyOnce(base, es, lifetime, after);
      }
    }
  }
}
