/** What the host's calls mean in the runs of host, network and target: the data of a call arrives once. */
module UdpDelivery {
  import opened Bytes
  import opened UdpHost
  import UdpSystem

  /** What a datagram carries behind its header. */
  function Payload(d: seq<Byte>): seq<Byte> {
    if |d| >= HEADER_SIZE then d[HEADER_SIZE..] else []
  }

  function Carried(ds: seq<seq<Byte>>): seq<Byte> {
    if ds == [] then [] else Carried(ds[..|ds| - 1]) + Payload(ds[|ds| - 1])
  }

  function Requests(xs: seq<Exchange>): (r: seq<seq<Byte>>)
    ensures |r| == |xs|
  {
    seq(|xs|, i requires 0 <= i < |xs| => xs[i].request)
  }

  function Responses(xs: seq<Exchange>): (r: seq<seq<Byte>>)
    ensures |r| == |xs|
  {
    seq(|xs|, i requires 0 <= i < |xs| => xs[i].response)
  }

  lemma CarriedSnoc(a: seq<seq<Byte>>, x: seq<Byte>)
    ensures Carried(a + [x]) == Carried(a) + Payload(x)
  {
    assert (a + [x])[..|a|] == a;
  }

  lemma LastApart(a: seq<seq<Byte>>, b: seq<seq<Byte>>)
    requires b != []
    ensures a + b == a + b[..|b| - 1] + [b[|b| - 1]]
  {
  }

  lemma {:induction false} CarriedConcat(a: seq<seq<Byte>>, b: seq<seq<Byte>>)
    ensures Carried(a + b) == Carried(a) + Carried(b)
  {
    if b == [] {
      assert a + b == a;
    } else {
      var b', x := b[..|b| - 1], b[|b| - 1];
      CarriedConcat(a, b');
      LastApart(a, b);
      CarriedSnoc(a + b', x);
      ConcatAssoc(Carried(a), Carried(b'), Payload(x));
    }
  }

  lemma CarriedPrefix(a: seq<seq<Byte>>, b: seq<seq<Byte>>)
    requires a <= b
    ensures Carried(a) <= Carried(b)
  {
    CarriedConcat(a, b[|a|..]);
    assert a + b[|a|..] == b;
  }

  lemma {:induction false} FlattenPrefix<T>(a: seq<seq<T>>, n: nat)
    requires n <= |a|
    ensures Flatten(a[..n]) <= Flatten(a)
  {
    FlattenConcat(a[..n], a[n..]);
    assert a[..n] + a[n..] == a;
  }

  lemma FlattenNext<T>(a: seq<seq<T>>, n: nat)
    requires n < |a|
    ensures Flatten(a[..n + 1]) == Flatten(a[..n]) + a[n]
  {
    assert a[..n + 1] == a[..n] + [a[n]];
    FlattenSnoc(a[..n], a[n]);
  }

  // ---- the exchanges of a call, one after the other

  /** The first n exchanges of a chain carry what its first request carries; the prompts are empty. */
  lemma {:induction false} ChainCarries(t: seq<Exchange>, first: seq<Byte>, start: nat, attempts: nat, n: nat)
    requires Chain(t, first, start, attempts) && n <= |t|
    ensures Carried(Requests(t)[..n]) == if n == 0 then [] else Payload(first)
  {
    if n > 0 {
      ChainCarries(t, first, start, attempts, n - 1);
      assert Link(t, first, start, attempts, n - 1);
      assert Requests(t)[..n][..n - 1] == Requests(t)[..n - 1];
      assert Requests(t)[..n][n - 1] == t[n - 1].request;
    }
  }

  lemma RequestsConcat(a: seq<Exchange>, b: seq<Exchange>)
    ensures Requests(a + b) == Requests(a) + Requests(b) && Responses(a + b) == Responses(a) + Responses(b)
  {
  }

  lemma BothCarried(xs: seq<Exchange>, a: seq<Exchange>, b: seq<Exchange>)
    requires xs == a + b
    ensures Carried(Requests(xs)) == Carried(Requests(a)) + Carried(Requests(b))
    ensures Carried(Responses(xs)) == Carried(Responses(a)) + Carried(Responses(b))
  {
    RequestsConcat(a, b);
    CarriedConcat(Requests(a), Requests(b));
    CarriedConcat(Responses(a), Responses(b));
  }

  lemma ChunkCarries(t: seq<Exchange>, id: Byte, chunks: seq<seq<Byte>>, k: nat, first: nat, attempts: nat)
    requires k < |chunks| && Chain(t, Request(id, chunks, first, k), first, attempts)
    ensures Carried(Requests(t)) == if t == [] then [] else chunks[k]
  {
    ChainCarries(t, Request(id, chunks, first, k), first, attempts, |t|);
    assert Requests(t)[..|t|] == Requests(t);
    assert Payload(Request(id, chunks, first, k)) == chunks[k];
  }

  /** There are as many exchanges as the counter says. */
  lemma {:induction false} CallCounts(convs: seq<seq<Exchange>>, n: nat)
    requires n <= |convs|
    ensures |Flatten(convs[..n])| == Exchanges(convs, n)
  {
    if n > 0 {
      CallCounts(convs, n - 1);
      FlattenNext(convs, n - 1);
    }
  }

  /** The exchanges of the first n chunks carry these chunks. */
  lemma {:induction false} CallCarries(convs: seq<seq<Exchange>>, id: Byte, chunks: seq<seq<Byte>>, start: nat,
                                       attempts: nat, n: nat)
    requires ChunksSent(convs, id, chunks, start, attempts) && n <= |convs|
    ensures Carried(Requests(Flatten(convs[..n]))) == Flatten(chunks[..n])
  {
    if n > 0 {
      var k := n - 1;
      CallCarries(convs, id, chunks, start, attempts, k);
      assert ChunkSent(convs, id, chunks, start, attempts, k);
      ChunkCarries(convs[k], id, chunks, k, start + Exchanges(convs, k), attempts);
      OneMoreCarried(convs, chunks, k);
    }
  }

  lemma OneMoreCarried(convs: seq<seq<Exchange>>, chunks: seq<seq<Byte>>, k: nat)
    requires k < |convs| && k < |chunks| && Carried(Requests(Flatten(convs[..k]))) == Flatten(chunks[..k])
    requires Carried(Requests(convs[k])) == chunks[k]
    ensures Carried(Requests(Flatten(convs[..k + 1]))) == Flatten(chunks[..k + 1])
  {
    FlattenNext(convs, k);
    FlattenNext(chunks, k);
    BothCarried(Flatten(convs[..k + 1]), Flatten(convs[..k]), convs[k]);
  }

  lemma {:induction false} DataIsCarried(t: seq<Exchange>, n: nat)
    requires n <= |t| && forall i :: 0 <= i < |t| ==> |t[i].response| >= HEADER_SIZE && !IsError(t[i].response)
    ensures DataOf(t[..n]) == Carried(Responses(t)[..n])
  {
    if n > 0 {
      DataIsCarried(t, n - 1);
      assert t[..n][..n - 1] == t[..n - 1] && t[..n][n - 1] == t[n - 1];
      assert Responses(t)[..n][..n - 1] == Responses(t)[..n - 1] && Responses(t)[..n][n - 1] == t[n - 1].response;
    }
  }

  lemma ChunkReturns(t: seq<Exchange>, id: Byte, chunks: seq<seq<Byte>>, k: nat, first: nat, attempts: nat)
    requires k < |chunks| && Answered(t, id, chunks, k, first, attempts)
    ensures Carried(Responses(t)) == DataOf(t)
  {
    forall i | 0 <= i < |t|
      ensures |t[i].response| >= HEADER_SIZE && !IsError(t[i].response)
    {
      AnsweredExchange(t, id, chunks, k, first, attempts, i);
    }
    DataIsCarried(t, |t|);
    assert t[..|t|] == t && Responses(t)[..|t|] == Responses(t);
  }

  /** What came back for the first n chunks is what their answers carry. */
  lemma {:induction false} CallReturns(convs: seq<seq<Exchange>>, id: Byte, chunks: seq<seq<Byte>>, start: nat,
                                       attempts: nat, n: nat)
    requires ChunksSent(convs, id, chunks, start, attempts) && n <= |convs|
    ensures Carried(Responses(Flatten(convs[..n]))) == AllData(convs, n)
  {
    if n > 0 {
      var (k, xs) := (n - 1, Flatten(convs[..n - 1]));
      CallReturns(convs, id, chunks, start, attempts, k);
      assert ChunkSent(convs, id, chunks, start, attempts, k);
      ChunkReturns(convs[k], id, chunks, k, start + Exchanges(convs, k), attempts);
      FlattenNext(convs, k);
      BothCarried(Flatten(convs[..n]), xs, convs[k]);
    }
  }

  /** Request and answer of exchange n travel under the number of request n. */
  ghost predicate Numbered(xs: seq<Exchange>, start: nat, n: nat)
    requires n < |xs|
  {
    && |xs[n].request| >= HEADER_SIZE && |xs[n].response| >= HEADER_SIZE
    && NumberOf(xs[n].request) == NumberOf(xs[n].response) == UdpSystem.Number(start, n)
  }

  lemma {:induction false} CallIsNumbered(convs: seq<seq<Exchange>>, id: Byte, chunks: seq<seq<Byte>>, start: nat,
                                          attempts: nat, m: nat, n: nat)
    requires ChunksSent(convs, id, chunks, start, attempts) && m <= |convs| && n < |Flatten(convs[..m])|
    ensures Numbered(Flatten(convs[..m]), start, n)
  {
    if m > 0 {
      var k, before := m - 1, Flatten(convs[..m - 1]);
      FlattenNext(convs, k);
      CallCounts(convs, k);
      if n < |before| {
        CallIsNumbered(convs, id, chunks, start, attempts, k, n);
        assert Flatten(convs[..m])[n] == before[n];
      } else {
        ExchangesAreNumbered(convs, id, chunks, start, attempts, k, n - |before|);
        assert Flatten(convs[..m])[n] == convs[k][n - |before|];
      }
    }
  }

  // ---- receiving

  /** The datagrams come to the waiting host one after the other. */
  function Delivered(s: UdpSystem.System, ds: seq<UdpSystem.Datagram>): (r: UdpSystem.System)
    requires |s.accepted| <= |s.requests|
    ensures |r.accepted| <= |r.requests|
    decreases |ds|
  {
    if ds == [] then s else Delivered(UdpSystem.Apply(s, UdpSystem.HostReceives(ds[0])), ds[1..])
  }

  function Arrivals(ds: seq<UdpSystem.Datagram>): seq<Happening> {
    seq(|ds|, i requires 0 <= i < |ds| => Got(ds[i].data))
  }

  /** An answer to this request or to an earlier one: its number is in its header, and its id is the right one. */
  predicate Plausible(request: seq<Byte>, d: UdpSystem.Datagram, size: nat) {
    && HEADER_SIZE <= |d.data| <= size && d.sequence == NumberOf(d.data)
    && |request| >= HEADER_SIZE && (d.data[0] == request[0] || IsError(d.data))
  }

  lemma SameNumberMatches(request: seq<Byte>, d: UdpSystem.Datagram, size: nat)
    requires Plausible(request, d, size)
    ensures Matches(request, d.data) <==> d.sequence == NumberOf(request)
  {
  }

  lemma {:induction false} NobodyWaits(s: UdpSystem.System, ds: seq<UdpSystem.Datagram>)
    requires |s.accepted| <= |s.requests| && !s.waiting
    ensures Delivered(s, ds) == s
  {
    if ds != [] {
      NobodyWaits(s, ds[1..]);
    }
  }

  /** The receive loop accepts what the host of the runs accepts. */
  lemma {:induction false} AwaitedIsDelivered(s: UdpSystem.System, request: seq<Byte>, ds: seq<UdpSystem.Datagram>,
                                              size: nat)
    requires s.waiting && |s.accepted| < |s.requests|
    requires |request| >= HEADER_SIZE && NumberOf(request) == UdpSystem.Number(s.base, |s.accepted|)
    requires forall i :: 0 <= i < |ds| ==> Plausible(request, ds[i], size)
    ensures var (a, rest) := Awaited(request, Arrivals(ds), size);
            Delivered(s, ds) == if a.Response? then s.(accepted := s.accepted + [a.bytes], waiting := false) else s
  {
    if ds != [] {
      SameNumberMatches(request, ds[0], size);
      assert Arrivals(ds)[0] == Got(ds[0].data) && Arrivals(ds)[1..] == Arrivals(ds[1..]);
      var s' := UdpSystem.Apply(s, UdpSystem.HostReceives(ds[0]));
      if Matches(request, ds[0].data) {
        NobodyWaits(s', ds[1..]);
      } else {
        AwaitedIsDelivered(s, request, ds[1..], size);
      }
    }
  }

  // ---- a call as it happens

  /** What goes on while the host waits: the target gets a datagram, the host does, or the time is up. */
  datatype Joint = Target(d: UdpSystem.Datagram, answer: seq<Byte>) | Arrival(d: UdpSystem.Datagram) | Silence

  /** What the host's socket shows of it, and what it is in the runs, where sending the same again is nothing. */
  function Shown(j: Joint): seq<Happening> {
    match j case Target(_, _) => [] case Arrival(d) => [Got(d.data)] case Silence => [TimedOut]
  }

  function Shows(js: seq<Joint>): seq<Happening> {
    if js == [] then [] else Shown(js[0]) + Shows(js[1..])
  }

  function EventsOf(j: Joint): seq<UdpSystem.Event> {
    match j
    case Target(d, answer) => [UdpSystem.TargetReceives(d, answer)]
    case Arrival(d) => [UdpSystem.HostReceives(d)]
    case Silence => []
  }

  function Events(js: seq<Joint>): seq<UdpSystem.Event> {
    if js == [] then [] else EventsOf(js[0]) + Events(js[1..])
  }

  /** Whatever arrives comes from the network, as an answer to this request or an earlier one. */
  ghost predicate Possible(s: UdpSystem.System, js: seq<Joint>, request: seq<Byte>, size: nat, lifetime: nat,
                           after: UdpSystem.After)
    requires |s.accepted| <= |s.requests|
    decreases |js|
  {
    js == [] ||
    (&& (js[0].Arrival? ==>
           && UdpSystem.Enabled(s, UdpSystem.HostReceives(js[0].d), lifetime, after)
           && Plausible(request, js[0].d, size))
     && Possible(UdpSystem.Then(s, EventsOf(js[0]), lifetime, after), js[1..], request, size, lifetime, after))
  }

  /** The host is where it was, apart from what the target and the network did. */
  predicate SameHost(s: UdpSystem.System, r: UdpSystem.System) {
    r.base == s.base && r.requests == s.requests && r.accepted == s.accepted && r.waiting == s.waiting
  }

  lemma OneEvent(s: UdpSystem.System, e: UdpSystem.Event, lifetime: nat, after: UdpSystem.After)
    requires |s.accepted| <= |s.requests|
    ensures UdpSystem.Then(s, [e], lifetime, after) == UdpSystem.Step(s, e, lifetime, after)
  {
    assert [e][1..] == [];
  }

  lemma TargetIsElsewhere(s: UdpSystem.System, d: UdpSystem.Datagram, answer: seq<Byte>, lifetime: nat,
                          after: UdpSystem.After)
    requires |s.accepted| <= |s.requests|
    ensures SameHost(s, UdpSystem.Then(s, EventsOf(Target(d, answer)), lifetime, after))
  {
    OneEvent(s, UdpSystem.TargetReceives(d, answer), lifetime, after);
  }

  /** What shows nothing is all elsewhere. */
  lemma {:induction false} NothingShown(s: UdpSystem.System, js: seq<Joint>, lifetime: nat, after: UdpSystem.After)
    requires |s.accepted| <= |s.requests| && Shows(js) == []
    ensures SameHost(s, UdpSystem.Then(s, Events(js), lifetime, after))
    decreases |js|
  {
    if js != [] {
      assert js[0].Target?;
      var s' := UdpSystem.Then(s, EventsOf(js[0]), lifetime, after);
      TargetIsElsewhere(s, js[0].d, js[0].answer, lifetime, after);
      NothingShown(s', js[1..], lifetime, after);
      UdpSystem.ThenConcat(s, EventsOf(js[0]), Events(js[1..]), lifetime, after);
    }
  }

  /** The host waits for the answer to this request. */
  predicate WaitsFor(s: UdpSystem.System, request: seq<Byte>) {
    && s.waiting && |s.accepted| < |s.requests|
    && |request| >= HEADER_SIZE && NumberOf(request) == UdpSystem.Number(s.base, |s.accepted|)
  }

  /** The state after the answer was accepted. */
  predicate Accepted(s: UdpSystem.System, r: UdpSystem.System, answer: seq<Byte>) {
    r.base == s.base && r.requests == s.requests && r.accepted == s.accepted + [answer] && !r.waiting
  }

  lemma SilenceIsRetried(request: seq<Byte>, rest: seq<Happening>, attempts: nat, size: nat)
    requires attempts > 0
    ensures var (a, copies, left) := Transacted(request, rest, attempts - 1, size);
            Transacted(request, [TimedOut] + rest, attempts, size) == (a, copies + 1, left)
  {
    assert ([TimedOut] + rest)[1..] == rest;
  }

  lemma StrangerIsSkipped(request: seq<Byte>, bytes: seq<Byte>, rest: seq<Happening>, attempts: nat, size: nat)
    requires attempts > 0 && HEADER_SIZE <= |bytes| <= size && !Matches(request, bytes)
    requires rest == [] || !rest[0].SendFails?
    ensures Transacted(request, [Got(bytes)] + rest, attempts, size) == Transacted(request, rest, attempts, size)
  {
    assert ([Got(bytes)] + rest)[1..] == rest;
  }

  lemma MatchIsAnswer(request: seq<Byte>, bytes: seq<Byte>, rest: seq<Happening>, attempts: nat, size: nat)
    requires attempts > 0 && HEADER_SIZE <= |bytes| <= size && Matches(request, bytes)
    ensures Transacted(request, [Got(bytes)] + rest, attempts, size) == (Response(bytes), 1, rest)
  {
    assert ([Got(bytes)] + rest)[1..] == rest;
  }

  lemma {:induction false} NoSendFails(js: seq<Joint>)
    ensures Shows(js) == [] || !Shows(js)[0].SendFails?
  {
    if js != [] {
      NoSendFails(js[1..]);
      if js[0].Target? {
        assert Shows(js) == Shows(js[1..]);
      } else {
        assert Shows(js)[0] == Shown(js[0])[0];
      }
    }
  }

  lemma ArrivalIsAccepted(s: UdpSystem.System, request: seq<Byte>, d: UdpSystem.Datagram, size: nat, lifetime: nat,
                          after: UdpSystem.After)
    requires WaitsFor(s, request) && UdpSystem.Enabled(s, UdpSystem.HostReceives(d), lifetime, after)
    requires Plausible(request, d, size)
    ensures var r := UdpSystem.Then(s, EventsOf(Arrival(d)), lifetime, after);
            if Matches(request, d.data) then Accepted(s, r, d.data) else r == s
  {
    OneEvent(s, UdpSystem.HostReceives(d), lifetime, after);
    SameNumberMatches(request, d, size);
  }

  /** An exchange with all its time-outs and strangers is the step of the runs that takes its answer. */
  lemma {:induction false} ExchangeRuns(s: UdpSystem.System, request: seq<Byte>, js: seq<Joint>, attempts: nat,
                                        size: nat, lifetime: nat, after: UdpSystem.After, bytes: seq<Byte>, copies: nat)
    requires WaitsFor(s, request) && Possible(s, js, request, size, lifetime, after)
    requires Transacted(request, Shows(js), attempts, size) == (Response(bytes), copies, [])
    ensures Accepted(s, UdpSystem.Then(s, Events(js), lifetime, after), bytes)
    decreases |js|
  {
    if js == [] || attempts == 0 {
      assert false;
    }
    var rest, s' := Shows(js[1..]), UdpSystem.Then(s, EventsOf(js[0]), lifetime, after);
    UdpSystem.ThenConcat(s, EventsOf(js[0]), Events(js[1..]), lifetime, after);
    match js[0]
    case Target(d, answer) =>
      TargetIsElsewhere(s, d, answer, lifetime, after);
      assert [] + rest == rest;
      ExchangeRuns(s', request, js[1..], attempts, size, lifetime, after, bytes, copies);
    case Silence =>
      SilenceIsRetried(request, rest, attempts, size);
      ExchangeRuns(s', request, js[1..], attempts - 1, size, lifetime, after, bytes, copies - 1);
    case Arrival(d) =>
      ArrivalIsAccepted(s, request, d, size, lifetime, after);
      if Matches(request, d.data) {
        MatchIsAnswer(request, d.data, rest, attempts, size);
        NothingShown(s', js[1..], lifetime, after);
      } else {
        NoSendFails(js[1..]);
        StrangerIsSkipped(request, d.data, rest, attempts, size);
        ExchangeRuns(s', request, js[1..], attempts, size, lifetime, after, bytes, copies);
      }
  }

  /** A request that is not answered, with all its time-outs and strangers, changes nothing at the host. */
  lemma {:induction false} UnansweredRuns(s: UdpSystem.System, request: seq<Byte>, js: seq<Joint>, attempts: nat,
                                          size: nat, lifetime: nat, after: UdpSystem.After, copies: nat)
    requires WaitsFor(s, request) && Possible(s, js, request, size, lifetime, after)
    requires Transacted(request, Shows(js), attempts, size) == (NoAnswer, copies, [])
    ensures SameHost(s, UdpSystem.Then(s, Events(js), lifetime, after))
    decreases |js|
  {
    if attempts == 0 {
      NothingShown(s, js, lifetime, after);
      return;
    }
    var rest, s' := Shows(js[1..]), UdpSystem.Then(s, EventsOf(js[0]), lifetime, after);
    UdpSystem.ThenConcat(s, EventsOf(js[0]), Events(js[1..]), lifetime, after);
    match js[0]
    case Target(d, answer) =>
      TargetIsElsewhere(s, d, answer, lifetime, after);
      assert [] + rest == rest;
      UnansweredRuns(s', request, js[1..], attempts, size, lifetime, after, copies);
    case Silence =>
      SilenceIsRetried(request, rest, attempts, size);
      UnansweredRuns(s', request, js[1..], attempts - 1, size, lifetime, after, copies - 1);
    case Arrival(d) =>
      ArrivalIsAccepted(s, request, d, size, lifetime, after);
      if Matches(request, d.data) {
        MatchIsAnswer(request, d.data, rest, attempts, size);
        assert false;
      }
      NoSendFails(js[1..]);
      StrangerIsSkipped(request, d.data, rest, attempts, size);
      UnansweredRuns(s', request, js[1..], attempts, size, lifetime, after, copies);
  }

  /** The events of exchanges one after the other, each with what goes on during it. */
  function CallEvents(xs: seq<Exchange>, jss: seq<seq<Joint>>): seq<UdpSystem.Event>
    requires |xs| == |jss|
  {
    if xs == [] then [] else
    [UdpSystem.HostSends(xs[0].request)] + Events(jss[0]) + CallEvents(xs[1..], jss[1..])
  }

  /** Each exchange took from the socket what goes on during it, and that is possible. */
  ghost predicate Happens(s: UdpSystem.System, xs: seq<Exchange>, jss: seq<seq<Joint>>, heard: seq<seq<Happening>>,
                          size: nat, lifetime: nat, after: UdpSystem.After)
    requires |xs| == |jss| == |heard| && |s.accepted| <= |s.requests|
    decreases |xs|
  {
    xs == [] ||
    (var s1 := UdpSystem.Step(s, UdpSystem.HostSends(xs[0].request), lifetime, after);
     && Shows(jss[0]) == heard[0] && Possible(s1, jss[0], xs[0].request, size, lifetime, after)
     && Happens(UdpSystem.Then(s1, Events(jss[0]), lifetime, after), xs[1..], jss[1..], heard[1..], size, lifetime,
                after))
  }

  /** Nothing is under way. */
  predicate Idle(s: UdpSystem.System) {
    !s.waiting && |s.requests| == |s.accepted|
  }

  lemma ExchangeIsARun(s: UdpSystem.System, x: Exchange, js: seq<Joint>, seen: seq<Happening>, attempts: nat, size: nat,
                       lifetime: nat, after: UdpSystem.After)
    requires Idle(s) && Took(x, seen, attempts, size) && Shows(js) == seen
    requires |x.request| >= HEADER_SIZE && NumberOf(x.request) == UdpSystem.Number(s.base, |s.accepted|)
    requires Possible(UdpSystem.Step(s, UdpSystem.HostSends(x.request), lifetime, after), js, x.request, size,
                      lifetime, after)
    ensures var s1 := UdpSystem.Step(s, UdpSystem.HostSends(x.request), lifetime, after);
            var r := UdpSystem.Then(s1, Events(js), lifetime, after);
            && r.base == s.base && Idle(r) && |r.accepted| == |s.accepted| + 1
            && r.requests == s.requests + [x.request] && r.accepted == s.accepted + [x.response]
  {
    var s1 := UdpSystem.Step(s, UdpSystem.HostSends(x.request), lifetime, after);
    assert s.requests[..|s.accepted|] == s.requests;
    ExchangeRuns(s1, x.request, js, attempts, size, lifetime, after, x.response, x.tries);
  }

  lemma {:induction false} CallRuns(s: UdpSystem.System, xs: seq<Exchange>, jss: seq<seq<Joint>>,
                                    heard: seq<seq<Happening>>, attempts: nat, size: nat, lifetime: nat,
                                    after: UdpSystem.After)
    requires Idle(s) && |xs| == |jss| == |heard| && Happens(s, xs, jss, heard, size, lifetime, after)
    requires AllTook(xs, heard, attempts, size) && AllSentAs(xs, s.base, |s.accepted|)
    ensures var r := UdpSystem.Then(s, CallEvents(xs, jss), lifetime, after);
            && Idle(r) && r.requests == s.requests + Requests(xs) && r.accepted == s.accepted + Responses(xs)
            && |r.accepted| == |s.accepted| + |xs|
    decreases |xs|
  {
    if xs != [] {
      var s2 := FirstExchange(s, xs, jss, heard, attempts, size, lifetime, after);
      CallRuns(s2, xs[1..], jss[1..], heard[1..], attempts, size, lifetime, after);
      CallSplits(s, UdpSystem.HostSends(xs[0].request), jss[0], CallEvents(xs[1..], jss[1..]), lifetime, after);
      RequestsCons(s, s2, UdpSystem.Then(s, CallEvents(xs, jss), lifetime, after), xs);
    } else {
      assert s.requests + Requests(xs) == s.requests && s.accepted + Responses(xs) == s.accepted;
    }
  }

  lemma FirstExchange(s: UdpSystem.System, xs: seq<Exchange>, jss: seq<seq<Joint>>, heard: seq<seq<Happening>>,
                      attempts: nat, size: nat, lifetime: nat, after: UdpSystem.After) returns (s2: UdpSystem.System)
    requires xs != [] && Idle(s) && |xs| == |jss| == |heard| && Happens(s, xs, jss, heard, size, lifetime, after)
    requires AllTook(xs, heard, attempts, size) && AllSentAs(xs, s.base, |s.accepted|)
    ensures Idle(s2) && Happens(s2, xs[1..], jss[1..], heard[1..], size, lifetime, after)
    ensures s2 == UdpSystem.Then(UdpSystem.Step(s, UdpSystem.HostSends(xs[0].request), lifetime, after),
                                 Events(jss[0]), lifetime, after)
    ensures s2.requests == s.requests + [xs[0].request] && s2.accepted == s.accepted + [xs[0].response]
    ensures AllTook(xs[1..], heard[1..], attempts, size) && AllSentAs(xs[1..], s2.base, |s2.accepted|)
  {
    s2 := UdpSystem.Then(UdpSystem.Step(s, UdpSystem.HostSends(xs[0].request), lifetime, after), Events(jss[0]),
                         lifetime, after);
    FirstAndOthers(xs, heard, s.base, |s.accepted|, attempts, size);
    ExchangeIsARun(s, xs[0], jss[0], heard[0], attempts, size, lifetime, after);
  }

  /** Exchange n is sent under the number that follows n others. */
  predicate SentAs(x: Exchange, base: nat, n: nat) {
    |x.request| >= HEADER_SIZE && NumberOf(x.request) == UdpSystem.Number(base, n)
  }

  ghost predicate AllSentAs(xs: seq<Exchange>, base: nat, before: nat) {
    forall n :: 0 <= n < |xs| ==> SentAs(xs[n], base, before + n)
  }

  ghost predicate AllTook(xs: seq<Exchange>, heard: seq<seq<Happening>>, attempts: nat, size: nat) {
    |xs| == |heard| && forall n :: 0 <= n < |xs| ==> Took(xs[n], heard[n], attempts, size)
  }

  lemma FirstAndOthers(xs: seq<Exchange>, heard: seq<seq<Happening>>, base: nat, before: nat, attempts: nat, size: nat)
    requires xs != [] && AllSentAs(xs, base, before) && AllTook(xs, heard, attempts, size)
    ensures SentAs(xs[0], base, before) && Took(xs[0], heard[0], attempts, size)
    ensures AllSentAs(xs[1..], base, before + 1) && AllTook(xs[1..], heard[1..], attempts, size)
  {
    assert SentAs(xs[0], base, before + 0);
    forall n | 0 <= n < |xs[1..]|
      ensures SentAs(xs[1..][n], base, before + 1 + n)
    {
      assert SentAs(xs[n + 1], base, before + (n + 1));
    }
  }

  lemma CallSplits(s: UdpSystem.System, send: UdpSystem.Event, js: seq<Joint>, rest: seq<UdpSystem.Event>,
                   lifetime: nat, after: UdpSystem.After)
    requires |s.accepted| <= |s.requests|
    ensures var s1 := UdpSystem.Step(s, send, lifetime, after);
            UdpSystem.Then(s, [send] + Events(js) + rest, lifetime, after)
            == UdpSystem.Then(UdpSystem.Then(s1, Events(js), lifetime, after), rest, lifetime, after)
  {
    UdpSystem.ThenConcat(s, [send] + Events(js), rest, lifetime, after);
    UdpSystem.ThenConcat(s, [send], Events(js), lifetime, after);
    OneEvent(s, send, lifetime, after);
  }

  lemma RequestsCons(s: UdpSystem.System, s2: UdpSystem.System, r: UdpSystem.System, xs: seq<Exchange>)
    requires xs != []
    requires s2.requests == s.requests + [xs[0].request] && s2.accepted == s.accepted + [xs[0].response]
    requires r.requests == s2.requests + Requests(xs[1..]) && r.accepted == s2.accepted + Responses(xs[1..])
    ensures r.requests == s.requests + Requests(xs) && r.accepted == s.accepted + Responses(xs)
  {
    RequestsConcat([xs[0]], xs[1..]);
    assert [xs[0]] + xs[1..] == xs && Requests([xs[0]]) == [xs[0].request] && Responses([xs[0]]) == [xs[0].response];
    ConcatAssoc(s.requests, [xs[0].request], Requests(xs[1..]));
    ConcatAssoc(s.accepted, [xs[0].response], Responses(xs[1..]));
  }

  lemma CallSentAs(convs: seq<seq<Exchange>>, id: Byte, chunks: seq<seq<Byte>>, base: nat, before: nat, attempts: nat)
    requires ChunksSent(convs, id, chunks, base + before, attempts)
    ensures AllSentAs(Flatten(convs), base, before)
  {
    var xs := Flatten(convs);
    assert convs[..|convs|] == convs;
    forall n | 0 <= n < |xs|
      ensures SentAs(xs[n], base, before + n)
    {
      CallIsNumbered(convs, id, chunks, base + before, attempts, |convs|, n);
      NumberShift(base, before, n);
    }
  }

  /**
   * A successful call is part of a run, as it happened: with every time-out and repetition, with whatever the
   * target got in between, and with every datagram that arrived, as long as the arrivals came from the network.
   * The run ends with the requests of the call sent, in order, and its answers accepted.
   */
  lemma CallIsARun(base: nat, es: seq<UdpSystem.Event>, lifetime: nat, after: UdpSystem.After,
                   convs: seq<seq<Exchange>>, id: Byte, chunks: seq<seq<Byte>>, attempts: nat, size: nat,
                   heard: seq<seq<Happening>>, script: seq<Happening>, rest: seq<Happening>, jss: seq<seq<Joint>>)
    requires Idle(UdpSystem.Run(base, es, lifetime, after)) && |jss| == |Flatten(convs)|
    requires ChunksSent(convs, id, chunks, base + |UdpSystem.Run(base, es, lifetime, after).accepted|, attempts)
    requires Heard(Flatten(convs), heard, script, rest, attempts, size)
    requires Happens(UdpSystem.Run(base, es, lifetime, after), Flatten(convs), jss, heard, size, lifetime, after)
    ensures var (s, xs) := (UdpSystem.Run(base, es, lifetime, after), Flatten(convs));
            var r := UdpSystem.Run(base, es + CallEvents(xs, jss), lifetime, after);
            Idle(r) && r.requests == s.requests + Requests(xs) && r.accepted == s.accepted + Responses(xs)
  {
    var s, xs := UdpSystem.Run(base, es, lifetime, after), Flatten(convs);
    RunKeepsBase(base, es, lifetime, after);
    CallSentAs(convs, id, chunks, base, |s.accepted|, attempts);
    CallRuns(s, xs, jss, heard, attempts, size, lifetime, after);
    UdpSystem.RunThen(base, es, CallEvents(xs, jss), lifetime, after);
  }

  lemma {:induction false} RunKeepsBase(base: nat, es: seq<UdpSystem.Event>, lifetime: nat, after: UdpSystem.After)
    ensures UdpSystem.Run(base, es, lifetime, after).base == base
  {
    if es != [] {
      RunKeepsBase(base, es[..|es| - 1], lifetime, after);
    }
  }

  // ---- the data of a call at the target

  /** The requests of a call that did not end well: those of its exchanges and the one that got no answer. */
  function RequestsOf(convs: seq<seq<Exchange>>, t: seq<Exchange>, pending: seq<Byte>, copies: nat): seq<seq<Byte>> {
    Requests(Flatten(convs)) + Requests(t) + if copies > 0 then [pending] else []
  }

  lemma PartCarries(whole: seq<seq<Byte>>, part: seq<seq<Byte>>, last: seq<seq<Byte>>, chunks: seq<seq<Byte>>, k: nat)
    requires k < |chunks| && Carried(whole) == Flatten(chunks[..k])
    requires Carried(part) + Carried(last) == [] || Carried(part) + Carried(last) == chunks[k]
    ensures Carried(whole + part + last) <= Flatten(chunks)
  {
    CarriedConcat(whole, part);
    CarriedConcat(whole + part, last);
    ConcatAssoc(Carried(whole), Carried(part), Carried(last));
    FlattenNext(chunks, k);
    FlattenPrefix(chunks, k);
    FlattenPrefix(chunks, k + 1);
  }

  /** Only one of the exchanges and the pending request carries the chunk. */
  lemma ChunkIsCarriedOnce(t: seq<Exchange>, pending: seq<Byte>, id: Byte, chunks: seq<seq<Byte>>, k: nat, first: nat,
                           attempts: nat)
    requires k < |chunks| && Chain(t, Request(id, chunks, first, k), first, attempts)
    requires IsNext(t, Request(id, chunks, first, k), first, pending)
    ensures Carried(Requests(t)) + Carried([pending]) == chunks[k]
  {
    ChunkCarries(t, id, chunks, k, first, attempts);
    CarriedSnoc([], pending);
    assert [] + [pending] == [pending];
    assert Payload(Request(id, chunks, first, k)) == chunks[k];
  }

  lemma PartialCarries(convs: seq<seq<Exchange>>, t: seq<Exchange>, pending: seq<Byte>, copies: nat,
                       id: Byte, chunks: seq<seq<Byte>>, start: nat, first: nat, attempts: nat)
    requires ChunksSent(convs, id, chunks, start, attempts) && |convs| < |chunks|
    requires Chain(t, Request(id, chunks, first, |convs|), first, attempts)
    requires copies > 0 ==> IsNext(t, Request(id, chunks, first, |convs|), first, pending)
    ensures Carried(RequestsOf(convs, t, pending, copies)) <= Flatten(chunks)
  {
    var k, whole := |convs|, Requests(Flatten(convs));
    AllCarried(convs, id, chunks, start, attempts);
    if copies > 0 {
      ChunkIsCarriedOnce(t, pending, id, chunks, k, first, attempts);
      PartCarries(whole, Requests(t), [pending], chunks, k);
    } else {
      ChunkCarries(t, id, chunks, k, first, attempts);
      assert Carried(Requests(t)) + Carried([]) == Carried(Requests(t));
      PartCarries(whole, Requests(t), [], chunks, k);
    }
  }

  lemma AllCarried(convs: seq<seq<Exchange>>, id: Byte, chunks: seq<seq<Byte>>, start: nat, attempts: nat)
    requires ChunksSent(convs, id, chunks, start, attempts)
    ensures Carried(Requests(Flatten(convs))) == Flatten(chunks[..|convs|])
  {
    CallCarries(convs, id, chunks, start, attempts, |convs|);
    assert convs[..|convs|] == convs;
  }

  lemma StoppedCarries(convs: seq<seq<Exchange>>, t: seq<Exchange>, pending: seq<Byte>, copies: nat,
                       id: Byte, tx: seq<Byte>, max: nat, attempts: nat, e: Effect)
    requires max > 0 && Stopped(convs, t, pending, copies, id, Chunks(tx, max), attempts, e)
    ensures Carried(RequestsOf(convs, t, pending, copies)) <= tx
  {
    var first := e.start + Exchanges(convs, |convs|);
    PartialCarries(convs, t, pending, copies, id, Chunks(tx, max), e.start, first, attempts);
    ChunksConcatenate(tx, max);
  }

  lemma PendingNumber(t: seq<Exchange>, first: seq<Byte>, start: nat, pending: seq<Byte>)
    requires IsNext(t, first, start, pending)
    requires |first| >= HEADER_SIZE && NumberOf(first) == start % UdpSystem.SEQUENCES
    ensures |pending| >= HEADER_SIZE && NumberOf(pending) == (start + |t|) % UdpSystem.SEQUENCES
  {
    if t != [] {
      NumberOfHeader(t[|t| - 1].response[0], start + |t|, FLAG_NONE, []);
      assert pending == pending + [];
    }
  }

  /** The first request of the next call goes under the number of the request that got no answer. */
  lemma NumberIsReused(convs: seq<seq<Exchange>>, t: seq<Exchange>, pending: seq<Byte>, copies: nat, id: Byte,
                       chunks: seq<seq<Byte>>, attempts: nat, e: Effect, id': Byte, chunks': seq<seq<Byte>>)
    requires Stopped(convs, t, pending, copies, id, chunks, attempts, e) && copies > 0 && chunks' != []
    ensures |pending| >= HEADER_SIZE && NumberOf(Request(id', chunks', e.sequence, 0)) == NumberOf(pending)
  {
    var first, k := e.start + Exchanges(convs, |convs|), |convs|;
    NumberOfHeader(id, first, if k < |chunks| - 1 then FLAG_CONTINUATION else FLAG_NONE, chunks[k]);
    PendingNumber(t, Request(id, chunks, first, k), first, pending);
    NumberOfHeader(id', e.sequence, if 0 < |chunks'| - 1 then FLAG_CONTINUATION else FLAG_NONE, chunks'[0]);
  }

  // ---- a call without an answer as it happens

  lemma ChainSentAs(t: seq<Exchange>, first: seq<Byte>, start: nat, attempts: nat, base: nat, before: nat)
    requires Chain(t, first, start, attempts) && start == base + before
    requires |first| >= HEADER_SIZE && NumberOf(first) == start % UdpSystem.SEQUENCES
    ensures AllSentAs(t, base, before)
  {
    forall n | 0 <= n < |t|
      ensures SentAs(t[n], base, before + n)
    {
      assert Link(t, first, start, attempts, n);
      if n > 0 {
        NumberOfHeader(t[n - 1].response[0], start + n, FLAG_NONE, []);
        assert t[n].request == t[n].request + [];
      }
    }
  }

  lemma SentConcat(xs: seq<Exchange>, ys: seq<Exchange>, base: nat, before: nat)
    requires AllSentAs(xs, base, before) && AllSentAs(ys, base, before + |xs|)
    ensures AllSentAs(xs + ys, base, before)
  {
    forall n | 0 <= n < |xs + ys|
      ensures SentAs((xs + ys)[n], base, before + n)
    {
      if n >= |xs| {
        assert SentAs(ys[n - |xs|], base, before + |xs| + (n - |xs|));
      } else {
        assert SentAs(xs[n], base, before + n);
      }
    }
  }

  lemma StoppedSentAs(convs: seq<seq<Exchange>>, t: seq<Exchange>, pending: seq<Byte>, copies: nat, id: Byte,
                      chunks: seq<seq<Byte>>, attempts: nat, e: Effect, base: nat, before: nat, now: nat)
    requires Stopped(convs, t, pending, copies, id, chunks, attempts, e) && e.start == base + before && copies > 0
    requires now == before + |Flatten(convs) + t|
    ensures AllSentAs(Flatten(convs) + t, base, before)
    ensures |pending| >= HEADER_SIZE && NumberOf(pending) == UdpSystem.Number(base, now)
  {
    var k, n := |convs|, |Flatten(convs)|;
    var first := e.start + Exchanges(convs, k);
    CallCounts(convs, k);
    assert convs[..k] == convs;
    NumberOfHeader(id, first, if k < |chunks| - 1 then FLAG_CONTINUATION else FLAG_NONE, chunks[k]);
    CallSentAs(convs, id, chunks, base, before, attempts);
    ChainSentAs(t, Request(id, chunks, first, k), first, attempts, base, before + n);
    SentConcat(Flatten(convs), t, base, before);
    PendingNumber(t, Request(id, chunks, first, k), first, pending);
  }

  /** The events of a request that the host gives up. */
  function GivenUp(request: seq<Byte>, js: seq<Joint>): seq<UdpSystem.Event> {
    [UdpSystem.HostSends(request)] + Events(js) + [UdpSystem.GiveUp]
  }

  lemma UnansweredIsGivenUp(s: UdpSystem.System, request: seq<Byte>, js: seq<Joint>, copies: nat, attempts: nat,
                            size: nat, lifetime: nat, after: UdpSystem.After)
    requires Idle(s) && |request| >= HEADER_SIZE && NumberOf(request) == UdpSystem.Number(s.base, |s.accepted|)
    requires Possible(UdpSystem.Step(s, UdpSystem.HostSends(request), lifetime, after), js, request, size, lifetime,
                      after)
    requires Transacted(request, Shows(js), attempts, size) == (NoAnswer, copies, [])
    ensures var r := UdpSystem.Then(s, GivenUp(request, js), lifetime, after);
            r.requests == s.requests + [request] && r.accepted == s.accepted && !r.waiting
  {
    var s1 := UdpSystem.Step(s, UdpSystem.HostSends(request), lifetime, after);
    assert s.requests[..|s.accepted|] == s.requests;
    UnansweredRuns(s1, request, js, attempts, size, lifetime, after, copies);
    CallSplits(s, UdpSystem.HostSends(request), js, [UdpSystem.GiveUp], lifetime, after);
    OneEvent(UdpSystem.Then(s1, Events(js), lifetime, after), UdpSystem.GiveUp, lifetime, after);
  }

  lemma {:induction false} ThenKeepsBase(s: UdpSystem.System, es: seq<UdpSystem.Event>, lifetime: nat,
                                         after: UdpSystem.After)
    requires |s.accepted| <= |s.requests|
    ensures UdpSystem.Then(s, es, lifetime, after).base == s.base
    decreases |es|
  {
    if es != [] {
      ThenKeepsBase(UdpSystem.Step(s, es[0], lifetime, after), es[1..], lifetime, after);
    }
  }

  lemma StoppedCounts(s: UdpSystem.System, s1: UdpSystem.System, xs: seq<Exchange>, jss: seq<seq<Joint>>,
                      heard: seq<seq<Happening>>, attempts: nat, size: nat, lifetime: nat, after: UdpSystem.After,
                      convs: seq<seq<Exchange>>, t: seq<Exchange>, pending: seq<Byte>, copies: nat, id: Byte,
                      chunks: seq<seq<Byte>>, e: Effect)
    requires Idle(s) && |xs| == |jss| == |heard| && Happens(s, xs, jss, heard, size, lifetime, after)
    requires AllTook(xs, heard, attempts, size) && s1 == UdpSystem.Then(s, CallEvents(xs, jss), lifetime, after)
    requires Stopped(convs, t, pending, copies, id, chunks, attempts, e) && e.start == s.base + |s.accepted|
    requires copies > 0
    requires xs == Flatten(convs) + t
    ensures Idle(s1) && s1.requests == s.requests + Requests(xs) && s1.accepted == s.accepted + Responses(xs)
    ensures |pending| >= HEADER_SIZE && NumberOf(pending) == UdpSystem.Number(s1.base, |s1.accepted|)
  {
    StoppedSentAs(convs, t, pending, copies, id, chunks, attempts, e, s.base, |s.accepted|, |s.accepted| + |xs|);
    CallRuns(s, xs, jss, heard, attempts, size, lifetime, after);
    ThenKeepsBase(s, CallEvents(xs, jss), lifetime, after);
  }

  lemma UnansweredCallRuns(s: UdpSystem.System, s1: UdpSystem.System, xs: seq<Exchange>, jss: seq<seq<Joint>>,
                           pending: seq<Byte>, js: seq<Joint>, copies: nat, attempts: nat, size: nat, lifetime: nat,
                           after: UdpSystem.After)
    requires |xs| == |jss| && |s.accepted| <= |s.requests| && Idle(s1)
    requires s1 == UdpSystem.Then(s, CallEvents(xs, jss), lifetime, after)
    requires s1.requests == s.requests + Requests(xs) && s1.accepted == s.accepted + Responses(xs)
    requires |pending| >= HEADER_SIZE && NumberOf(pending) == UdpSystem.Number(s1.base, |s1.accepted|)
    requires Possible(UdpSystem.Step(s1, UdpSystem.HostSends(pending), lifetime, after), js, pending, size, lifetime,
                      after)
    requires Transacted(pending, Shows(js), attempts, size) == (NoAnswer, copies, [])
    ensures var r := UdpSystem.Then(s, CallEvents(xs, jss) + GivenUp(pending, js), lifetime, after);
            && r.requests == s.requests + Requests(xs) + [pending] && r.accepted == s.accepted + Responses(xs)
            && !r.waiting
  {
    UnansweredIsGivenUp(s1, pending, js, copies, attempts, size, lifetime, after);
    UdpSystem.ThenConcat(s, CallEvents(xs, jss), GivenUp(pending, js), lifetime, after);
  }

  /**
   * So is a call that ends without an answer: the run ends with the host giving up the last request, under a
   * number that it has not got an answer for.
   */
  lemma UnansweredCallIsARun(base: nat, es: seq<UdpSystem.Event>, lifetime: nat, after: UdpSystem.After,
                             s1: UdpSystem.System, convs: seq<seq<Exchange>>, t: seq<Exchange>, pending: seq<Byte>,
                             copies: nat, id: Byte, chunks: seq<seq<Byte>>, attempts: nat, e: Effect, size: nat,
                             heard: seq<seq<Happening>>, script: seq<Happening>, left: seq<Happening>,
                             jss: seq<seq<Joint>>, js: seq<Joint>)
    requires Idle(UdpSystem.Run(base, es, lifetime, after)) && |jss| == |Flatten(convs) + t| && copies > 0
    requires Stopped(convs, t, pending, copies, id, chunks, attempts, e)
    requires e.start == base + |UdpSystem.Run(base, es, lifetime, after).accepted|
    requires Heard(Flatten(convs) + t, heard, script, left, attempts, size)
    requires Happens(UdpSystem.Run(base, es, lifetime, after), Flatten(convs) + t, jss, heard, size, lifetime, after)
    requires s1 == UdpSystem.Then(UdpSystem.Run(base, es, lifetime, after), CallEvents(Flatten(convs) + t, jss),
                                  lifetime, after)
    requires Possible(UdpSystem.Step(s1, UdpSystem.HostSends(pending), lifetime, after), js, pending, size, lifetime,
                      after)
    requires Transacted(pending, Shows(js), attempts, size) == (NoAnswer, copies, [])
    ensures var (s, xs) := (UdpSystem.Run(base, es, lifetime, after), Flatten(convs) + t);
            var r := UdpSystem.Run(base, es + (CallEvents(xs, jss) + GivenUp(pending, js)), lifetime, after);
            && r.requests == s.requests + Requests(xs) + [pending] && r.accepted == s.accepted + Responses(xs)
            && !r.waiting
  {
    var s, xs := UdpSystem.Run(base, es, lifetime, after), Flatten(convs) + t;
    RunKeepsBase(base, es, lifetime, after);
    StoppedCounts(s, s1, xs, jss, heard, attempts, size, lifetime, after, convs, t, pending, copies, id, chunks, e);
    UnansweredCallRuns(s, s1, xs, jss, pending, js, copies, attempts, size, lifetime, after);
    UdpSystem.RunThen(base, es, CallEvents(xs, jss) + GivenUp(pending, js), lifetime, after);
  }

  /** The target has consumed some of the requests behind the earlier ones. */
  lemma ConsumedIsPrefix(s: UdpSystem.System, before: seq<seq<Byte>>, all: seq<seq<Byte>>)
    requires UdpSystem.ExactlyOnce(s) && s.requests <= before + all && |before| <= |s.consumed|
    ensures s.consumed[|before|..] <= all && Carried(s.consumed[|before|..]) <= Carried(all)
  {
    assert s.consumed <= before + all;
    assert (before + all)[|before|..] == all;
    CarriedPrefix(s.consumed[|before|..], all);
  }

  /** Once all requests are answered they are all consumed, and the answers are those accepted. */
  lemma AllConsumed(s: UdpSystem.System, before: seq<seq<Byte>>, all: seq<seq<Byte>>)
    requires UdpSystem.ExactlyOnce(s) && s.requests == before + all && |s.accepted| == |s.requests|
    ensures s.consumed == s.requests && s.consumed[|before|..] == all && s.answers == s.accepted
  {
    assert |s.consumed| == |s.requests|;
  }

  lemma WholeCarries(convs: seq<seq<Exchange>>, id: Byte, tx: seq<Byte>, max: nat, start: nat, attempts: nat)
    requires max > 0 && ChunksSent(convs, id, Chunks(tx, max), start, attempts) && |convs| == |Chunks(tx, max)|
    ensures Carried(Requests(Flatten(convs))) == tx && Carried(Responses(Flatten(convs))) == AllData(convs, |convs|)
  {
    CallCarries(convs, id, Chunks(tx, max), start, attempts, |convs|);
    CallReturns(convs, id, Chunks(tx, max), start, attempts, |convs|);
    assert convs[..|convs|] == convs && Chunks(tx, max)[..|convs|] == Chunks(tx, max);
    ChunksConcatenate(tx, max);
  }

  /**
   * At every moment of a call, however it ends, what the target has consumed of it is a prefix of the data
   * handed to the call.
   */
  lemma PartArrivesInOrder(base: nat, es: seq<UdpSystem.Event>, lifetime: nat, after: UdpSystem.After,
                           before: seq<seq<Byte>>,
                           convs: seq<seq<Exchange>>, t: seq<Exchange>, pending: seq<Byte>, copies: nat,
                           id: Byte, tx: seq<Byte>, max: nat, attempts: nat, e: Effect)
    requires lifetime <= UdpSystem.SEQUENCES - 2 && !after.GoesOn?
    requires max > 0 && Stopped(convs, t, pending, copies, id, Chunks(tx, max), attempts, e)
    requires e.start == base + |before|
    requires UdpSystem.Run(base, es, lifetime, after).requests <= before + RequestsOf(convs, t, pending, copies)
    requires |before| <= |UdpSystem.Run(base, es, lifetime, after).consumed|
    ensures Carried(UdpSystem.Run(base, es, lifetime, after).consumed[|before|..]) <= tx
  {
    UdpSystem.RunIsExactlyOnce(base, es, lifetime, after);
    StoppedCarries(convs, t, pending, copies, id, tx, max, attempts, e);
    ConsumedIsPrefix(UdpSystem.Run(base, es, lifetime, after), before, RequestsOf(convs, t, pending, copies));
  }

  /**
   * When a call has succeeded, the target has consumed its data exactly once, whatever the network did, and
   * what the call returns is what the target answered.
   */
  lemma CallArrivesOnce(base: nat, es: seq<UdpSystem.Event>, lifetime: nat, after: UdpSystem.After,
                        before: seq<seq<Byte>>,
                        convs: seq<seq<Exchange>>, id: Byte, tx: seq<Byte>, max: nat, attempts: nat)
    requires lifetime <= UdpSystem.SEQUENCES - 2 && !after.GoesOn? && max > 0
    requires ChunksSent(convs, id, Chunks(tx, max), base + |before|, attempts) && |convs| == |Chunks(tx, max)|
    requires var (s, xs) := (UdpSystem.Run(base, es, lifetime, after), Flatten(convs));
             && s.requests == before + Requests(xs) && |s.accepted| == |s.requests|
             && s.accepted[|before|..] == Responses(xs)
    ensures var s := UdpSystem.Run(base, es, lifetime, after);
            && s.consumed == s.requests && Carried(s.consumed[|before|..]) == tx
            && s.answers == s.accepted && Carried(s.answers[|before|..]) == AllData(convs, |convs|)
  {
    UdpSystem.RunIsExactlyOnce(base, es, lifetime, after);
    AllConsumed(UdpSystem.Run(base, es, lifetime, after), before, Requests(Flatten(convs)));
    WholeCarries(convs, id, tx, max, base + |before|, attempts);
  }
}
