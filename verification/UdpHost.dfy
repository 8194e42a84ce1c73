/** The host side of the fastboot UDP protocol: chunking, retransmission and continuation. */
module UdpHost {
  import opened Bytes
  import UdpSystem

  const MIN_PACKET_SIZE: nat := 512
  const HEADER_SIZE: nat := 4
  const HOST_MAX_PACKET_SIZE: nat := 8192
  const PROTOCOL_VERSION: nat := 1
  const MAX_CONNECT_ATTEMPTS: nat := 4
  const MAX_TRANSMISSION_ATTEMPTS: nat := 120

  const ID_ERROR: Byte := 0
  const ID_DEVICE_QUERY: Byte := 1
  const ID_INITIALIZATION: Byte := 2
  const ID_FASTBOOT: Byte := 3

  const FLAG_NONE: Byte := 0
  const FLAG_CONTINUATION: Byte := 1

  /** `Header::Set`: the sequence number is kept modulo 2^16, high byte first. */
  function Header(id: Byte, sequence: nat, flag: Byte): (h: seq<Byte>)
    ensures |h| == HEADER_SIZE
  {
    [id, flag, sequence % 0x1_0000 / 256, sequence % 256]
  }

  /** `Header::Matches`: the numbers agree, and the id does or reports an error. */
  predicate Matches(request: seq<Byte>, response: seq<Byte>) {
    && |request| >= HEADER_SIZE && |response| >= HEADER_SIZE
    && request[2] == response[2] && request[3] == response[3]
    && (request[0] == response[0] || response[0] == ID_ERROR)
  }

  predicate Continues(response: seq<Byte>) {
    |response| >= HEADER_SIZE && response[1] % 2 == 1
  }

  predicate IsError(response: seq<Byte>) {
    |response| >= HEADER_SIZE && response[0] == ID_ERROR
  }

  /** What a header and a response have in common is the sequence number itself. */
  lemma MatchMeansSameNumber(id: Byte, m: nat, flag: Byte, rest: seq<Byte>, id': Byte, n: nat, flag': Byte,
                             rest': seq<Byte>)
    requires Matches(Header(id, m, flag) + rest, Header(id', n, flag') + rest')
    ensures m % UdpSystem.SEQUENCES == n % UdpSystem.SEQUENCES
  {
    assert (Header(id, m, flag) + rest)[2] == m % 0x1_0000 / 256 && (Header(id, m, flag) + rest)[3] == m % 256;
    assert (Header(id', n, flag') + rest')[2] == n % 0x1_0000 / 256 && (Header(id', n, flag') + rest')[3] == n % 256;
    LowDigit(m);
    LowDigit(n);
  }

  // ---- the network

  /** What happens next on the socket; running out of happenings is a receive failure. */
  datatype Happening = SendFails | Got(bytes: seq<Byte>) | TimedOut | ReceiveFails

  /** One receive into a buffer of `size` bytes: what it gives and what is left to happen. */
  function Received(script: seq<Happening>, size: nat): (Happening, seq<Happening>) {
    if script == [] then (ReceiveFails, []) else
    match script[0]
    case Got(bytes) => (Got(if |bytes| <= size then bytes else bytes[..size]), script[1..])
    case SendFails => (ReceiveFails, script[1..])
    case _ => (script[0], script[1..])
  }

  class Socket {
    var script: seq<Happening>
    var log: seq<seq<Byte>>

    constructor (script: seq<Happening>)
      ensures this.script == script && log == []
    {
      this.script, log := script, [];
    }

    method Send(datagram: seq<Byte>) returns (ok: bool)
      modifies this
      ensures ok <==> !(old(script) != [] && old(script)[0].SendFails?)
      ensures ok ==> log == old(log) + [datagram] && script == old(script)
      ensures !ok ==> log == old(log) && script == old(script)[1..]
    {
      if script != [] && script[0].SendFails? {
        script := script[1..];
        return false;
      }
      log := log + [datagram];
      return true;
    }

    /** One receive into a buffer of `size` bytes; a longer datagram is cut off. */
    method Receive(size: nat) returns (h: Happening)
      modifies this`script
      ensures (h, script) == Received(old(script), size)
      ensures h.Got? ==> |h.bytes| <= size
      ensures !h.SendFails?
      ensures h.Got? || h.TimedOut? ==> |script| < |old(script)|
      ensures |script| <= |old(script)|
    {
      if script == [] {
        return ReceiveFails;
      }
      h := script[0];
      script := script[1..];
      match h
      case Got(bytes) => h := Got(if |bytes| <= size then bytes else bytes[..size]);
      case SendFails => h := ReceiveFails;
      case _ =>
    }
  }

  // ---- what a successful or failed exchange of packets looks like

  /** A request, how often it was sent, and the response that was accepted for it. */
  datatype Exchange = Exchange(request: seq<Byte>, tries: nat, response: seq<Byte>)

  function Repeat(datagram: seq<Byte>, n: nat): seq<seq<Byte>> {
    seq(n, _ => datagram)
  }

  /** The datagrams a list of exchanges put on the network. */
  function Datagrams(t: seq<Exchange>): seq<seq<Byte>> {
    if t == [] then [] else Datagrams(t[..|t| - 1]) + Repeat(t[|t| - 1].request, t[|t| - 1].tries)
  }

  /** The data, and the error text, of the accepted responses. */
  function DataOf(t: seq<Exchange>): seq<Byte> {
    if t == [] then [] else
    var r := t[|t| - 1].response;
    DataOf(t[..|t| - 1]) + if |r| >= HEADER_SIZE && !IsError(r) then r[HEADER_SIZE..] else []
  }

  function ErrorText(t: seq<Exchange>): seq<Byte> {
    if t == [] then [] else
    var r := t[|t| - 1].response;
    ErrorText(t[..|t| - 1]) + if |r| >= HEADER_SIZE && IsError(r) then r[HEADER_SIZE..] else []
  }

  /**
   * A chain of exchanges that starts with request `first` under number `start`: every request is sent
   * at most `attempts` times, every response matches, and each next request is the empty prompt that
   * the continuation flag of the response before it asks for, under the next number.
   */
  ghost predicate Chain(t: seq<Exchange>, first: seq<Byte>, start: nat, attempts: nat) {
    forall i :: 0 <= i < |t| ==> Link(t, first, start, attempts, i)
  }

  /** Exchange i of a chain. */
  ghost predicate Link(t: seq<Exchange>, first: seq<Byte>, start: nat, attempts: nat, i: nat)
    requires i < |t|
  {
    && 1 <= t[i].tries <= attempts
    && Matches(t[i].request, t[i].response)
    && (if i == 0 then t[i].request == first
        else Continues(t[i - 1].response) && t[i].request == Header(t[i - 1].response[0], start + i, FLAG_NONE))
  }

  /** The chain has its final response. */
  predicate Complete(t: seq<Exchange>) {
    t != [] && !Continues(t[|t| - 1].response)
  }

  /** One link of a chain. */
  lemma ChainLink(t: seq<Exchange>, first: seq<Byte>, start: nat, attempts: nat, i: nat)
    requires Chain(t, first, start, attempts) && i < |t|
    ensures |t[i].response| >= HEADER_SIZE
    ensures t[i].response[0] == ID_ERROR
            || (i == 0 && |first| >= HEADER_SIZE && t[i].response[0] == first[0])
            || (i > 0 && |t[i - 1].response| >= HEADER_SIZE && t[i].response[0] == t[i - 1].response[0])
  {
    assert Link(t, first, start, attempts, i);
  }

  /** Once the target reports an error, every response after it is one too. */
  lemma {:induction false} ErrorsStay(t: seq<Exchange>, first: seq<Byte>, start: nat, attempts: nat, i: nat, j: nat)
    requires Chain(t, first, start, attempts) && i <= j < |t| && IsError(t[i].response)
    ensures IsError(t[j].response)
  {
    if i < j {
      ErrorsStay(t, first, start, attempts, i, j - 1);
      ChainLink(t, first, start, attempts, j);
    }
  }

  /** A chain whose last response is no error has no error in it, and kept its first id throughout. */
  lemma {:induction false} NoErrorAccepted(t: seq<Exchange>, first: seq<Byte>, start: nat, attempts: nat, j: nat)
    requires Chain(t, first, start, attempts) && j < |t| && !IsError(t[|t| - 1].response)
    ensures !IsError(t[j].response) && |t[j].response| >= HEADER_SIZE && |first| >= HEADER_SIZE
    ensures t[j].response[0] == first[0]
  {
    if IsError(t[j].response) {
      ErrorsStay(t, first, start, attempts, j, |t| - 1);
    }
    ChainLink(t, first, start, attempts, j);
    if j > 0 {
      NoErrorAccepted(t, first, start, attempts, j - 1);
    }
  }

  // ---- the receive buffer

  /** The buffer after copying as much of `data` to offset `at` as fits. */
  function Fill(buffer: seq<Byte>, at: nat, data: seq<Byte>): (r: seq<Byte>)
    requires at <= |buffer|
    ensures |r| == |buffer|
  {
    var n := if |data| <= |buffer| - at then |data| else |buffer| - at;
    buffer[..at] + data[..n] + buffer[at + n..]
  }

  function Advance(at: nat, length: nat, size: nat): (r: nat)
    requires at <= size
    ensures r <= size
  {
    if at + length <= size then at + length else size
  }

  lemma FillTwice(buffer: seq<Byte>, at: nat, x: seq<Byte>, y: seq<Byte>)
    requires at <= |buffer|
    ensures Fill(Fill(buffer, at, x), Advance(at, |x|, |buffer|), y) == Fill(buffer, at, x + y)
  {
  }

  lemma FillNothing(buffer: seq<Byte>, at: nat)
    requires at <= |buffer|
    ensures Fill(buffer, at, []) == buffer
  {
  }

  /** memcpy of what fits. */
  method CopyOut(rx: array<Byte>, at: nat, data: seq<Byte>)
    requires at <= rx.Length
    modifies rx
    ensures rx[..] == Fill(old(rx[..]), at, data)
  {
    var n := if |data| <= rx.Length - at then |data| else rx.Length - at;
    for i := 0 to n
      invariant forall k :: 0 <= k < rx.Length ==> rx[k] == if at <= k < at + i then data[k - at] else old(rx[k])
    {
      rx[at + i] := data[i];
    }
  }

  /** The request that follows a chain: the first one, or the prompt its last response asks for. */
  ghost predicate IsNext(t: seq<Exchange>, first: seq<Byte>, start: nat, request: seq<Byte>) {
    if t == [] then request == first
    else
      && Continues(t[|t| - 1].response)
      && request == Header(t[|t| - 1].response[0], start + |t|, FLAG_NONE)
  }

  lemma ChainGrows(t: seq<Exchange>, first: seq<Byte>, start: nat, attempts: nat, e: Exchange)
    requires Chain(t, first, start, attempts) && IsNext(t, first, start, e.request)
    requires 1 <= e.tries <= attempts && Matches(e.request, e.response)
    ensures Chain(t + [e], first, start, attempts)
  {
    var t' := t + [e];
    forall i | 0 <= i < |t'|
      ensures Link(t', first, start, attempts, i)
    {
      assert i < |t| ==> Link(t, first, start, attempts, i);
    }
  }

  lemma PromptIsNext(t: seq<Exchange>, first: seq<Byte>, start: nat, e: Exchange, number: nat)
    requires Continues(e.response) && number == start + |t| + 1
    ensures IsNext(t + [e], first, start, Header(e.response[0], number, FLAG_NONE))
  {
  }

  /** The copies of an answered request become part of the chain. */
  lemma LogMoves(log: seq<seq<Byte>>, t: seq<Exchange>, e: Exchange)
    ensures log + Datagrams(t) + Repeat(e.request, e.tries) == log + Datagrams(t + [e])
  {
    assert (t + [e])[..|t|] == t;
    ConcatAssoc(log, Datagrams(t), Repeat(e.request, e.tries));
  }

  lemma NoCopies(log: seq<seq<Byte>>, d: seq<Byte>)
    ensures log + Repeat(d, 0) == log
  {
  }

  /** The running results of SendSinglePacketHelper. */
  datatype Progress = Progress(total: nat, errorText: seq<Byte>, cursor: nat)

  ghost predicate Tracks(pr: Progress, buffer: seq<Byte>, orig: seq<Byte>, at: nat, t: seq<Exchange>) {
    && at <= |orig| && buffer == Fill(orig, at, DataOf(t))
    && pr == Progress(|DataOf(t)|, ErrorText(t), Advance(at, |DataOf(t)|, |orig|))
  }

  /** Saves the text of an error response, or copies what fits of the data of any other. */
  method Absorb(rx: array<Byte>, pr: Progress, bytes: seq<Byte>,
                ghost orig: seq<Byte>, ghost at: nat, ghost t: seq<Exchange>, ghost e: Exchange) returns (pr': Progress)
    requires |bytes| >= HEADER_SIZE && e.response == bytes && rx.Length == |orig| && Tracks(pr, rx[..], orig, at, t)
    modifies rx
    ensures Tracks(pr', rx[..], orig, at, t + [e])
  {
    assert (t + [e])[..|t|] == t;
    pr' := pr;
    if bytes[0] == ID_ERROR {
      pr' := pr.(errorText := pr.errorText + bytes[HEADER_SIZE..]);
    } else {
      var data := bytes[HEADER_SIZE..];
      FillTwice(orig, at, DataOf(t), data);
      CopyOut(rx, pr.cursor, data);
      pr' := pr.(total := pr.total + |data|, cursor := Advance(pr.cursor, |data|, rx.Length));
    }
  }

  lemma RepeatOnce(log: seq<seq<Byte>>, d: seq<Byte>, n: nat)
    ensures log + Repeat(d, n) + [d] == log + Repeat(d, n + 1)
  {
    assert Repeat(d, n) + [d] == Repeat(d, n + 1);
  }

  datatype Result =
    | Ok(total: nat)
    | SocketClosed
    | SendFailed
    | ReceiveFailed
    | IncompleteHeader
    | NoResponse
    | TargetError(text: seq<Byte>)
    | Invalid

  /** How waiting for an answer ended. */
  datatype Answer = Response(bytes: seq<Byte>) | NoAnswer | Broken | TooShort | Unsent

  /** The answer to a request: the first datagram that matches it, unless something else comes first. */
  function Awaited(request: seq<Byte>, script: seq<Happening>, size: nat): (Answer, seq<Happening>)
    decreases |script|
  {
    var (h, rest) := Received(script, size);
    match h
    case TimedOut => (NoAnswer, rest)
    case Got(bytes) =>
      if |bytes| < HEADER_SIZE then (TooShort, rest)
      else if Matches(request, bytes) then (Response(bytes), rest)
      else Awaited(request, rest, size)
    case _ => (Broken, rest)
  }

  /** How the exchange of one request ends, how often it is sent, and what is left to happen. */
  function Transacted(request: seq<Byte>, script: seq<Happening>, attempts: nat, size: nat): (Answer, nat,
                      seq<Happening>)
    decreases attempts
  {
    if attempts == 0 then (NoAnswer, 0, script)
    else if script != [] && script[0].SendFails? then (Unsent, 0, script[1..])
    else
      var (a, rest) := Awaited(request, script, size);
      if !a.NoAnswer? then (a, 1, rest) else
      var (a', copies, rest') := Transacted(request, rest, attempts - 1, size);
      (a', copies + 1, rest')
  }

  // ---- what a call takes from the socket

  /** Waiting looks no further than the answer or the time-out that ends it. */
  lemma {:induction false} AwaitedCut(request: seq<Byte>, script: seq<Happening>, size: nat, more: seq<Happening>)
    requires var a := Awaited(request, script, size).0; a.Response? || a.NoAnswer?
    ensures var (a, rest) := Awaited(request, script, size);
            var k := |script| - |rest|;
            0 < k <= |script| && rest == script[k..] && Awaited(request, script[..k] + more, size) == (a, more)
    decreases |script|
  {
    var (h, rest) := Received(script, size);
    if h.Got? && |h.bytes| >= HEADER_SIZE && !Matches(request, h.bytes) {
      AwaitedCut(request, rest, size, more);
      var k := |rest| - |Awaited(request, rest, size).1|;
      FirstAgain(script, k + 1, more);
      assert script[1..][..k] == script[..k + 1][1..];
    } else {
      FirstAgain(script, 1, more);
      assert script[..1][1..] + more == more;
    }
  }

  lemma FirstAgain(script: seq<Happening>, k: nat, more: seq<Happening>)
    requires 0 < k <= |script|
    ensures script[..k] + more != [] && (script[..k] + more)[0] == script[0]
    ensures (script[..k] + more)[1..] == script[..k][1..] + more
  {
  }

  /** Neither does an exchange that is answered. */
  lemma {:induction false} TransactedCut(request: seq<Byte>, script: seq<Happening>, attempts: nat, size: nat,
                                         more: seq<Happening>)
    requires Transacted(request, script, attempts, size).0.Response?
    ensures var (a, copies, rest) := Transacted(request, script, attempts, size);
            var k := |script| - |rest|;
            && 0 < k <= |script| && rest == script[k..]
            && Transacted(request, script[..k] + more, attempts, size) == (a, copies, more)
    decreases attempts
  {
    var (a, rest) := Awaited(request, script, size);
    if a.NoAnswer? {
      TransactedCut(request, rest, attempts - 1, size, more);
      var k2 := |rest| - |Transacted(request, rest, attempts - 1, size).2|;
      AwaitedCut(request, script, size, rest[..k2] + more);
      TriedAgain(request, script, attempts, size, rest);
      CutLater(request, script, attempts, size, more, |script| - |rest|, k2, rest, rest[..k2] + more);
    } else {
      var k := |script| - |rest|;
      AwaitedCut(request, script, size, more);
      FirstAgain(script, k, more);
      AnsweredAtOnce(request, script, attempts, size, a, rest);
      AnsweredAtOnce(request, script[..k] + more, attempts, size, a, more);
    }
  }

  lemma AnsweredAtOnce(request: seq<Byte>, script: seq<Happening>, attempts: nat, size: nat, a: Answer,
                       rest: seq<Happening>)
    requires attempts > 0 && script != [] && !script[0].SendFails? && a.Response?
    requires Awaited(request, script, size) == (a, rest)
    ensures Transacted(request, script, attempts, size) == (a, 1, rest)
  {
  }

  lemma TriedAgain(request: seq<Byte>, script: seq<Happening>, attempts: nat, size: nat, rest: seq<Happening>)
    requires attempts > 0 && script != [] && !script[0].SendFails? && Awaited(request, script, size) == (NoAnswer, rest)
    ensures var (a, copies, left) := Transacted(request, rest, attempts - 1, size);
            Transacted(request, script, attempts, size) == (a, copies + 1, left)
  {
  }

  lemma CutLater(request: seq<Byte>, script: seq<Happening>, attempts: nat, size: nat, more: seq<Happening>,
                 k1: nat, k2: nat, rest: seq<Happening>, next: seq<Happening>)
    requires attempts > 0 && k1 > 0 && k1 + k2 <= |script| && !script[0].SendFails?
    requires rest == script[k1..] && next == rest[..k2] + more
    requires Awaited(request, script[..k1] + next, size) == (NoAnswer, next)
    ensures rest[k2..] == script[k1 + k2..]
    ensures var (a, copies, left) := Transacted(request, next, attempts - 1, size);
            Transacted(request, script[..k1 + k2] + more, attempts, size) == (a, copies + 1, left)
  {
    CutTwice(script, k1, k2, more);
    FirstAgain(script, k1 + k2, more);
    TriedAgain(request, script[..k1 + k2] + more, attempts, size, next);
  }

  lemma CutTwice(script: seq<Happening>, k1: nat, k2: nat, more: seq<Happening>)
    requires k1 + k2 <= |script|
    ensures script[k1..][k2..] == script[k1 + k2..]
    ensures script[..k1 + k2] + more == script[..k1] + (script[k1..][..k2] + more)
  {
  }

  /** A request that is not answered takes a time-out for each attempt, and what comes between them. */
  lemma {:induction false} UnansweredCut(request: seq<Byte>, script: seq<Happening>, attempts: nat, size: nat)
    returns (seen: seq<Happening>)
    requires Transacted(request, script, attempts, size).0.NoAnswer?
    ensures var (a, copies, rest) := Transacted(request, script, attempts, size);
            script == seen + rest && Transacted(request, seen, attempts, size) == (NoAnswer, copies, [])
    decreases attempts
  {
    seen := [];
    if attempts > 0 {
      var rest := Awaited(request, script, size).1;
      var k := |script| - |rest|;
      TriedAgain(request, script, attempts, size, rest);
      var later := UnansweredCut(request, rest, attempts - 1, size);
      AwaitedCut(request, script, size, later);
      FirstAgain(script, k, later);
      seen := script[..k] + later;
      TriedAgain(request, seen, attempts, size, later);
    }
  }

  /** These happenings, and no others, are what the exchange took. */
  predicate Took(x: Exchange, seen: seq<Happening>, attempts: nat, size: nat) {
    Transacted(x.request, seen, attempts, size) == (Response(x.response), x.tries, [])
  }

  /** The exchanges took these happenings one after the other, and `rest` is left of the script. */
  ghost predicate Heard(t: seq<Exchange>, heard: seq<seq<Happening>>, script: seq<Happening>, rest: seq<Happening>,
                        attempts: nat, size: nat) {
    && |heard| == |t| && script == Flatten(heard) + rest
    && forall i :: 0 <= i < |t| ==> Took(t[i], heard[i], attempts, size)
  }

  lemma SeenBy(request: seq<Byte>, script: seq<Happening>, attempts: nat, size: nat, x: Exchange, rest: seq<Happening>)
    returns (seen: seq<Happening>)
    requires x.request == request
    requires Transacted(request, script, attempts, size) == (Response(x.response), x.tries, rest)
    ensures script == seen + rest && Took(x, seen, attempts, size)
  {
    TransactedCut(request, script, attempts, size, []);
    seen := script[..|script| - |rest|];
    assert seen + [] == seen && script == seen + rest;
  }

  /** How a chain of exchanges ends: answered, or with a request that took the rest without an answer. */
  predicate Ends(r: Result, pending: seq<Byte>, copies: nat, before: seq<Happening>, script: seq<Happening>,
                 attempts: nat, size: nat) {
    if r.Ok? || r.TargetError? then before == script
    else
      var (a, n, rest) := Transacted(pending, before, attempts, size);
      !a.Response? && r == Failure(a) && n == copies && rest == script
  }

  lemma NothingYet(log: seq<seq<Byte>>, script: seq<Happening>, attempts: nat, size: nat)
    ensures log + Datagrams([]) == log && Heard([], [], script, script, attempts, size)
  {
  }

  lemma HeardGrows(t: seq<Exchange>, heard: seq<seq<Happening>>, script: seq<Happening>, before: seq<Happening>,
                   x: Exchange, seen: seq<Happening>, rest: seq<Happening>, attempts: nat, size: nat)
    requires Heard(t, heard, script, before, attempts, size) && before == seen + rest && Took(x, seen, attempts, size)
    ensures Heard(t + [x], heard + [seen], script, rest, attempts, size)
  {
    FlattenSnoc(heard, seen);
    ConcatAssoc(Flatten(heard), seen, rest);
  }

  lemma HeardConcat(t: seq<Exchange>, heard: seq<seq<Happening>>, script: seq<Happening>, middle: seq<Happening>,
                    u: seq<Exchange>, more: seq<seq<Happening>>, rest: seq<Happening>, attempts: nat, size: nat)
    requires Heard(t, heard, script, middle, attempts, size) && Heard(u, more, middle, rest, attempts, size)
    ensures Heard(t + u, heard + more, script, rest, attempts, size)
  {
    FlattenConcat(heard, more);
    ConcatAssoc(Flatten(heard), Flatten(more), rest);
    forall i | 0 <= i < |t + u|
      ensures Took((t + u)[i], (heard + more)[i], attempts, size)
    {
      if i >= |t| {
        assert Took(u[i - |t|], more[i - |t|], attempts, size);
      }
    }
  }

  // ---- chunks

  /** tx_data cut into packets; there is always at least one, even if it is empty. */
  function Chunks(tx: seq<Byte>, max: nat): (r: seq<seq<Byte>>)
    requires max > 0
    ensures r != []
  {
    if |tx| <= max then [tx] else [tx[..max]] + Chunks(tx[max..], max)
  }

  lemma {:induction false} ChunksConcatenate(tx: seq<Byte>, max: nat)
    requires max > 0
    ensures Flatten(Chunks(tx, max)) == tx
    ensures forall c :: c in Chunks(tx, max) ==> |c| <= max
  {
    if |tx| > max {
      ChunksConcatenate(tx[max..], max);
      FlattenCons(tx[..max], Chunks(tx[max..], max));
    }
  }

  /** Request k of a call: the continuation flag is set on all chunks but the last. */
  function Request(id: Byte, chunks: seq<seq<Byte>>, start: nat, k: nat): (r: seq<Byte>)
    requires k < |chunks|
    ensures |r| >= HEADER_SIZE
  {
    Header(id, start, if k < |chunks| - 1 then FLAG_CONTINUATION else FLAG_NONE) + chunks[k]
  }

  /** The number of exchanges, their data and their datagrams, over the chains of the first n chunks. */
  function Exchanges(convs: seq<seq<Exchange>>, n: nat): nat
    requires n <= |convs|
  {
    if n == 0 then 0 else Exchanges(convs, n - 1) + |convs[n - 1]|
  }

  function AllData(convs: seq<seq<Exchange>>, n: nat): seq<Byte>
    requires n <= |convs|
  {
    if n == 0 then [] else AllData(convs, n - 1) + DataOf(convs[n - 1])
  }

  function AllDatagrams(convs: seq<seq<Exchange>>, n: nat): seq<seq<Byte>>
    requires n <= |convs|
  {
    if n == 0 then [] else AllDatagrams(convs, n - 1) + Datagrams(convs[n - 1])
  }

  lemma {:induction false} ExchangesStay(convs: seq<seq<Exchange>>, t: seq<Exchange>, n: nat)
    requires n <= |convs|
    ensures Exchanges(convs + [t], n) == Exchanges(convs, n)
  {
    if n > 0 {
      ExchangesStay(convs, t, n - 1);
      assert (convs + [t])[n - 1] == convs[n - 1];
    }
  }

  lemma {:induction false} EarlierChunksStay(convs: seq<seq<Exchange>>, t: seq<Exchange>, n: nat)
    requires n <= |convs|
    ensures AllData(convs + [t], n) == AllData(convs, n)
    ensures AllDatagrams(convs + [t], n) == AllDatagrams(convs, n)
  {
    if n > 0 {
      EarlierChunksStay(convs, t, n - 1);
      assert (convs + [t])[n - 1] == convs[n - 1];
    }
  }

  /** Chunk k went over: its chain starts under number `first` and ends with a final answer. */
  ghost predicate Answered(t: seq<Exchange>, id: Byte, chunks: seq<seq<Byte>>, k: nat, first: nat, attempts: nat)
    requires k < |chunks|
  {
    && Chain(t, Request(id, chunks, first, k), first, attempts)
    && Complete(t) && !IsError(t[|t| - 1].response)
  }

  /** Chunk k went over under the number that the chunks before it left. */
  ghost predicate ChunkSent(convs: seq<seq<Exchange>>, id: Byte, chunks: seq<seq<Byte>>, start: nat, attempts: nat,
                            k: nat)
    requires k < |convs| <= |chunks|
  {
    Answered(convs[k], id, chunks, k, start + Exchanges(convs, k), attempts)
  }

  ghost predicate ChunksSent(convs: seq<seq<Exchange>>, id: Byte, chunks: seq<seq<Byte>>, start: nat, attempts: nat) {
    && |convs| <= |chunks|
    && forall k :: 0 <= k < |convs| ==> ChunkSent(convs, id, chunks, start, attempts, k)
  }

  lemma ChunkStays(convs: seq<seq<Exchange>>, t: seq<Exchange>, id: Byte, chunks: seq<seq<Byte>>, start: nat,
                   attempts: nat, k: nat)
    requires k < |convs| < |chunks| && ChunkSent(convs, id, chunks, start, attempts, k)
    ensures ChunkSent(convs + [t], id, chunks, start, attempts, k)
  {
    ExchangesStay(convs, t, k);
    assert (convs + [t])[k] == convs[k];
  }

  lemma SameAnswer(t: seq<Exchange>, t': seq<Exchange>, id: Byte, chunks: seq<seq<Byte>>, k: nat, first: nat,
                   first': nat, attempts: nat)
    requires k < |chunks| && t == t' && first == first' && Answered(t, id, chunks, k, first, attempts)
    ensures Answered(t', id, chunks, k, first', attempts)
  {
  }

  lemma ChunkAdded(convs: seq<seq<Exchange>>, t: seq<Exchange>, id: Byte, chunks: seq<seq<Byte>>, start: nat,
                   first: nat, attempts: nat)
    requires |convs| < |chunks| && first == start + Exchanges(convs, |convs|)
    requires Answered(t, id, chunks, |convs|, first, attempts)
    ensures ChunkSent(convs + [t], id, chunks, start, attempts, |convs|)
  {
    var all, k := convs + [t], |convs|;
    ExchangesStay(convs, t, k);
    assert all[k] == t;
    SameAnswer(t, all[k], id, chunks, k, first, start + Exchanges(all, k), attempts);
  }

  lemma TotalsGrow(convs: seq<seq<Exchange>>, t: seq<Exchange>)
    ensures Exchanges(convs + [t], |convs| + 1) == Exchanges(convs, |convs|) + |t|
    ensures AllData(convs + [t], |convs| + 1) == AllData(convs, |convs|) + DataOf(t)
    ensures AllDatagrams(convs + [t], |convs| + 1) == AllDatagrams(convs, |convs|) + Datagrams(t)
  {
    ExchangesStay(convs, t, |convs|);
    EarlierChunksStay(convs, t, |convs|);
    assert (convs + [t])[|convs|] == t;
  }

  lemma ChunksSentGrows(convs: seq<seq<Exchange>>, t: seq<Exchange>, id: Byte, chunks: seq<seq<Byte>>, start: nat,
                        attempts: nat)
    requires ChunksSent(convs, id, chunks, start, attempts) && |convs| < |chunks|
    requires ChunkSent(convs + [t], id, chunks, start, attempts, |convs|)
    ensures ChunksSent(convs + [t], id, chunks, start, attempts)
  {
    forall k | 0 <= k < |convs|
      ensures ChunkSent(convs + [t], id, chunks, start, attempts, k)
    {
      ChunkStays(convs, t, id, chunks, start, attempts, k);
    }
  }

  /** What a call did: the counter, the datagrams sent and the receive buffer, before and after. */
  datatype Effect = Effect(start: nat, sequence: nat, log0: seq<seq<Byte>>, log: seq<seq<Byte>>, rx0: seq<Byte>,
                           rx: seq<Byte>)

  /** The whole chunks of a call so far account for its effect. */
  ghost predicate Sending(convs: seq<seq<Exchange>>, id: Byte, chunks: seq<seq<Byte>>, attempts: nat, e: Effect,
                          total: nat) {
    && ChunksSent(convs, id, chunks, e.start, attempts)
    && e.sequence == e.start + Exchanges(convs, |convs|)
    && e.log == e.log0 + AllDatagrams(convs, |convs|)
    && e.rx == Fill(e.rx0, 0, AllData(convs, |convs|))
    && total == |AllData(convs, |convs|)|
  }

  /** Where a call stopped: within a chunk after some whole ones. */
  ghost predicate Stopped(convs: seq<seq<Exchange>>, t: seq<Exchange>, pending: seq<Byte>, copies: nat,
                          id: Byte, chunks: seq<seq<Byte>>, attempts: nat, e: Effect) {
    && ChunksSent(convs, id, chunks, e.start, attempts) && |convs| < |chunks|
    && var first := e.start + Exchanges(convs, |convs|);
    && Chain(t, Request(id, chunks, first, |convs|), first, attempts)
    && copies <= attempts && (copies > 0 ==> IsNext(t, Request(id, chunks, first, |convs|), first, pending))
    && e.sequence == first + |t|
    && e.log == e.log0 + AllDatagrams(convs, |convs|) + Datagrams(t) + Repeat(pending, copies)
    && e.rx == Fill(e.rx0, 0, AllData(convs, |convs|) + DataOf(t))
  }

  lemma SendingStarts(id: Byte, chunks: seq<seq<Byte>>, attempts: nat, e: Effect)
    requires e.start == e.sequence && e.log0 == e.log && e.rx0 == e.rx
    ensures Sending([], id, chunks, attempts, e, 0)
  {
    FillNothing(e.rx, 0);
    assert e.log == e.log0 + AllDatagrams([], 0);
  }

  /** The effect of one more chunk. */
  ghost predicate ChunkEffect(t: seq<Exchange>, pending: seq<Byte>, copies: nat, id: Byte, chunks: seq<seq<Byte>>,
                              k: nat,
                              attempts: nat, total: nat, e: Effect, e': Effect) {
    && k < |chunks| && e' == e.(sequence := e.sequence + |t|, log := e'.log, rx := e'.rx)
    && Chain(t, Request(id, chunks, e.sequence, k), e.sequence, attempts)
    && copies <= attempts && (copies > 0 ==> IsNext(t, Request(id, chunks, e.sequence, k), e.sequence, pending))
    && e'.log == e.log + Datagrams(t) + Repeat(pending, copies)
    && e'.rx == Fill(e.rx, Advance(0, total, |e.rx|), DataOf(t))
  }

  lemma SendingGrows(convs: seq<seq<Exchange>>, t: seq<Exchange>, pending: seq<Byte>, id: Byte, chunks: seq<seq<Byte>>,
                     attempts: nat, e: Effect, e': Effect, total: nat)
    requires Sending(convs, id, chunks, attempts, e, total)
    requires ChunkEffect(t, pending, 0, id, chunks, |convs|, attempts, total, e, e')
    requires Complete(t) && !IsError(t[|t| - 1].response)
    ensures Sending(convs + [t], id, chunks, attempts, e', total + |DataOf(t)|)
  {
    TotalsGrow(convs, t);
    assert Answered(t, id, chunks, |convs|, e.sequence, attempts);
    ChunkAdded(convs, t, id, chunks, e.start, e.sequence, attempts);
    ChunksSentGrows(convs, t, id, chunks, e.start, attempts);
    FillTwice(e.rx0, 0, AllData(convs, |convs|), DataOf(t));
    ConcatAssoc(e.log0, AllDatagrams(convs, |convs|), Datagrams(t));
    assert e'.log == e.log + Datagrams(t);
  }

  lemma SendingStops(convs: seq<seq<Exchange>>, t: seq<Exchange>, pending: seq<Byte>, copies: nat, id: Byte,
                     chunks: seq<seq<Byte>>,
                     attempts: nat, e: Effect, e': Effect, total: nat)
    requires Sending(convs, id, chunks, attempts, e, total)
    requires ChunkEffect(t, pending, copies, id, chunks, |convs|, attempts, total, e, e')
    ensures Stopped(convs, t, pending, copies, id, chunks, attempts, e')
  {
    FillTwice(e.rx0, 0, AllData(convs, |convs|), DataOf(t));
  }

  class UdpTransport {
    const socket: Socket
    var closed: bool
    var sequence: nat
    var maxDataLength: nat
    var rxPacketSize: nat

    ghost predicate Valid()
      reads this
    {
      MIN_PACKET_SIZE - HEADER_SIZE <= maxDataLength <= HOST_MAX_PACKET_SIZE - HEADER_SIZE
      && MIN_PACKET_SIZE <= rxPacketSize <= HOST_MAX_PACKET_SIZE
    }

    constructor (socket: Socket)
      ensures Valid() && !closed && sequence == 0 && this.socket == socket
    {
      this.socket, closed, sequence := socket, false, 0;
      maxDataLength, rxPacketSize := MIN_PACKET_SIZE - HEADER_SIZE, MIN_PACKET_SIZE;
    }

    /** Keep receiving until a response matches or the time is up. */
    method AwaitMatch(request: seq<Byte>) returns (a: Answer)
      modifies socket`script
      ensures (a, socket.script) == Awaited(request, old(socket.script), rxPacketSize)
      ensures a.Response? ==> Matches(request, a.bytes) && |a.bytes| <= rxPacketSize
      ensures a.Response? || a.NoAnswer? ==> |socket.script| < |old(socket.script)|
      ensures !a.Unsent?
    {
      while true
        invariant |socket.script| <= |old(socket.script)|
        invariant Awaited(request, socket.script, rxPacketSize) == Awaited(request, old(socket.script), rxPacketSize)
        decreases |socket.script|
      {
        var h := socket.Receive(rxPacketSize);
        match h
        case TimedOut => return NoAnswer;
        case Got(bytes) =>
          if |bytes| < HEADER_SIZE {
            return TooShort;
          }
          if Matches(request, bytes) {
            return Response(bytes);
          }
        case _ => return Broken;
      }
    }

    /** Sends a request until it is answered, at most `attempts` times. */
    method Transact(request: seq<Byte>, attempts: nat) returns (a: Answer, ghost copies: nat)
      modifies socket
      ensures (a, copies, socket.script) == Transacted(request, old(socket.script), attempts, rxPacketSize)
      ensures socket.log == old(socket.log) + Repeat(request, copies) && copies <= attempts
      ensures a.Response? ==> Matches(request, a.bytes) && copies > 0 && |socket.script| < |old(socket.script)|
      ensures a.NoAnswer? ==> copies == attempts
      ensures a.Broken? || a.TooShort? ==> copies > 0
      ensures a.Unsent? ==> copies < attempts
    {
      var attemptsLeft := attempts;
      copies := 0;
      while attemptsLeft > 0
        invariant attemptsLeft + copies == attempts && attemptsLeft >= 0
        invariant var (a0, n, rest) := Transacted(request, socket.script, attemptsLeft, rxPacketSize);
                  Transacted(request, old(socket.script), attempts, rxPacketSize) == (a0, copies + n, rest)
        invariant socket.log == old(socket.log) + Repeat(request, copies) && |socket.script| <= |old(socket.script)|
        decreases |socket.script|
      {
        var ok := socket.Send(request);
        if !ok {
          return Unsent, copies;
        }
        RepeatOnce(old(socket.log), request, copies);
        copies := copies + 1;
        a := AwaitMatch(request);
        if !a.NoAnswer? {
          return a, copies;
        }
        attemptsLeft := attemptsLeft - 1;
      }
      return NoAnswer, copies;
    }

    /**
     * SendSinglePacketHelper; the code keeps one loop with an attempt counter that every accepted
     * response resets.  Whatever the target does, the datagrams sent are those of a chain of exchanges
     * followed by at most `attempts` copies of the next request; the counter advances once per
     * exchange; and the buffer holds what fits of the data in the accepted responses.
     */
    method SendSinglePacket(first: seq<Byte>, rx: array<Byte>, at: nat, attempts: nat)
      returns (r: Result, ghost t: seq<Exchange>, ghost pending: seq<Byte>, ghost copies: nat,
               ghost heard: seq<seq<Happening>>, ghost before: seq<Happening>)
      requires |first| >= HEADER_SIZE && at <= rx.Length
      modifies this`sequence, socket, rx
      ensures Chain(t, first, old(sequence), attempts) && sequence == old(sequence) + |t|
      ensures Heard(t, heard, old(socket.script), before, attempts, rxPacketSize)
      ensures Ends(r, pending, copies, before, socket.script, attempts, rxPacketSize)
      ensures socket.log == old(socket.log) + Datagrams(t) + Repeat(pending, copies) && copies <= attempts
      ensures copies > 0 ==> IsNext(t, first, old(sequence), pending)
      ensures rx[..] == Fill(old(rx[..]), at, DataOf(t))
      ensures Outcome(r, t, copies, attempts)
    {
      t, heard := [], [];
      var pr, request := Progress(0, [], at), first;
      FillNothing(rx[..], at);
      NothingYet(socket.log, socket.script, attempts, rxPacketSize);
      while true
        invariant Chain(t, first, old(sequence), attempts) && sequence == old(sequence) + |t|
        invariant IsNext(t, first, old(sequence), request)
        invariant socket.log == old(socket.log) + Datagrams(t)
        invariant Tracks(pr, rx[..], old(rx[..]), at, t)
        invariant Heard(t, heard, old(socket.script), socket.script, attempts, rxPacketSize)
        decreases |socket.script|
      {
        before := socket.script;
        var answer;
        answer, pr, copies, heard := Turn(request, rx, pr, attempts, old(rx[..]), at, t, heard, old(socket.script));
        if !answer.Response? {
          return Failure(answer), t, request, copies, heard, before;
        }
        ghost var e := Exchange(request, copies, answer.bytes);
        ChainGrows(t, first, old(sequence), attempts, e);
        LogMoves(old(socket.log), t, e);
        if !Continues(answer.bytes) {
          t := t + [e];
          NoCopies(socket.log, request);
          r := if answer.bytes[0] == ID_ERROR then TargetError(pr.errorText) else Ok(pr.total);
          return r, t, request, 0, heard, socket.script;
        }
        PromptIsNext(t, first, old(sequence), e, sequence);
        request := Header(answer.bytes[0], sequence, FLAG_NONE);
        t := t + [e];
      }
    }

    /** One exchange; if the request is answered, it counts, and the data or the error text is kept. */
    method Turn(request: seq<Byte>, rx: array<Byte>, pr: Progress, attempts: nat, ghost rx0: seq<Byte>, ghost at: nat,
                ghost t: seq<Exchange>, ghost heard: seq<seq<Happening>>, ghost script: seq<Happening>)
      returns (a: Answer, pr': Progress, ghost copies: nat, ghost heard': seq<seq<Happening>>)
      requires rx.Length == |rx0| && Tracks(pr, rx[..], rx0, at, t)
      requires Heard(t, heard, script, socket.script, attempts, rxPacketSize)
      modifies this`sequence, socket, rx
      ensures (a, copies, socket.script) == Transacted(request, old(socket.script), attempts, rxPacketSize)
      ensures socket.log == old(socket.log) + Repeat(request, copies) && copies <= attempts
      ensures a.NoAnswer? ==> copies == attempts
      ensures a.Broken? || a.TooShort? ==> copies > 0
      ensures a.Unsent? ==> copies < attempts
      ensures !a.Response? ==> sequence == old(sequence) && rx[..] == old(rx[..]) && heard' == heard
      ensures a.Response? ==>
                && Matches(request, a.bytes) && copies > 0 && |socket.script| < |old(socket.script)|
                && sequence == old(sequence) + 1
                && Tracks(pr', rx[..], rx0, at, t + [Exchange(request, copies, a.bytes)])
                && Heard(t + [Exchange(request, copies, a.bytes)], heard', script, socket.script, attempts,
                         rxPacketSize)
    {
      ghost var before := socket.script;
      a, copies := Transact(request, attempts);
      pr', heard' := pr, heard;
      if a.Response? {
        sequence := sequence + 1;
        ghost var e := Exchange(request, copies, a.bytes);
        ghost var seen := SeenBy(request, before, attempts, rxPacketSize, e, socket.script);
        HeardGrows(t, heard, script, before, e, seen, socket.script, attempts, rxPacketSize);
        heard' := heard + [seen];
        pr' := Absorb(rx, pr, a.bytes, rx0, at, t, e);
      }
    }

    /** Sends the next chunk, with the continuation flag if there are more. */
    method SendChunk(id: Byte, rest: seq<Byte>, rx: array<Byte>, total: nat, attempts: nat,
                     ghost chunks: seq<seq<Byte>>, ghost convs: seq<seq<Exchange>>, ghost e: Effect,
                     ghost heard: seq<seq<Happening>>, ghost script: seq<Happening>)
      returns (r: Result, ghost t: seq<Exchange>, ghost pending: seq<Byte>, ghost copies: nat, ghost e': Effect,
               ghost heard': seq<seq<Happening>>, ghost before: seq<Happening>)
      requires Valid() && |convs| < |chunks| && chunks[|convs|..] == Chunks(rest, maxDataLength)
      requires e == Effect(e.start, sequence, e.log0, socket.log, e.rx0, rx[..])
      requires Heard(Flatten(convs), heard, script, socket.script, attempts, rxPacketSize)
      modifies this`sequence, socket, rx
      ensures e' == Effect(e.start, sequence, e.log0, socket.log, e.rx0, rx[..])
      ensures ChunkEffect(t, pending, copies, id, chunks, |convs|, attempts, total, e, e')
      ensures Outcome(r, t, copies, attempts)
      ensures Heard(Flatten(convs) + t, heard', script, before, attempts, rxPacketSize)
      ensures Ends(r, pending, copies, before, socket.script, attempts, rxPacketSize)
      ensures Flatten(convs + [t]) == Flatten(convs) + t
    {
      ghost var k, middle := |convs|, socket.script;
      ChunkAt(chunks, k, rest, maxDataLength);
      var request := if |rest| > maxDataLength
        then Header(id, sequence, FLAG_CONTINUATION) + rest[..maxDataLength]
        else Header(id, sequence, FLAG_NONE) + rest;
      assert request == Request(id, chunks, e.sequence, k);
      r, t, pending, copies, heard', before := SendSinglePacket(request, rx, Advance(0, total, rx.Length), attempts);
      e' := Effect(e.start, sequence, e.log0, socket.log, e.rx0, rx[..]);
      HeardConcat(Flatten(convs), heard, script, middle, t, heard', before, attempts, rxPacketSize);
      heard' := heard + heard';
      FlattenSnoc(convs, t);
    }

    /**
     * SendData: one packet after the other.  On success every chunk went over and the result counts all
     * the data that came back, of which the buffer holds what fits; a failure within a chunk leaves the
     * whole chunks before it and the part of it that was done.
     */
    method SendData(id: Byte, tx: seq<Byte>, rx: array<Byte>, attempts: nat)
      returns (r: Result, ghost convs: seq<seq<Exchange>>, ghost t: seq<Exchange>, ghost pending: seq<Byte>,
               ghost copies: nat, ghost heard: seq<seq<Happening>>, ghost before: seq<Happening>)
      requires Valid()
      modifies this`sequence, socket, rx
      ensures r == SocketClosed <==> closed
      ensures r == SocketClosed ==> unchanged(this) && unchanged(socket) && unchanged(rx)
      ensures r.Ok? ==>
                && |convs| == |Chunks(tx, maxDataLength)|
                && Sending(convs, id, Chunks(tx, maxDataLength), attempts,
                           Effect(old(sequence), sequence, old(socket.log), socket.log, old(rx[..]), rx[..]), r.total)
      ensures r.Ok? ==> Heard(Flatten(convs), heard, old(socket.script), socket.script, attempts, rxPacketSize)
      ensures !r.Ok? && r != SocketClosed ==>
                && Heard(Flatten(convs) + t, heard, old(socket.script), before, attempts, rxPacketSize)
                && Ends(r, pending, copies, before, socket.script, attempts, rxPacketSize)
      ensures !r.Ok? && r != SocketClosed ==>
                && Outcome(r, t, copies, attempts)
                && Stopped(convs, t, pending, copies, id, Chunks(tx, maxDataLength), attempts,
                           Effect(old(sequence), sequence, old(socket.log), socket.log, old(rx[..]), rx[..]))
    {
      convs, t, pending, copies, heard, before := [], [], [], 0, [], socket.script;
      if closed {
        return SocketClosed, convs, t, pending, copies, heard, before;
      }
      NothingYet(socket.log, socket.script, attempts, rxPacketSize);
      ghost var chunks := Chunks(tx, maxDataLength);
      ghost var e := Effect(sequence, sequence, socket.log, socket.log, rx[..], rx[..]);
      SendingStarts(id, chunks, attempts, e);
      var total: nat, rest, more := 0, tx, true;
      while more
        invariant e == Effect(old(sequence), sequence, old(socket.log), socket.log, old(rx[..]), rx[..])
        invariant Sending(convs, id, chunks, attempts, e, total)
        invariant Heard(Flatten(convs), heard, old(socket.script), socket.script, attempts, rxPacketSize)
        invariant if more then |convs| < |chunks| && chunks[|convs|..] == Chunks(rest, maxDataLength)
                  else |convs| == |chunks|
        decreases more, |rest|
      {
        ChunkAt(chunks, |convs|, rest, maxDataLength);
        ghost var e';
        r, t, pending, copies, e', heard, before :=
          SendChunk(id, rest, rx, total, attempts, chunks, convs, e, heard, old(socket.script));
        if !r.Ok? {
          SendingStops(convs, t, pending, copies, id, chunks, attempts, e, e', total);
          return;
        }
        SendingGrows(convs, t, pending, id, chunks, attempts, e, e', total);
        convs, e, total := convs + [t], e', total + r.total;
        more := |rest| > maxDataLength;
        rest := if more then rest[maxDataLength..] else [];
      }
      r := Ok(total);
    }

    /** Sends one packet and reads the first bytes of the answer, which must be there. */
    method Ask(id: Byte, tx: seq<Byte>, need: nat, attempts: nat) returns (r: Result, answer: seq<Byte>,
               ghost convs: seq<seq<Exchange>>)
      requires Valid() && need <= 4 && |tx| <= 4
      modifies this`sequence, socket
      ensures r.Ok? || r == Invalid ==>
                && ChunksSent(convs, id, [tx], old(sequence), attempts) && |convs| == 1
                && sequence == old(sequence) + Exchanges(convs, 1)
                && socket.log == old(socket.log) + AllDatagrams(convs, 1)
                && (r == Invalid <==> |AllData(convs, 1)| < need)
      ensures r.Ok? ==> |AllData(convs, |convs|)| >= need && answer == AllData(convs, |convs|)[..need]
    {
      ghost var t, pending, copies, heard, before;
      answer := [];
      var rx := new Byte[4](_ => 0);
      r, convs, t, pending, copies, heard, before := SendData(id, tx, rx, attempts);
      if r.Ok? {
        if r.total < need {
          return Invalid, answer, convs;
        }
        answer := rx[..need];
      }
    }

    /** InitializeProtocol: the query learns the number to go on with, the initialization the packet size. */
    method InitializeProtocol() returns (r: Result, ghost query: seq<seq<Exchange>>, ghost init: seq<seq<Exchange>>)
      requires Valid()
      modifies this, socket
      ensures Valid() && closed == old(closed)
      ensures r.Ok? ==> Initialized(query, init, sequence, maxDataLength, rxPacketSize)
      ensures r.Ok? ==> socket.log == old(socket.log) + AllDatagrams(query, |query|) + AllDatagrams(init, |init|)
      ensures r == Invalid ==> !Acceptable(AllData(query, |query|), AllData(init, |init|))
      ensures !r.Ok? ==> maxDataLength == old(maxDataLength)
    {
      init := [];
      var answer;
      sequence, rxPacketSize := 0, MIN_PACKET_SIZE;
      r, answer, query := Ask(ID_DEVICE_QUERY, [], 2, MAX_CONNECT_ATTEMPTS);
      if !r.Ok? {
        return;
      }
      sequence := ExtractUint16(answer, 0);
      r, answer, init := Ask(ID_INITIALIZATION, INIT_DATA, 4, MAX_TRANSMISSION_ATTEMPTS);
      if !r.Ok? {
        return;
      }
      var version, packetSize := ExtractUint16(answer, 0), ExtractUint16(answer, 2);
      if version < PROTOCOL_VERSION || packetSize < MIN_PACKET_SIZE {
        return Invalid, query, init;
      }
      packetSize := if HOST_MAX_PACKET_SIZE <= packetSize then HOST_MAX_PACKET_SIZE else packetSize;
      maxDataLength, rxPacketSize := packetSize - HEADER_SIZE, packetSize;
    }

    /** Read: an empty packet asks for data; more than the buffer holds is an error. */
    method Read(data: array<Byte>) returns (r: Result, ghost convs: seq<seq<Exchange>>)
      requires Valid()
      modifies this`sequence, socket, data
      ensures r.Ok? || r == Invalid ==>
                && ChunksSent(convs, ID_FASTBOOT, [[]], old(sequence), MAX_TRANSMISSION_ATTEMPTS) && |convs| == 1
                && sequence == old(sequence) + Exchanges(convs, 1)
                && socket.log == old(socket.log) + AllDatagrams(convs, 1)
                && (r == Invalid <==> |AllData(convs, 1)| > data.Length)
      ensures r.Ok? ==> r.total <= data.Length && data[..r.total] == AllData(convs, |convs|)
      ensures r.Ok? ==> data[r.total..] == old(data[..])[r.total..]
    {
      ghost var t, pending, copies, heard, before;
      r, convs, t, pending, copies, heard, before := SendData(ID_FASTBOOT, [], data, MAX_TRANSMISSION_ATTEMPTS);
      if r.Ok? {
        if r.total > data.Length {
          return Invalid, convs;
        }
        assert data[..] == AllData(convs, 1) + old(data[..])[r.total..];
      }
    }

    /** Write: everything goes over, and nothing but empty acknowledgements may come back. */
    method Write(data: seq<Byte>) returns (r: Result, ghost convs: seq<seq<Exchange>>)
      requires Valid()
      modifies this`sequence, socket
      ensures r.Ok? || r == Invalid ==>
                && ChunksSent(convs, ID_FASTBOOT, Chunks(data, maxDataLength), old(sequence), MAX_TRANSMISSION_ATTEMPTS)
                && |convs| == |Chunks(data, maxDataLength)|
                && sequence == old(sequence) + Exchanges(convs, |convs|)
                && socket.log == old(socket.log) + AllDatagrams(convs, |convs|)
                && (r == Invalid <==> AllData(convs, |convs|) != [])
      ensures r.Ok? ==> r.total == |data|
    {
      ghost var t, pending, copies, heard, before;
      var rx := new Byte[0];
      r, convs, t, pending, copies, heard, before := SendData(ID_FASTBOOT, data, rx, MAX_TRANSMISSION_ATTEMPTS);
      if r.Ok? {
        r := if r.total > 0 then Invalid else Ok(|data|);
      }
    }
  }

  const INIT_DATA: seq<Byte> := [PROTOCOL_VERSION / 256, PROTOCOL_VERSION % 256,
                                 HOST_MAX_PACKET_SIZE / 256, HOST_MAX_PACKET_SIZE % 256]

  function ExtractUint16(b: seq<Byte>, at: nat): (n: nat)
    requires at + 2 <= |b|
    ensures n < UdpSystem.SEQUENCES && n / 256 == b[at] && n % 256 == b[at + 1]
  {
    var high: nat := b[at];
    high * 256 + b[at + 1]
  }

  /** The answers the host goes on with. */
  predicate Acceptable(query: seq<Byte>, init: seq<Byte>) {
    && |query| >= 2 && |init| >= 4
    && ExtractUint16(init, 0) >= PROTOCOL_VERSION && ExtractUint16(init, 2) >= MIN_PACKET_SIZE
  }

  ghost predicate Initialized(query: seq<seq<Exchange>>, init: seq<seq<Exchange>>, sequence: nat, maxData: nat,
                              rxSize: nat) {
    && ChunksSent(query, ID_DEVICE_QUERY, [[]], 0, MAX_CONNECT_ATTEMPTS) && |query| == 1
    && Acceptable(AllData(query, |query|), AllData(init, |init|))
    && var first := ExtractUint16(AllData(query, |query|), 0);
    && ChunksSent(init, ID_INITIALIZATION, [INIT_DATA], first, MAX_TRANSMISSION_ATTEMPTS) && |init| == 1
    && sequence == first + Exchanges(init, |init|)
    && var size := ExtractUint16(AllData(init, |init|), 2);
    && maxData + HEADER_SIZE == rxSize
    && rxSize == if size < HOST_MAX_PACKET_SIZE then size else HOST_MAX_PACKET_SIZE
  }

  // ---- what the datagrams of a call say

  /** The payloads of the first requests of the chunks. */
  ghost function Payloads(convs: seq<seq<Exchange>>, n: nat): seq<seq<Byte>>
    requires n <= |convs| && forall k :: 0 <= k < n ==> convs[k] != [] && |convs[k][0].request| >= HEADER_SIZE
  {
    if n == 0 then [] else Payloads(convs, n - 1) + [convs[n - 1][0].request[HEADER_SIZE..]]
  }

  function NumberOf(packet: seq<Byte>): nat
    requires |packet| >= HEADER_SIZE
  {
    ExtractUint16(packet, 2)
  }

  lemma LowDigit(n: nat)
    ensures n % 0x1_0000 % 256 == n % 256
  {
  }

  lemma NumberOfHeader(id: Byte, n: nat, flag: Byte, rest: seq<Byte>)
    ensures NumberOf(Header(id, n, flag) + rest) == n % UdpSystem.SEQUENCES
  {
    var p, m := Header(id, n, flag) + rest, n % 0x1_0000;
    LowDigit(n);
    assert p[2] == m / 256 && p[3] == m % 256;
  }

  /**
   * Exchange i of chunk k: the number is the running count of exchanges, whatever the retransmissions;
   * the target answered under that number and the id of the call and reported no error; only the first
   * request of a chunk carries data, and its continuation flag says that more chunks follow.
   */
  lemma ExchangesAreNumbered(convs: seq<seq<Exchange>>, id: Byte, chunks: seq<seq<Byte>>, start: nat, attempts: nat,
                             k: nat, i: nat)
    requires ChunksSent(convs, id, chunks, start, attempts) && k < |convs| && i < |convs[k]|
    ensures var x := convs[k][i];
            && |x.request| >= HEADER_SIZE && |x.response| >= HEADER_SIZE && 1 <= x.tries <= attempts
            && NumberOf(x.request) == NumberOf(x.response) == UdpSystem.Number(start, Exchanges(convs, k) + i)
            && x.request[0] == x.response[0] == id && !IsError(x.response)
            && x.request[HEADER_SIZE..] == (if i == 0 then chunks[k] else [])
            && (Continues(x.request) <==> i == 0 && k < |chunks| - 1)
            && (Continues(x.response) <==> i < |convs[k]| - 1)
  {
    assert ChunkSent(convs, id, chunks, start, attempts, k);
    AnsweredExchange(convs[k], id, chunks, k, start + Exchanges(convs, k), attempts, i);
    NumberShift(start, Exchanges(convs, k), i);
  }

  lemma NumberShift(base: nat, m: nat, n: nat)
    ensures UdpSystem.Number(base + m, n) == UdpSystem.Number(base, m + n)
  {
  }

  lemma AnsweredExchange(t: seq<Exchange>, id: Byte, chunks: seq<seq<Byte>>, k: nat, first: nat, attempts: nat, i: nat)
    requires k < |chunks| && Answered(t, id, chunks, k, first, attempts) && i < |t|
    ensures |t[i].request| >= HEADER_SIZE && |t[i].response| >= HEADER_SIZE && 1 <= t[i].tries <= attempts
    ensures NumberOf(t[i].request) == NumberOf(t[i].response) == UdpSystem.Number(first, i)
    ensures t[i].request[0] == t[i].response[0] == id && !IsError(t[i].response)
    ensures t[i].request[HEADER_SIZE..] == if i == 0 then chunks[k] else []
    ensures Continues(t[i].request) <==> i == 0 && k < |chunks| - 1
    ensures Continues(t[i].response) <==> i < |t| - 1
  {
    var request := Request(id, chunks, first, k);
    assert Link(t, request, first, attempts, i);
    NoErrorAccepted(t, request, first, attempts, i);
    if i == 0 {
      NumberOfHeader(id, first, if k < |chunks| - 1 then FLAG_CONTINUATION else FLAG_NONE, chunks[k]);
    } else {
      NoErrorAccepted(t, request, first, attempts, i - 1);
      NumberOfHeader(id, first + i, FLAG_NONE, []);
      assert t[i].request == Header(id, first + i, FLAG_NONE) + [];
    }
    if i < |t| - 1 {
      assert Link(t, request, first, attempts, i + 1);
    }
  }

  /** With the retransmissions left out, the payloads sent are the data, cut as the packet size demands. */
  lemma PayloadsAreTheData(convs: seq<seq<Exchange>>, id: Byte, tx: seq<Byte>, max: nat, start: nat, attempts: nat)
    requires max > 0 && ChunksSent(convs, id, Chunks(tx, max), start, attempts) && |convs| == |Chunks(tx, max)|
    ensures forall k :: 0 <= k < |convs| ==> convs[k] != [] && |convs[k][0].request| >= HEADER_SIZE
    ensures Payloads(convs, |convs|) == Chunks(tx, max)
    ensures Flatten(Payloads(convs, |convs|)) == tx
  {
    var chunks := Chunks(tx, max);
    forall k | 0 <= k < |convs|
      ensures convs[k] != [] && |convs[k][0].request| >= HEADER_SIZE && convs[k][0].request[HEADER_SIZE..] == chunks[k]
    {
      assert ChunkSent(convs, id, chunks, start, attempts, k);
      AnsweredExchange(convs[k], id, chunks, k, start + Exchanges(convs, k), attempts, 0);
    }
    PayloadsAre(convs, chunks, |convs|);
    ChunksConcatenate(tx, max);
  }

  lemma {:induction false} PayloadsAre(convs: seq<seq<Exchange>>, chunks: seq<seq<Byte>>, n: nat)
    requires n <= |convs| == |chunks|
    requires forall k :: 0 <= k < |convs| ==> convs[k] != [] && |convs[k][0].request| >= HEADER_SIZE
    requires forall k :: 0 <= k < |convs| ==> convs[k][0].request[HEADER_SIZE..] == chunks[k]
    ensures Payloads(convs, n) == chunks[..n]
  {
    if n > 0 {
      PayloadsAre(convs, chunks, n - 1);
    }
  }

  /** The next chunk, and what it leaves. */
  lemma ChunkAt(chunks: seq<seq<Byte>>, k: nat, rest: seq<Byte>, max: nat)
    requires max > 0 && k < |chunks| && chunks[k..] == Chunks(rest, max)
    ensures k < |chunks| - 1 <==> |rest| > max
    ensures chunks[k] == if |rest| > max then rest[..max] else rest
    ensures |rest| > max ==> chunks[k + 1..] == Chunks(rest[max..], max)
  {
    assert chunks[k..][0] == chunks[k] && chunks[k..][1..] == chunks[k + 1..];
  }

  function Failure(a: Answer): Result
    requires !a.Response?
  {
    match a
    case NoAnswer => NoResponse
    case Broken => ReceiveFailed
    case TooShort => IncompleteHeader
    case Unsent => SendFailed
  }

  /** What each result says about the chain of exchanges that led to it. */
  ghost predicate Outcome(r: Result, t: seq<Exchange>, copies: nat, attempts: nat) {
    match r
    case Ok(total) => Complete(t) && !IsError(t[|t| - 1].response) && copies == 0 && total == |DataOf(t)|
    case TargetError(text) => Complete(t) && IsError(t[|t| - 1].response) && copies == 0 && text == ErrorText(t)
    case NoResponse => !Complete(t) && copies == attempts
    case SendFailed => !Complete(t) && copies < attempts
    case ReceiveFailed => !Complete(t) && 0 < copies
    case IncompleteHeader => !Complete(t) && 0 < copies
    case _ => false
  }
}
