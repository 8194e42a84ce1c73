/** The adb wire format: a 24-byte message header followed by its payload, and its one-pass parse. */
module Framing {
  import opened Bytes

  const MAX_PAYLOAD: nat := 1024 * 1024
  const HEADER_SIZE: nat := 24

  datatype Message = Message(command: Uint32, arg0: Uint32, arg1: Uint32,
                             dataLength: Uint32, dataCheck: Uint32, magic: Uint32)

  datatype Packet = Packet(msg: Message, payload: seq<Byte>)

  function EncodeHeader(m: Message): (r: seq<Byte>)
    ensures |r| == HEADER_SIZE
  {
    EncodeLE32(m.command) + EncodeLE32(m.arg0) + EncodeLE32(m.arg1)
    + EncodeLE32(m.dataLength) + EncodeLE32(m.dataCheck) + EncodeLE32(m.magic)
  }

  function DecodeHeader(s: seq<Byte>): (m: Message)
    requires |s| == HEADER_SIZE
  {
    Message(DecodeLE32(s[0..4]), DecodeLE32(s[4..8]), DecodeLE32(s[8..12]),
            DecodeLE32(s[12..16]), DecodeLE32(s[16..20]), DecodeLE32(s[20..24]))
  }

  lemma HeaderRoundTrip(m: Message)
    ensures DecodeHeader(EncodeHeader(m)) == m
  {
    var s := EncodeHeader(m);
    assert s[0..4] == EncodeLE32(m.command);
    assert s[4..8] == EncodeLE32(m.arg0);
    assert s[8..12] == EncodeLE32(m.arg1);
    assert s[12..16] == EncodeLE32(m.dataLength);
    assert s[16..20] == EncodeLE32(m.dataCheck);
    assert s[20..24] == EncodeLE32(m.magic);
  }

  /** Every 24 bytes are the header of some message. */
  lemma HeaderIsOnto(s: seq<Byte>)
    requires |s| == HEADER_SIZE
    ensures EncodeHeader(DecodeHeader(s)) == s
  {
    EncodeDecodeLE32(s[0..4]);
    EncodeDecodeLE32(s[4..8]);
    EncodeDecodeLE32(s[8..12]);
    EncodeDecodeLE32(s[12..16]);
    EncodeDecodeLE32(s[16..20]);
    EncodeDecodeLE32(s[20..24]);
  }

  /** What a packet looks like on the wire. */
  function Frame(p: Packet): seq<Byte> {
    EncodeHeader(p.msg) + p.payload
  }

  function Frames(ps: seq<Packet>): seq<Byte> {
    if ps == [] then [] else Frame(ps[0]) + Frames(ps[1..])
  }

  lemma FramesCons(p: Packet, rest: seq<Packet>)
    ensures Frames([p] + rest) == Frame(p) + Frames(rest)
  {
    assert ([p] + rest)[1..] == rest;
  }

  lemma {:induction false} FramesConcat(a: seq<Packet>, b: seq<Packet>)
    ensures Frames(a + b) == Frames(a) + Frames(b)
  {
    if a == [] {
      assert a + b == b;
    } else {
      var (first, rest) := (Frame(a[0]), a[1..]);
      FramesConcat(rest, b);
      assert a + b == [a[0]] + (rest + b);
      FramesCons(a[0], rest + b);
      ConcatAssoc(first, Frames(rest), Frames(b));
    }
  }

  predicate WellFormed(p: Packet, limit: nat) {
    p.msg.dataLength == |p.payload| <= limit
  }

  /** The stream starts with a header that asks for more than `limit` bytes. */
  predicate StartsOversized(s: seq<Byte>, limit: nat) {
    |s| >= HEADER_SIZE && DecodeHeader(s[..HEADER_SIZE]).dataLength > limit
  }

  /** The stream starts with a whole frame. */
  predicate StartsWithFrame(s: seq<Byte>, limit: nat) {
    && |s| >= HEADER_SIZE
    && DecodeHeader(s[..HEADER_SIZE]).dataLength <= limit
    && HEADER_SIZE + DecodeHeader(s[..HEADER_SIZE]).dataLength <= |s|
  }

  function FirstPacket(s: seq<Byte>, limit: nat): (p: Packet)
    requires StartsWithFrame(s, limit)
    ensures WellFormed(p, limit)
  {
    var m := DecodeHeader(s[..HEADER_SIZE]);
    Packet(m, s[HEADER_SIZE..HEADER_SIZE + m.dataLength])
  }

  function AfterFirst(s: seq<Byte>, limit: nat): (r: seq<Byte>)
    requires StartsWithFrame(s, limit)
    ensures |r| < |s|
  {
    s[HEADER_SIZE + DecodeHeader(s[..HEADER_SIZE]).dataLength..]
  }

  /** A stream that starts with a frame is that frame and the rest. */
  lemma FirstFrame(s: seq<Byte>, limit: nat)
    requires StartsWithFrame(s, limit)
    ensures s == Frame(FirstPacket(s, limit)) + AfterFirst(s, limit)
  {
    HeaderIsOnto(s[..HEADER_SIZE]);
  }

  /** A frame put in front of a stream is what the stream then starts with. */
  lemma FrameFirst(p: Packet, rest: seq<Byte>, limit: nat)
    requires WellFormed(p, limit)
    ensures StartsWithFrame(Frame(p) + rest, limit)
    ensures FirstPacket(Frame(p) + rest, limit) == p && AfterFirst(Frame(p) + rest, limit) == rest
  {
    var s := Frame(p) + rest;
    assert s[..HEADER_SIZE] == EncodeHeader(p.msg);
    HeaderRoundTrip(p.msg);
  }

  /** Behind a header, a whole frame is there once its payload is. */
  lemma HeaderFirst(m: Message, t: seq<Byte>, limit: nat)
    ensures StartsWithFrame(EncodeHeader(m) + t, limit) <==> m.dataLength <= limit && m.dataLength <= |t|
  {
    HeaderRoundTrip(m);
    assert (EncodeHeader(m) + t)[..HEADER_SIZE] == EncodeHeader(m);
  }

  /** The packets of a byte stream, what is left of it, and whether a header asked for too much. */
  datatype Parsed = Parsed(packets: seq<Packet>, pending: seq<Byte>, oversized: bool)

  /** The plain one-pass parse of a byte stream with payloads of at most `limit` bytes. */
  function Parse(s: seq<Byte>, limit: nat): Parsed {
    if StartsOversized(s, limit) then Parsed([], [], true)
    else if !StartsWithFrame(s, limit) then Parsed([], s, false)
    else Prepend(FirstPacket(s, limit), Parse(AfterFirst(s, limit), limit))
  }

  function Prepend(p: Packet, rest: Parsed): Parsed {
    rest.(packets := [p] + rest.packets)
  }

  function Continue(first: Parsed, rest: Parsed): Parsed {
    rest.(packets := first.packets + rest.packets)
  }

  lemma PrependContinue(p: Packet, first: Parsed, rest: Parsed)
    ensures Prepend(p, Continue(first, rest)) == Continue(Prepend(p, first), rest)
  {
    ConcatAssoc([p], first.packets, rest.packets);
  }

  /** One frame in front of a stream is one packet in front of its parse. */
  lemma ParseFrameFirst(p: Packet, rest: seq<Byte>, limit: nat)
    requires WellFormed(p, limit)
    ensures Parse(Frame(p) + rest, limit) == Prepend(p, Parse(rest, limit))
  {
    FrameFirst(p, rest, limit);
  }

  /** The four ways a stream can go on, given the bytes it starts with. */
  lemma ParseByHeader(h: seq<Byte>, t: seq<Byte>, limit: nat)
    requires |h| == HEADER_SIZE
    ensures var m := DecodeHeader(h);
            && (m.dataLength > limit ==> Parse(h + t, limit) == Parsed([], [], true))
            && (|t| < m.dataLength <= limit ==> Parse(h + t, limit) == Parsed([], h + t, false))
            && (m.dataLength <= limit && m.dataLength <= |t|
                ==> Parse(h + t, limit) == Prepend(Packet(m, t[..m.dataLength]), Parse(t[m.dataLength..], limit)))
  {
    var s := h + t;
    assert s[..HEADER_SIZE] == h;
    var m := DecodeHeader(h);
    if StartsWithFrame(s, limit) {
      var end := HEADER_SIZE + m.dataLength;
      assert s[HEADER_SIZE..end] == t[..m.dataLength];
      assert s[end..] == t[m.dataLength..];
    }
  }

  /** A header and exactly its payload, however the bytes arrived, are one packet. */
  lemma ParseFilled(h: seq<Byte>, done: seq<Byte>, more: seq<Byte>, payload: seq<Byte>, rest: seq<Byte>, limit: nat)
    requires |h| == HEADER_SIZE && |payload| == DecodeHeader(h).dataLength <= limit
    requires done + more == payload + rest
    ensures Parse((h + done) + more, limit) == Prepend(Packet(DecodeHeader(h), payload), Parse(rest, limit))
  {
    ParseByHeader(h, payload + rest, limit);
    ConcatAssoc(h, done, more);
    SplitAt(payload, rest);
  }

  /** A header and less than its payload are still pending. */
  lemma ParseUnfilled(h: seq<Byte>, done: seq<Byte>, more: seq<Byte>, limit: nat)
    requires |h| == HEADER_SIZE && |done + more| < DecodeHeader(h).dataLength <= limit
    ensures Parse((h + done) + more, limit) == Parsed([], h + (done + more), false)
  {
    ParseByHeader(h, done + more, limit);
    ConcatAssoc(h, done, more);
  }

  /** What one parse leaves, a second parse leaves again. */
  lemma {:induction false} PendingIsStable(s: seq<Byte>, limit: nat)
    requires !Parse(s, limit).oversized
    ensures Parse(Parse(s, limit).pending, limit) == Parsed([], Parse(s, limit).pending, false)
  {
    if StartsWithFrame(s, limit) {
      PendingIsStable(AfterFirst(s, limit), limit);
    }
  }

  /** A parse can be suspended at any byte and resumed on what it left. */
  lemma {:induction false} ParseResumes(s: seq<Byte>, t: seq<Byte>, limit: nat)
    ensures var p := Parse(s, limit);
            Parse(s + t, limit) == if p.oversized then p else Continue(p, Parse(p.pending + t, limit))
    decreases |s|
  {
    if StartsOversized(s, limit) {
      assert (s + t)[..HEADER_SIZE] == s[..HEADER_SIZE];
    } else if StartsWithFrame(s, limit) {
      var (first, rest) := (FirstPacket(s, limit), AfterFirst(s, limit));
      FirstFrame(s, limit);
      ConcatAssoc(Frame(first), rest, t);
      ParseFrameFirst(first, rest + t, limit);
      ParseResumes(rest, t, limit);
      PrependContinue(first, Parse(rest, limit), Parse(Parse(rest, limit).pending + t, limit));
    }
  }

  /** A parse that is not cut short by an oversized header neither loses nor invents a byte. */
  lemma {:induction false} ParseIsLossless(s: seq<Byte>, limit: nat)
    requires !Parse(s, limit).oversized
    ensures Frames(Parse(s, limit).packets) + Parse(s, limit).pending == s
    ensures forall p :: p in Parse(s, limit).packets ==> WellFormed(p, limit)
    decreases |s|
  {
    if StartsWithFrame(s, limit) {
      var (first, after) := (FirstPacket(s, limit), AfterFirst(s, limit));
      FirstFrame(s, limit);
      ParseIsLossless(after, limit);
      var rest := Parse(after, limit);
      FramesCons(first, rest.packets);
      ConcatAssoc(Frame(first), Frames(rest.packets), rest.pending);
    }
  }

  /** Packets written back to back come back in front of whatever the rest parses to. */
  lemma {:induction false} ParseFrames(ps: seq<Packet>, tail: seq<Byte>, limit: nat)
    requires forall p :: p in ps ==> WellFormed(p, limit)
    ensures Parse(Frames(ps) + tail, limit) == Continue(Parsed(ps, [], false), Parse(tail, limit))
  {
    if ps == [] {
      assert Frames(ps) + tail == tail;
    } else {
      var (first, rest) := (ps[0], ps[1..]);
      ParseFrames(rest, tail, limit);
      ConcatAssoc(Frame(first), Frames(rest), tail);
      ParseFrameFirst(first, Frames(rest) + tail, limit);
      PrependContinue(first, Parsed(rest, [], false), Parse(tail, limit));
      assert [first] + rest == ps;
    }
  }
}
