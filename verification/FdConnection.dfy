/** The non-blocking connection: frames out of a growing read buffer, frames into a write buffer. */
module FdConnections {
  import opened Bytes
  import opened FdIo
  import opened Framing
  import opened IoVectors

  /** The largest length a header can name, so a parse with this limit never gives up. */
  const NO_LIMIT: nat := TWO32 - 1

  /** Stopped is the process-ending CHECK on an empty write buffer. */
  datatype WriteResult = Error | Completed | TryAgain | Stopped

  datatype MaybeHeader = NoHeader | Header(msg: Message)

  /** `after` is one packet further along `all` than `before`, or no further because `all` ends there. */
  ghost predicate IsNextDelivery(before: seq<Packet>, after: seq<Packet>, all: seq<Packet>) {
    && before <= after <= all
    && |after| == if |before| < |all| then |before| + 1 else |before|
  }

  /** No packet can be taken off the undelivered bytes, and the parse has none to offer. */
  lemma NothingToDeliver(before: seq<Packet>, header: MaybeHeader, buffer: seq<Byte>)
    requires forall p :: p in before ==> WellFormed(p, NO_LIMIT)
    requires if header.NoHeader? then |buffer| < HEADER_SIZE else |buffer| < header.msg.dataLength
    ensures IsNextDelivery(before, before, Parse(Frames(before) + Joined(header, buffer), NO_LIMIT).packets)
  {
    if header.Header? {
      HeaderFirst(header.msg, buffer, NO_LIMIT);
      HeaderRoundTrip(header.msg);
      assert Joined(header, buffer)[..HEADER_SIZE] == EncodeHeader(header.msg);
    }
    ParseFrames(before, Joined(header, buffer), NO_LIMIT);
  }

  /** A packet taken off the undelivered bytes is the next one of the parse. */
  lemma OneToDeliver(before: seq<Packet>, p: Packet, rest: seq<Byte>)
    requires WellFormed(p, NO_LIMIT) && forall q :: q in before ==> WellFormed(q, NO_LIMIT)
    ensures var received := Frames(before) + Joined(Header(p.msg), p.payload + rest);
            IsNextDelivery(before, before + [p], Parse(received, NO_LIMIT).packets)
  {
    ConcatAssoc(EncodeHeader(p.msg), p.payload, rest);
    ParseFrameFirst(p, rest, NO_LIMIT);
    ParseFrames(before, Frame(p) + rest, NO_LIMIT);
  }

  /** A header already taken off the buffer stands in front of it. */
  function Joined(header: MaybeHeader, buffer: seq<Byte>): seq<Byte> {
    match header
    case NoHeader => buffer
    case Header(m) => EncodeHeader(m) + buffer
  }

  /** Moving a packet from the undelivered bytes to the delivered packets keeps the received bytes. */
  lemma DeliveryConserves(before: seq<Packet>, p: Packet, rest: seq<Byte>)
    ensures Frames(before) + Joined(Header(p.msg), p.payload + rest) == Frames(before + [p]) + rest
  {
    FramesConcat(before, [p]);
    assert Frames([p]) == Frame(p);
    ConcatAssoc(EncodeHeader(p.msg), p.payload, rest);
    ConcatAssoc(Frames(before), Frame(p), rest);
  }

  class NonblockingFdConnection {
    const readBuffer: IOVector
    var readHeader: MaybeHeader
    const writeBuffer: IOVector
    var writable: bool

    /** The packets handed to the transport, in order. */
    var delivered: seq<Packet>

    /** All bytes read from the fd, all frames given to Write, all bytes the fd took. */
    ghost var received: seq<Byte>
    ghost var framed: seq<Byte>
    ghost var taken: seq<Byte>
    ghost var writeError: bool

    /** The received bytes that no delivered packet accounts for. */
    ghost function Undelivered(): seq<Byte>
      requires readBuffer.Valid()
      reads this, readBuffer
    {
      Joined(readHeader, readBuffer.Bytes())
    }

    ghost predicate ReadValid()
      reads this, readBuffer
    {
      && readBuffer.Valid() && readBuffer.FrontInBounds()
      && (forall p :: p in delivered ==> WellFormed(p, NO_LIMIT))
      && received == Frames(delivered) + Undelivered()
    }

    ghost predicate WriteValid()
      reads this, writeBuffer
    {
      && writeBuffer.Valid() && writeBuffer.FrontInBounds()
      && taken + writeBuffer.Bytes() == framed
      && (!writeError ==> (writable <==> writeBuffer.Bytes() == []))
    }

    ghost predicate Valid()
      reads this, readBuffer, writeBuffer
    {
      readBuffer != writeBuffer && ReadValid() && WriteValid()
    }

    constructor ()
      ensures Valid() && fresh(readBuffer) && fresh(writeBuffer)
      ensures delivered == [] && received == [] && framed == [] && taken == [] && !writeError
    {
      readBuffer := new IOVector();
      writeBuffer := new IOVector();
      readHeader, writable, delivered := NoHeader, true, [];
      received, framed, taken, writeError := [], [], [], false;
    }

    /** What has been delivered is a prefix of the plain parse of what has been received. */
    lemma DeliveredIsPrefix()
      requires ReadValid()
      ensures Parse(received, NO_LIMIT).packets == delivered + Parse(Undelivered(), NO_LIMIT).packets
      ensures delivered <= Parse(received, NO_LIMIT).packets
    {
      ParseFrames(delivered, Undelivered(), NO_LIMIT);
    }

    /**
     * The POLLIN branch of the run loop.  Exactly one packet is delivered if the bytes received so
     * far hold one that was not delivered yet, and none otherwise.
     */
    method ReadReady(outcome: ReadOutcome) returns (ok: bool)
      requires Valid()
      requires outcome.Data? ==> 0 < |outcome.bytes| <= MAX_PAYLOAD
      modifies this`received, this`readHeader, this`delivered, readBuffer
      ensures Valid() && ok == outcome.Data?
      ensures received == old(received) + if ok then outcome.bytes else []
      ensures !ok ==> delivered == old(delivered)
      ensures ok ==> IsNextDelivery(old(delivered), delivered, Parse(received, NO_LIMIT).packets)
    {
      if !outcome.Data? {
        assert received == received + [];
        return false;
      }
      ReadData(outcome.bytes);
      return true;
    }

    method ReadData(bytes: seq<Byte>)
      requires ReadValid() && |bytes| <= MAX_PAYLOAD
      modifies this`received, this`readHeader, this`delivered, readBuffer
      ensures ReadValid() && received == old(received) + bytes
      ensures IsNextDelivery(old(delivered), delivered, Parse(received, NO_LIMIT).packets)
    {
      BufferRead(bytes);
      TakeHeader();
      ghost var header, buffer := readHeader, readBuffer.Bytes();
      ghost var payload := DeliverOne();
      if delivered == old(delivered) {
        NothingToDeliver(old(delivered), header, buffer);
      } else {
        OneToDeliver(old(delivered), Packet(header.msg, payload), readBuffer.Bytes());
      }
    }

    method BufferRead(bytes: seq<Byte>)
      requires ReadValid() && |bytes| <= MAX_PAYLOAD
      modifies this`received, readBuffer
      ensures ReadValid()
      ensures received == old(received) + bytes && Undelivered() == old(Undelivered()) + bytes
    {
      readBuffer.Append(Block(bytes, seq(MAX_PAYLOAD - |bytes|, _ => 0), 0));
      received := received + bytes;
      if readHeader.Header? {
        ConcatAssoc(EncodeHeader(readHeader.msg), old(readBuffer.Bytes()), bytes);
      }
      ConcatAssoc(Frames(delivered), old(Undelivered()), bytes);
    }

    /** Takes the header off the buffer once it is there; the bytes stay accounted for. */
    method TakeHeader()
      requires ReadValid()
      modifies this`readHeader, readBuffer
      ensures ReadValid() && Undelivered() == old(Undelivered())
      ensures readHeader.NoHeader? ==> |readBuffer.Bytes()| < HEADER_SIZE
    {
      if readHeader.NoHeader? && readBuffer.Size() >= HEADER_SIZE {
        var headerBuf := TakeBytes(HEADER_SIZE);
        readHeader := Header(DecodeHeader(headerBuf));
        HeaderIsOnto(headerBuf);
      }
    }

    /** Delivers the packet at the front of the undelivered bytes, if its payload is there. */
    method DeliverOne() returns (ghost payload: seq<Byte>)
      requires ReadValid()
      modifies this`readHeader, this`delivered, readBuffer
      ensures ReadValid()
      ensures if old(readHeader.NoHeader? || |readBuffer.Bytes()| < readHeader.msg.dataLength)
              then delivered == old(delivered)
              else
                && |payload| == old(readHeader.msg.dataLength)
                && delivered == old(delivered) + [Packet(old(readHeader.msg), payload)]
                && payload + readBuffer.Bytes() == old(readBuffer.Bytes())
    {
      payload := [];
      if readHeader.NoHeader? {
        return;
      }
      var m := readHeader.msg;
      if readBuffer.Size() >= m.dataLength {
        var bytes := TakeBytes(m.dataLength);
        var packet := Packet(m, bytes);
        payload := bytes;
        DeliveryConserves(delivered, packet, readBuffer.Bytes());
        readHeader := NoHeader;
        delivered := delivered + [packet];
      }
    }

    /** Splits bytes off the front of the read buffer and coalesces them. */
    method TakeBytes(length: nat) returns (payload: seq<Byte>)
      requires readBuffer.Valid() && readBuffer.FrontInBounds() && length <= readBuffer.Size()
      modifies readBuffer
      ensures readBuffer.Valid() && readBuffer.FrontInBounds()
      ensures |payload| == length && payload + readBuffer.Bytes() == old(readBuffer.Bytes())
    {
      ghost var all := readBuffer.Bytes();
      var chain := readBuffer.TakeFront(length);
      var block := chain.Coalesce();
      var moved, _ := MoveAssign(block);
      payload := moved.content;
      assert all[..length] + all[length..] == all;
    }

    /** adb_writev of the buffer: what the fd took leaves the buffer, in order. */
    method DispatchWrites(outcome: WriteOutcome) returns (result: WriteResult)
      requires writeBuffer.Valid() && writeBuffer.FrontInBounds() && taken + writeBuffer.Bytes() == framed
      requires outcome.Wrote? ==> outcome.count <= writeBuffer.Size() && outcome.count < TWO32
      modifies this`writable, this`taken, this`writeError, writeBuffer
      ensures result == Stopped <==> old(writeBuffer.Bytes()) == []
      ensures result == Stopped ==> unchanged(this) && unchanged(writeBuffer)
      ensures writeError == (old(writeError) || result == Error)
      ensures writeBuffer.Valid() && writeBuffer.FrontInBounds() && taken + writeBuffer.Bytes() == framed
      ensures result == TryAgain || result == Completed ==> (writable <==> writeBuffer.Bytes() == [])
      ensures result == Completed ==> taken == framed
      ensures result != Stopped ==>
                taken == old(taken) + if outcome.Wrote? then old(writeBuffer.Bytes())[..outcome.count] else []
      ensures result != Stopped ==> (result == Error <==> outcome.WriteFailed? || outcome == Wrote(0))
      ensures outcome == Wrote(|old(writeBuffer.Bytes())|) && outcome.count > 0 ==> result == Completed
      ensures outcome == WouldBlock && old(writeBuffer.Bytes()) != [] ==> result == TryAgain && !writable
    {
      if writeBuffer.Size() == 0 {
        return Stopped;
      }
      match outcome
      case WouldBlock =>
        writable := false;
        return TryAgain;
      case WriteFailed =>
        writeError := true;
        return Error;
      case Wrote(count) =>
        if count == 0 {
          writeError := true;
          return Error;
        }
        ghost var all := writeBuffer.Bytes();
        writeBuffer.DropFront(count);
        taken := taken + all[..count];
        assert all[..count] + all[count..] == all;
        ConcatAssoc(old(taken), all[..count], all[count..]);
        writable := writeBuffer.Size() == 0;
        return if writeBuffer.Size() == 0 then Completed else TryAgain;
    }

    /** Queues a header and its payload, which is appended only if there is one. */
    method BufferFrame(header: seq<Byte>, payload: seq<Byte>)
      requires writeBuffer.Valid() && writeBuffer.FrontInBounds() && taken + writeBuffer.Bytes() == framed
      modifies this`framed, writeBuffer
      ensures writeBuffer.Valid() && writeBuffer.FrontInBounds() && taken + writeBuffer.Bytes() == framed
      ensures writeBuffer.Bytes() == old(writeBuffer.Bytes()) + (header + payload)
      ensures framed == old(framed) + (header + payload)
    {
      ghost var before := writeBuffer.Bytes();
      writeBuffer.Append(BlockOf(header));
      writeBuffer.Append(BlockOf(payload));
      framed := framed + (header + payload);
      ConcatAssoc(before, header, payload);
      ConcatAssoc(taken, before, header + payload);
    }

    /** Frames a packet behind the ones before it and tries to write. */
    method Write(packet: Packet, outcome: WriteOutcome) returns (ok: bool)
      requires Valid()
      requires outcome.Wrote? ==>
                 outcome.count <= |writeBuffer.Bytes()| + HEADER_SIZE + |packet.payload| && outcome.count < TWO32
      modifies this`writable, this`taken, this`framed, this`writeError, writeBuffer
      ensures Valid()
      ensures framed == old(framed) + Frame(packet)
      ensures writeError == (old(writeError) || !ok)
      ensures ok ==> (writable <==> writeBuffer.Bytes() == [])
      ensures outcome == WouldBlock ==> ok && !writable
      ensures outcome == Wrote(|old(writeBuffer.Bytes())| + HEADER_SIZE + |packet.payload|) ==> ok && writable
    {
      BufferFrame(EncodeHeader(packet.msg), packet.payload);
      var result := DispatchWrites(outcome);
      return result != Error;
    }
  }

  /** Two frames back to back parse to their two packets. */
  lemma TwoFrames(p: Packet, q: Packet, tail: seq<Byte>)
    requires WellFormed(p, NO_LIMIT) && WellFormed(q, NO_LIMIT)
    ensures Parse((Frame(p) + Frame(q)) + tail, NO_LIMIT).packets == [p, q] + Parse(tail, NO_LIMIT).packets
  {
    ConcatAssoc(Frame(p), Frame(q), tail);
    ParseFrameFirst(p, Frame(q) + tail, NO_LIMIT);
    ParseFrameFirst(q, tail, NO_LIMIT);
    TwoFirst(p, q, Parse(tail, NO_LIMIT).packets);
  }

  lemma TwoFirst(p: Packet, q: Packet, rest: seq<Packet>)
    ensures [p] + ([q] + rest) == [p, q] + rest
  {
  }

  lemma DeliveryStep(before: seq<Packet>, after: seq<Packet>, all: seq<Packet>)
    requires IsNextDelivery(before, after, all) && |before| < |all|
    ensures after == all[..|before| + 1]
  {
  }

  /**
   * The run loop delivers once per read: of two frames that arrive in one read, the second stays
   * undelivered until more bytes come in, although the parse of what was received has both.
   */
  method SecondFrameWaits(p: Packet, q: Packet, more: seq<Byte>)
    returns (atOnce: seq<Packet>, later: seq<Packet>)
    requires WellFormed(p, MAX_PAYLOAD) && WellFormed(q, MAX_PAYLOAD)
    requires |Frame(p) + Frame(q)| <= MAX_PAYLOAD && 0 < |more| <= MAX_PAYLOAD
    ensures Parse(Frame(p) + Frame(q), NO_LIMIT).packets == [p, q]
    ensures atOnce == [p] && later == [p, q]
  {
    var both := Frame(p) + Frame(q);
    assert both + [] == both;
    TwoFrames(p, q, []);
    TwoFrames(p, q, more);
    atOnce, later := ReadTwice(both, more);
    DeliveryStep([], atOnce, [p, q]);
    DeliveryStep([p], later, [p, q] + Parse(more, NO_LIMIT).packets);
  }

  /** A new connection that reads twice. */
  method ReadTwice(first: seq<Byte>, more: seq<Byte>) returns (atOnce: seq<Packet>, later: seq<Packet>)
    requires 0 < |first| <= MAX_PAYLOAD && 0 < |more| <= MAX_PAYLOAD
    ensures IsNextDelivery([], atOnce, Parse(first, NO_LIMIT).packets)
    ensures IsNextDelivery(atOnce, later, Parse(first + more, NO_LIMIT).packets)
  {
    var c := new NonblockingFdConnection();
    var ok := c.ReadReady(Data(first));
    assert c.received == first;
    atOnce := c.delivered;
    ok := c.ReadReady(Data(more));
    later := c.delivered;
  }

  /**
   * The run loop asks for POLLOUT while the buffer is not empty, but takes the lock later.  When a
   * writer drains the buffer in between, the loop's DispatchWrites meets its CHECK.
   */
  method WriterDrainsBeforeDispatch(p: Packet, q: Packet, outcome: WriteOutcome) returns (result: WriteResult)
    requires |Frame(p) + Frame(q)| < TWO32
    requires outcome == WouldBlock
    ensures result == Stopped
  {
    var c := new NonblockingFdConnection();
    var ok := c.Write(p, WouldBlock);
    var pollOut := !c.writable;
    assert pollOut;
    var n := c.writeBuffer.Size();
    ok := c.Write(q, Wrote(n + HEADER_SIZE + |q.payload|));
    result := c.DispatchWrites(outcome);
  }
}
