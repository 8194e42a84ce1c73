/** The reader that turns USB transfers, cut on any boundary, back into packets. */
module PacketReaders {
  import opened Bytes
  import opened Framing
  import opened IoVectors

  datatype AddResult = OK | ERROR

  /** A packet whose header is known and whose payload block is being filled. */
  datatype Partial = NoPacket | Filling(msg: Message, payload: Block)

  /** A block that is full has all its content passed, and one that is empty nothing to come. */
  lemma FilledUp(target: Block, rest: Block, stream: seq<Byte>)
    requires target.CursorInside() && rest.CursorInside() && stream == target.Done() + rest.Rest()
    ensures target.Remaining() == 0 ==> stream == target.content + rest.Rest()
    ensures rest.Remaining() == 0 ==> stream == target.Done()
    ensures |stream| == target.position + rest.Remaining()
  {
    assert target.Remaining() == 0 ==> target.Done() == target.content;
    assert rest.Remaining() == 0 ==> target.Done() + rest.Rest() == target.Done();
  }

  class APacketReader {
    var header: Block
    var packet: Partial
    var packets: seq<Packet>

    ghost predicate Valid()
      reads this
    {
      && header.Size() == HEADER_SIZE && header.CursorInside()
      && (header.Remaining() == 0 ==> 0 < DecodeHeader(header.content).dataLength <= MAX_PAYLOAD)
      && (packet.Filling? ==>
            && header.Remaining() == 0
            && packet.msg == DecodeHeader(header.content)
            && packet.payload.Size() == packet.msg.dataLength
            && packet.payload.position < packet.payload.Size())
    }

    /** The bytes taken in that belong to a packet not delivered yet. */
    ghost function Pending(): seq<Byte>
      requires Valid()
      reads this
    {
      if packet.Filling? then header.content + packet.payload.Done() else header.Done()
    }

    constructor ()
      ensures Valid() && Pending() == [] && packets == []
    {
      header := BlockOf(seq(HEADER_SIZE, _ => 0));
      packet := NoPacket;
      packets := [];
    }

    method PrepareForNextPacket()
      requires header.Size() == HEADER_SIZE
      modifies this`header, this`packet
      ensures Valid() && Pending() == []
    {
      header := header.(position := 0);
      packet := NoPacket;
    }

    method AddPacket(p: Packet)
      requires header.Size() == HEADER_SIZE
      modifies this
      ensures Valid() && Pending() == [] && packets == old(packets) + [p]
    {
      packets := packets + [p];
      PrepareForNextPacket();
    }

    /** Nothing in the pending bytes is a whole packet. */
    lemma PendingIsIncomplete()
      requires Valid()
      ensures Parse(Pending(), MAX_PAYLOAD) == Parsed([], Pending(), false)
    {
      if header.Remaining() == 0 {
        ParseByHeader(header.content, Pending()[HEADER_SIZE..], MAX_PAYLOAD);
        assert header.content + Pending()[HEADER_SIZE..] == Pending();
      }
    }

    /** This state and result are what the parse `p` asks for, after the packets in `before`. */
    ghost predicate Follows(before: seq<Packet>, p: Parsed, result: AddResult)
      reads this
    {
      && Valid()
      && (result == ERROR <==> p.oversized)
      && packets == before + p.packets
      && Pending() == p.pending
    }

    /**
     * Takes one block in.  The outcome is that of the plain parse of the pending bytes followed by
     * the block: the same packets in the same order, an error exactly when the parse meets an
     * oversized header, and the same bytes pending.
     */
    method AddBytes(block: Block) returns (result: AddResult)
      requires Valid() && block.CursorInside()
      modifies this
      ensures Follows(old(packets), Parse(old(Pending()) + block.Rest(), MAX_PAYLOAD), result)
      decreases block.Remaining(), 3
    {
      if block.Remaining() == 0 {
        PendingIsIncomplete();
        assert Pending() + block.Rest() == Pending();
        return OK;
      }
      ghost var goal := Parse(Pending() + block.Rest(), MAX_PAYLOAD);
      if packet.Filling? {
        result := AddPayload(block, goal);
      } else {
        result := AddHeader(block, goal);
      }
    }

    /** No payload block is in hand: what is there of the header is filled up first. */
    method AddHeader(block: Block, ghost goal: Parsed) returns (result: AddResult)
      requires Valid() && packet.NoPacket? && block.CursorInside() && block.Remaining() > 0
      requires goal == Parse(Pending() + block.Rest(), MAX_PAYLOAD)
      modifies this
      ensures Follows(old(packets), goal, result)
      decreases block.Remaining(), 3, 0
    {
      ghost var stream := Pending() + block.Rest();
      ghost var before := header;
      FilledUp(header, block, stream);
      var rest;
      header, rest := FillFrom(header, block);
      FilledUp(header, rest, stream);
      assert before.position + block.Remaining() == header.position + rest.Remaining();
      if header.Remaining() != 0 {
        return OK;
      }
      result := HeaderComplete(rest, goal);
    }

    /** The header is complete and no payload block is in hand yet. */
    method HeaderComplete(block: Block, ghost goal: Parsed) returns (result: AddResult)
      requires header.Size() == HEADER_SIZE == header.position && packet.NoPacket? && block.CursorInside()
      requires goal == Parse(header.content + block.Rest(), MAX_PAYLOAD)
      modifies this
      ensures Follows(old(packets), goal, result)
      decreases block.Remaining(), if DecodeHeader(header.content).dataLength == 0 then 6 else 2
    {
      var m := DecodeHeader(header.content);
      ParseByHeader(header.content, block.Rest(), MAX_PAYLOAD);
      if m.dataLength > MAX_PAYLOAD {
        PrepareForNextPacket();
        return ERROR;
      }
      if m.dataLength == 0 {
        result := EmptyPayload(m, block, goal);
        return;
      }
      if block.Remaining() == 0 {
        assert header.content + block.Rest() == header.content;
        return OK;
      }
      if block.position == 0 && block.Remaining() == m.dataLength {
        result := ZeroCopy(m, block, goal);
        return;
      }
      packet := Filling(m, BlockOf(seq(m.dataLength, _ => 0)));
      assert Pending() == header.content;
      result := AddPayload(block, goal);
    }

    /** A packet without payload is complete with its header. */
    method EmptyPayload(m: Message, block: Block, ghost goal: Parsed) returns (result: AddResult)
      requires header.Size() == HEADER_SIZE && m.dataLength == 0 && block.CursorInside()
      requires goal == Prepend(Packet(m, block.Rest()[..0]), Parse(block.Rest()[0..], MAX_PAYLOAD))
      modifies this
      ensures Follows(old(packets), goal, result)
      decreases block.Remaining(), 5
    {
      assert block.Rest()[..0] == [] && block.Rest()[0..] == block.Rest();
      result := Deliver(Packet(m, []), block, goal);
    }

    /** A packet is complete; the rest of the block is parsed as what follows it. */
    method Deliver(p: Packet, rest: Block, ghost goal: Parsed) returns (result: AddResult)
      requires header.Size() == HEADER_SIZE && rest.CursorInside()
      requires goal == Prepend(p, Parse(rest.Rest(), MAX_PAYLOAD))
      modifies this
      ensures Follows(old(packets), goal, result)
      decreases rest.Remaining(), 4
    {
      AddPacket(p);
      assert [] + rest.Rest() == rest.Rest();
      ConcatAssoc(old(packets), [p], Parse(rest.Rest(), MAX_PAYLOAD).packets);
      result := AddBytes(rest);
    }

    /** The block is exactly the payload and untouched, so it is moved and not copied. */
    method ZeroCopy(m: Message, block: Block, ghost goal: Parsed) returns (result: AddResult)
      requires header.Size() == HEADER_SIZE && block.position == 0 && block.Remaining() == m.dataLength
      requires goal == Prepend(Packet(m, block.Rest()[..m.dataLength]),
                               Parse(block.Rest()[m.dataLength..], MAX_PAYLOAD))
      modifies this
      ensures Follows(old(packets), goal, result)
    {
      assert block.Rest()[m.dataLength..] == [] && block.Rest()[..m.dataLength] == block.content;
      var moved, _ := MoveAssign(block);
      AddPacket(Packet(m, moved.content));
      return OK;
    }

    /** The fallback: the payload is copied out of the block as far as the block goes. */
    method AddPayload(block: Block, ghost goal: Parsed) returns (result: AddResult)
      requires Valid() && packet.Filling? && block.CursorInside() && block.Remaining() > 0
      requires goal == Parse(Pending() + block.Rest(), MAX_PAYLOAD)
      modifies this
      ensures Follows(old(packets), goal, result)
      decreases block.Remaining(), 1
    {
      ghost var done := packet.payload.Done();
      var payload, rest := FillFrom(packet.payload, block);
      if payload.Remaining() == 0 {
        ParseFilled(header.content, done, block.Rest(), payload.content, rest.Rest(), MAX_PAYLOAD);
        result := Deliver(Packet(packet.msg, payload.content), rest, goal);
      } else {
        ParseUnfilled(header.content, done, block.Rest(), MAX_PAYLOAD);
        packet := Filling(packet.msg, payload);
        result := OK;
      }
    }

    /** Hands over the packets parsed so far. */
    method GetPackets() returns (ret: seq<Packet>)
      requires Valid()
      modifies this`packets
      ensures Valid() && ret == old(packets) && packets == []
    {
      ret := packets;
      packets := [];
    }
  }

  /** What a reader has after taking in chunk after chunk, up to the first error. */
  ghost function Feed(chunks: seq<seq<Byte>>): Parsed {
    if chunks == [] then Parsed([], [], false) else
    var p := Feed(chunks[..|chunks| - 1]);
    if p.oversized then p else Continue(p, Parse(p.pending + chunks[|chunks| - 1], MAX_PAYLOAD))
  }

  lemma FeedSnoc(front: seq<seq<Byte>>, last: seq<Byte>)
    ensures var p := Feed(front);
            Feed(front + [last]) == if p.oversized then p else Continue(p, Parse(p.pending + last, MAX_PAYLOAD))
  {
    var chunks := front + [last];
    assert chunks[..|chunks| - 1] == front;
  }

  /** Chunking invariance: only the concatenation of the chunks matters. */
  lemma {:induction false} FeedIsParse(chunks: seq<seq<Byte>>)
    ensures Feed(chunks) == Parse(Flatten(chunks), MAX_PAYLOAD)
  {
    if chunks != [] {
      var n := |chunks| - 1;
      FeedIsParse(chunks[..n]);
      ParseResumes(Flatten(chunks[..n]), chunks[n], MAX_PAYLOAD);
      FeedSnoc(chunks[..n], chunks[n]);
      FlattenSnoc(chunks[..n], chunks[n]);
      assert chunks == chunks[..n] + [chunks[n]];
    }
  }

  /** Packets framed by the writer come back unchanged, wherever the stream is cut. */
  lemma FramesSurviveAnyCut(ps: seq<Packet>, chunks: seq<seq<Byte>>)
    requires forall p :: p in ps ==> WellFormed(p, MAX_PAYLOAD)
    requires Flatten(chunks) == Frames(ps)
    ensures Feed(chunks) == Parsed(ps, [], false)
  {
    FeedIsParse(chunks);
    ParseFrames(ps, [], MAX_PAYLOAD);
    assert Frames(ps) + [] == Frames(ps);
  }

  function Rests(blocks: seq<Block>): (r: seq<seq<Byte>>)
    requires forall b :: b in blocks ==> b.CursorInside()
    ensures |r| == |blocks|
  {
    seq(|blocks|, i requires 0 <= i < |blocks| => assert blocks[i] in blocks; blocks[i].Rest())
  }

  /**
   * A fresh reader, drained after every block, delivers the packets of the plain parse of the whole
   * stream, and fails on exactly the streams with an oversized header, however they are cut.
   */
  method ReadStream(blocks: seq<Block>) returns (delivered: seq<Packet>, result: AddResult)
    requires forall b :: b in blocks ==> b.CursorInside()
    ensures var p := Parse(Flatten(Rests(blocks)), MAX_PAYLOAD);
            delivered == p.packets && (result == ERROR <==> p.oversized)
  {
    var reader := new APacketReader();
    delivered, result := [], OK;
    ghost var chunks := Rests(blocks);
    ghost var fed := Parsed([], [], false);
    var i := 0;
    while i < |blocks|
      invariant 0 <= i <= |blocks| && reader.Valid() && reader.packets == []
      invariant fed == Feed(chunks[..i]) == Parsed(delivered, reader.Pending(), false)
      invariant fresh(reader)
    {
      FeedStep(chunks, i);
      ghost var p := Parse(fed.pending + chunks[i], MAX_PAYLOAD);
      assert fed.pending == reader.Pending() && chunks[i] == blocks[i].Rest() && [] + p.packets == p.packets;
      result := reader.AddBytes(blocks[i]);
      assert reader.Follows([], p, result);
      var more := reader.GetPackets();
      delivered := delivered + more;
      i := i + 1;
      fed := Feed(chunks[..i]);
      if result == ERROR {
        FeedStopsAtError(chunks, i);
        return;
      }
    }
    FeedIsParse(chunks);
    assert chunks[..i] == chunks;
    result := OK;
  }

  lemma FeedStep(chunks: seq<seq<Byte>>, i: nat)
    requires i < |chunks|
    ensures var p := Feed(chunks[..i]);
            Feed(chunks[..i + 1]) == if p.oversized then p else Continue(p, Parse(p.pending + chunks[i], MAX_PAYLOAD))
  {
    assert chunks[..i + 1][..i] == chunks[..i];
  }

  /** After an error, what follows changes nothing. */
  lemma FeedStopsAtError(chunks: seq<seq<Byte>>, i: nat)
    requires i <= |chunks| && Feed(chunks[..i]).oversized
    ensures Parse(Flatten(chunks), MAX_PAYLOAD) == Feed(chunks[..i])
  {
    FeedIsParse(chunks[..i]);
    assert chunks[..i] + chunks[i..] == chunks;
    FlattenConcat(chunks[..i], chunks[i..]);
    ParseResumes(Flatten(chunks[..i]), Flatten(chunks[i..]), MAX_PAYLOAD);
  }
}
