/** adb's byte chain: move-only blocks, and a vector of blocks that stands for one byte string. */
module IoVectors {
  import opened Bytes

  /**
   * A Block owns a buffer, of which the first part is `content` and the rest is `spare` capacity;
   * `position` is a read/write cursor.  Blocks are move-only, so a block is a value held by one owner.
   */
  datatype Block = Block(content: seq<Byte>, spare: seq<Byte>, position: nat) {

    function Size(): nat {
      |content|
    }

    function Capacity(): nat {
      |content| + |spare|
    }

    /** The cursor is inside the content; `remaining()` would wrap around otherwise. */
    predicate CursorInside() {
      position <= |content|
    }

    function Remaining(): nat
      requires CursorInside()
    {
      |content| - position
    }

    /** The bytes the cursor has passed, and the ones it has not. */
    function Done(): seq<Byte>
      requires CursorInside()
    {
      content[..position]
    }

    function Rest(): seq<Byte>
      requires CursorInside()
    {
      content[position..]
    }
  }

  /** A default-constructed or moved-from block. */
  const NoBlock := Block([], [], 0)

  function BlockOf(s: seq<Byte>): Block {
    Block(s, [], 0)
  }

  /** `Block::resize` on an allocated block: the line between content and spare moves. */
  function Resize(b: Block, newSize: nat): (r: Block)
    requires newSize <= b.Capacity()
    ensures r.content + r.spare == b.content + b.spare && r.Size() == newSize
    ensures newSize <= b.Size() ==> r.content == b.content[..newSize]
  {
    var buffer := b.content + b.spare;
    Block(buffer[..newSize], buffer[newSize..], b.position)
  }

  /** memmove of the bytes from `offset` on to the front, then resize. */
  function ShiftOut(b: Block, offset: nat): (r: Block)
    requires offset <= b.Size()
    ensures r.content == b.content[offset..]
  {
    Resize(b.(content := Overwrite(b.content, 0, b.content[offset..])), b.Size() - offset)
  }

  /** Copies spans one behind the other over a buffer of their total length. */
  method Gather(buffer: seq<Byte>, spans: seq<seq<Byte>>) returns (result: seq<Byte>)
    requires |buffer| == |Flatten(spans)|
    ensures result == Flatten(spans)
  {
    result := buffer;
    var offset: nat := 0;
    var i := 0;
    assert spans[0..] == spans;
    while i < |spans|
      invariant 0 <= i <= |spans| && offset <= |result| == |buffer|
      invariant result[..offset] + Flatten(spans[i..]) == Flatten(spans)
    {
      assert spans[i..][1..] == spans[i + 1..];
      ghost var before := result;
      result := Overwrite(result, offset, spans[i]);
      assert result[..offset + |spans[i]|] == before[..offset] + spans[i];
      offset := offset + |spans[i]|;
      i := i + 1;
    }
  }

  /**
   * Block assignment from an rvalue: data, size and position are exchanged one after the other, but the
   * position with the source's size, which is 0 by then.  So the cursor starts over, and the two end up as a
   * move would leave them exactly if the source's cursor was at the start.
   */
  method MoveAssign(source: Block) returns (target: Block, left: Block)
    ensures target.content == source.content && target.spare == source.spare && target.position == 0
    ensures left.Capacity() == 0 && (left.CursorInside() <==> source.position == 0)
    ensures (target, left) == (source, NoBlock) <==> source.position == 0
  {
    var data, size, position := source.content + source.spare, source.Size(), source.position;
    var targetData, targetSize, targetPosition := [], 0, 0;
    targetData, data := data, [];
    targetSize, size := size, 0;
    targetPosition, size := size, 0;
    target := Block(targetData[..targetSize], targetData[targetSize..], targetPosition);
    left := Block(data[..size], data[size..], position);
  }

  /**
   * `Block::fillFrom`: copies as many bytes as both cursors allow, so the bytes passed in the
   * target and still to come in the source stay the same string.
   */
  method FillFrom(target: Block, from: Block) returns (filled: Block, rest: Block)
    requires target.CursorInside() && from.CursorInside()
    ensures filled.CursorInside() && rest.CursorInside()
    ensures filled.Done() + rest.Rest() == target.Done() + from.Rest()
    ensures filled.Size() == target.Size() && rest.content == from.content
    ensures filled.position >= target.position && (filled.Remaining() == 0 || rest.Remaining() == 0)
  {
    var n := if target.Remaining() < from.Remaining() then target.Remaining() else from.Remaining();
    var copied := from.content[from.position..from.position + n];
    var content := Overwrite(target.content, target.position, copied);
    assert content[..target.position + n] == target.Done() + copied;
    assert copied + from.content[from.position + n..] == from.Rest();
    ConcatAssoc(target.Done(), copied, from.content[from.position + n..]);
    filled := target.(content := content, position := target.position + n);
    rest := from.(position := from.position + n);
  }

  /** The bytes of the blocks from index `i` on. */
  function From(chain: seq<Block>, i: nat): seq<Byte>
    requires i <= |chain|
    decreases |chain| - i
  {
    if i == |chain| then [] else chain[i].content + From(chain, i + 1)
  }

  /** Only the slots from the index on matter, wherever they stand. */
  lemma {:induction false} FromSuffix(c: seq<Block>, i: nat, d: seq<Block>, j: nat)
    requires i <= |c| && j <= |d| && |c| - i == |d| - j
    requires forall k :: i <= k < |c| ==> c[k] == d[k - i + j]
    ensures From(c, i) == From(d, j)
    decreases |c| - i
  {
    if i < |c| {
      FromSuffix(c, i + 1, d, j + 1);
    }
  }

  lemma {:induction false} FromAppend(c: seq<Block>, i: nat, b: Block)
    requires i <= |c|
    ensures From(c + [b], i) == From(c, i) + b.content
    decreases |c| - i
  {
    if i < |c| {
      FromAppend(c, i + 1, b);
    } else {
      assert From(c + [b], i + 1) == [];
    }
  }

  class IOVector {
    var chain: seq<Block>
    var chainLength: nat
    var beginOffset: nat
    var startIndex: nat

    /**
     * Slots before startIndex are spent; chainLength counts the live slots in full, and
     * beginOffset bytes of the first live slot are already consumed.
     */
    ghost predicate Valid()
      reads this
    {
      && startIndex <= |chain|
      && chainLength == |From(chain, startIndex)|
      && (forall i :: startIndex <= i < |chain| ==> chain[i].Size() > 0)
      && (if startIndex == |chain| then beginOffset == 0 else beginOffset <= chain[startIndex].Size())
    }

    /** What trim_front, front_data and front_size need before they index the front slot. */
    predicate FrontInBounds()
      reads this
    {
      chain == [] || startIndex < |chain|
    }

    /** The byte string this chain stands for. */
    ghost function Bytes(): (s: seq<Byte>)
      requires Valid()
      reads this
    {
      From(chain, startIndex)[beginOffset..]
    }

    function Size(): (n: nat)
      requires Valid()
      reads this
      ensures n == |Bytes()|
    {
      chainLength - beginOffset
    }

    /** The bytes, seen from the first live slot. */
    lemma BytesFromFront()
      requires Valid() && startIndex < |chain|
      ensures Bytes() == chain[startIndex].content[beginOffset..] + From(chain, startIndex + 1)
    {
    }

    constructor ()
      ensures Valid() && FrontInBounds() && Bytes() == [] && chain == [] && startIndex == 0
    {
      chain, chainLength, beginOffset, startIndex := [], 0, 0, 0;
    }

    method Clear() returns (last: Block)
      modifies this
      ensures Valid() && FrontInBounds() && Bytes() == []
      ensures last == if old(chain) == [] then NoBlock else old(chain)[|old(chain)| - 1]
    {
      chainLength, beginOffset, startIndex := 0, 0, 0;
      last := NoBlock;
      if chain != [] {
        last := chain[|chain| - 1];
      }
      chain := [];
    }

    /** Move assignment: the bytes change owner. */
    method MoveFrom(source: IOVector)
      requires source != this && source.Valid()
      modifies this, source
      ensures Valid() && source.Valid() && source.FrontInBounds()
      ensures Bytes() == old(source.Bytes()) && source.Bytes() == []
      ensures FrontInBounds() == old(source.FrontInBounds())
    {
      chain := source.chain;
      chainLength := source.chainLength;
      beginOffset := source.beginOffset;
      startIndex := source.startIndex;
      var _ := source.Clear();
    }

    method Append(block: Block)
      requires Valid()
      modifies this
      ensures Valid()
      ensures Bytes() == old(Bytes()) + block.content
      ensures chain == old(chain) + if block.Size() == 0 then [] else [block]
      ensures startIndex == old(startIndex) && beginOffset == old(beginOffset)
      ensures old(FrontInBounds()) ==> FrontInBounds()
    {
      if block.Size() == 0 {
        return;
      }
      FromAppend(chain, startIndex, block);
      chainLength := chainLength + block.Size();
      chain := chain + [block];
    }

    method TrimChainFront()
      requires Valid()
      modifies this
      ensures Valid() && Bytes() == old(Bytes())
      ensures startIndex == 0 && chain == old(chain[startIndex..])
      ensures chainLength == old(chainLength) && beginOffset == old(beginOffset)
    {
      if startIndex != 0 {
        FromSuffix(chain[startIndex..], 0, chain, startIndex);
        chain := chain[startIndex..];
        startIndex := 0;
      }
    }

    /** Marks the front slot spent, whatever is left in it. */
    method PopFrontBlock()
      requires Valid() && startIndex < |chain|
      modifies this
      ensures Valid() && (Bytes() != [] ==> startIndex < |chain|)
      ensures Bytes() == old(Bytes())[old(chain[startIndex].Size() - beginOffset)..]
      ensures |chain| - startIndex == old(|chain| - startIndex) - 1
    {
      var _, _ := ReleaseFront();
      if startIndex > (if |chain| / 2 > 4 then |chain| / 2 else 4) {
        TrimChainFront();
      }
    }

    /** Moves the mark inside the front slot. */
    method AdvanceInFront(count: nat)
      requires Valid() && startIndex < |chain| && beginOffset + count <= chain[startIndex].Size()
      modifies this`beginOffset
      ensures Valid() && Bytes() == old(Bytes())[count..]
    {
      beginOffset := beginOffset + count;
    }

    /**
     * Drops the first `len` bytes.  The loop counts in 32 bits, so the caller must ask for fewer than 2^32
     * bytes; one writev never reports more.
     */
    method DropFront(len: nat)
      requires Valid() && len <= Size() && len < TWO32
      modifies this
      ensures Valid()
      ensures Bytes() == old(Bytes())[len..]
      ensures old(FrontInBounds()) ==> FrontInBounds()
    {
      if len == 0 {
        return;
      }
      if len == Size() {
        var _ := Clear();
        return;
      }
      DropPart(len);
    }

    /** The loop of drop_front: whole blocks are popped, and the last one is marked part consumed. */
    method DropPart(len: nat)
      requires Valid() && len < Size() && len < TWO32
      modifies this
      ensures Valid() && startIndex < |chain|
      ensures Bytes() == old(Bytes())[len..]
    {
      ghost var all := Bytes();
      var dropped: nat := 0;
      while dropped < len
        invariant Valid() && dropped <= len < |all| && startIndex < |chain| && Bytes() == all[dropped..]
        decreases |chain| - startIndex
      {
        BytesFromFront();
        var next := chain[startIndex].Size() - beginOffset;
        if dropped + next <= len {
          PopFrontBlock();
          DropDrop(all, dropped, next);
          dropped := Wrap32(dropped + next);
        } else {
          AdvanceInFront(len - dropped);
          DropDrop(all, dropped, len - dropped);
          break;
        }
      }
    }

    /** Splits the first `len` bytes out of this chain into their own. */
    method TakeFront(len: nat) returns (res: IOVector)
      requires Valid() && len <= Size()
      modifies this
      ensures fresh(res) && res.Valid() && Valid()
      ensures res.Bytes() == old(Bytes())[..len]
      ensures Bytes() == old(Bytes())[len..]
      ensures old(FrontInBounds()) ==> FrontInBounds() && res.FrontInBounds()
    {
      res := new IOVector();
      if len == 0 {
        return;
      }
      if len == Size() {
        res.MoveFrom(this);
        return;
      }
      var left := MoveWholeBlocks(len, res);
      if left > 0 {
        SplitFrontBlock(left, res);
      }
    }

    /** The loop of take_front: blocks that go over as a whole. */
    method MoveWholeBlocks(len: nat, res: IOVector) returns (left: nat)
      requires res != this && Valid() && len < Size()
      requires res.Valid() && res.chain == [] && res.startIndex == 0 && res.Bytes() == []
      modifies this, res
      ensures Valid() && res.Valid() && res.FrontInBounds()
      ensures left <= len && startIndex < |chain| && left < chain[startIndex].Size() - beginOffset
      ensures res.Bytes() + Bytes() == old(Bytes()) && |res.Bytes()| == len - left
    {
      left := len;
      while chain[startIndex].Size() - beginOffset <= left
        invariant Valid() && res.Valid() && res.FrontInBounds()
        invariant startIndex < |chain| && left <= len && left < Size()
        invariant res.Bytes() + Bytes() == old(Bytes()) && |res.Bytes()| == len - left
        invariant beginOffset == 0 || res.chain == []
        invariant res.startIndex == 0
        decreases |chain| - startIndex
      {
        left := MoveFrontBlock(left, res);
      }
    }

    /** One turn of that loop: the front block changes owner, with the consumed part still marked. */
    method MoveFrontBlock(len: nat, res: IOVector) returns (left: nat)
      requires res != this && Valid() && res.Valid() && res.FrontInBounds() && res.startIndex == 0
      requires startIndex < |chain| && chain[startIndex].Size() - beginOffset <= len < Size()
      requires beginOffset == 0 || res.chain == []
      modifies this, res
      ensures Valid() && res.Valid() && res.FrontInBounds() && res.startIndex == 0
      ensures left == len - old(chain[startIndex].Size() - beginOffset) && left < Size()
      ensures res.Bytes() + Bytes() == old(res.Bytes() + Bytes())
      ensures |res.Bytes()| == old(|res.Bytes()|) + len - left
      ensures beginOffset == 0
      ensures startIndex == old(startIndex) + 1 && startIndex < |chain| && |chain| == old(|chain|)
    {
      ghost var before := res.Bytes();
      var block, offset := ReleaseFront();
      left := len - (block.Size() - offset);
      if block.Size() > offset {
        res.ReceiveBlock(block, offset);
      }
      ConcatAssoc(before, block.content[offset..], Bytes());
    }

    /** Gives up the front slot and the mark inside it. */
    method ReleaseFront() returns (block: Block, offset: nat)
      requires Valid() && startIndex < |chain|
      modifies this
      ensures Valid() && (Bytes() != [] ==> startIndex < |chain|)
      ensures block == old(chain[startIndex]) && offset == old(beginOffset) <= block.Size()
      ensures block.content[offset..] + Bytes() == old(Bytes())
      ensures beginOffset == 0 && startIndex == old(startIndex) + 1 && |chain| == old(|chain|)
    {
      BytesFromFront();
      block, offset := chain[startIndex], beginOffset;
      FromSuffix(chain[startIndex := NoBlock], startIndex + 1, chain, startIndex + 1);
      chainLength := chainLength - block.Size();
      chain := chain[startIndex := NoBlock];
      beginOffset := 0;
      startIndex := startIndex + 1;
    }

    /** Appends a moved block of which the first `offset` bytes are already consumed. */
    method ReceiveBlock(block: Block, offset: nat)
      requires Valid() && FrontInBounds() && startIndex == 0
      requires offset < block.Size() && (offset == 0 || chain == [])
      modifies this
      ensures Valid() && FrontInBounds() && startIndex == 0
      ensures Bytes() == old(Bytes()) + block.content[offset..]
    {
      Append(block);
      if offset != 0 {
        beginOffset := offset;
        BytesFromFront();
      }
    }

    /** The tail of take_front: one block is shared, and one side gets a copy. */
    method SplitFrontBlock(len: nat, res: IOVector)
      requires res != this && Valid() && res.Valid() && res.FrontInBounds()
      requires startIndex < |chain| && 0 < len < chain[startIndex].Size() - beginOffset
      modifies this, res
      ensures Valid() && res.Valid() && res.FrontInBounds()
      ensures startIndex < |chain|
      ensures res.Bytes() == old(res.Bytes() + Bytes()[..len])
      ensures Bytes() == old(Bytes())[len..]
    {
      var front := chain[startIndex];
      FrontPart(len);
      if beginOffset != 0 || len < front.Size() / 2 {
        res.Append(BlockOf(front.content[beginOffset..beginOffset + len]));
        AdvanceInFront(len);
      } else {
        var block := BlockOf(front.content[len..]);
        res.Append(Resize(front, len));
        var stored, _ := MoveAssign(block);
        StoreFront(stored);
      }
    }

    /** A cut inside the front slot cuts the bytes. */
    lemma FrontPart(len: nat)
      requires Valid() && startIndex < |chain| && beginOffset + len <= chain[startIndex].Size()
      ensures chain[startIndex].content[beginOffset..beginOffset + len] == Bytes()[..len]
      ensures chain[startIndex].content[beginOffset + len..] + From(chain, startIndex + 1) == Bytes()[len..]
    {
      BytesFromFront();
    }

    /** Puts a non-empty block in the untouched front slot and accounts for its length. */
    method StoreFront(block: Block)
      requires Valid() && startIndex < |chain| && beginOffset == 0 && block.Size() > 0
      modifies this
      ensures Valid() && startIndex == old(startIndex) && |chain| == old(|chain|)
      ensures From(chain, startIndex + 1) == old(From(chain, startIndex + 1))
      ensures Bytes() == block.content + From(chain, startIndex + 1)
    {
      FromSuffix(chain[startIndex := block], startIndex + 1, chain, startIndex + 1);
      chainLength := chainLength - chain[startIndex].Size() + block.Size();
      chain := chain[startIndex := block];
    }

    /** Compacts the chain; the bytes stay the same. */
    method TrimFront()
      requires Valid() && FrontInBounds()
      modifies this
      ensures Valid() && FrontInBounds() && Bytes() == old(Bytes())
      ensures startIndex == 0 && beginOffset == 0
    {
      if (beginOffset == 0 && startIndex == 0) || chain == [] {
        return;
      }
      BytesFromFront();
      var first := chain[startIndex];
      if beginOffset == first.Size() {
        startIndex := startIndex + 1;
      } else {
        var block := ShiftOut(first, beginOffset);
        FromSuffix(chain[startIndex := block], startIndex + 1, chain, startIndex + 1);
        chain := chain[startIndex := block];
      }
      chainLength := chainLength - beginOffset;
      beginOffset := 0;
      TrimChainFront();
    }

    /** The spans handed to writev: together they are exactly the bytes. */
    method Iovecs() returns (spans: seq<seq<Byte>>)
      requires Valid()
      ensures Flatten(spans) == Bytes()
    {
      spans := [];
      if Size() == 0 {
        return;
      }
      var i := startIndex;
      while i < |chain|
        invariant startIndex <= i <= |chain|
        invariant i == startIndex ==> spans == []
        invariant i > startIndex ==> Flatten(spans) + From(chain, i) == Bytes()
      {
        var span := chain[i].content;
        if i == startIndex {
          BytesFromFront();
          span := span[beginOffset..];
        }
        FlattenSnoc(spans, span);
        spans := spans + [span];
        i := i + 1;
      }
    }

    /** The copying coalesce: one fresh block with all the bytes. */
    method CoalesceCopy() returns (result: Block)
      requires Valid()
      ensures result.content == Bytes() && result.position == 0
    {
      if Size() == 0 {
        return NoBlock;
      }
      var spans := Iovecs();
      var content := Gather(seq(Size(), _ => 0), spans);
      result := BlockOf(content);
    }

    /**
     * The destructive coalesce: on every path the returned block holds exactly the bytes the
     * copying one would return.  The chain stays valid, and its front index stays in bounds
     * except when the one remaining block was popped off behind spent slots.
     */
    method Coalesce() returns (res: Block)
      requires Valid() && FrontInBounds()
      modifies this
      ensures res.content == old(Bytes())
      ensures Valid()
      ensures FrontInBounds() <==> !(old(Size()) > 0 && 0 < old(startIndex) == old(|chain|) - 1)
    {
      if Size() == 0 {
        return NoBlock;
      }
      if beginOffset == chain[startIndex].Size() && |chain| == startIndex + 2 {
        res := PopOnlyFullBlock();
      } else if |chain| == startIndex + 1 {
        res := PopLastBlock();
      } else if chain[startIndex].Capacity() >= Size() {
        res := GatherIntoFirst();
      } else {
        res := CoalesceCopy();
      }
    }

    /** Path one: the first slot is fully consumed and one block follows it. */
    method PopOnlyFullBlock() returns (res: Block)
      requires Valid() && |chain| == startIndex + 2 && beginOffset == chain[startIndex].Size()
      modifies this
      ensures res.content == old(Bytes())
      ensures Valid() && startIndex < |chain|
    {
      BytesFromFront();
      res := chain[|chain| - 1];
      assert From(chain, startIndex + 1) == res.content + From(chain, startIndex + 2);
      chainLength := chainLength - res.Size();
      chain := chain[..|chain| - 1];
      assert From(chain, startIndex) == chain[startIndex].content + From(chain, startIndex + 1);
    }

    /** Path two: a single live block is handed out after shifting out its consumed part. */
    method PopLastBlock() returns (res: Block)
      requires Valid() && |chain| == startIndex + 1
      modifies this
      ensures res.content == old(Bytes())
      ensures Valid() && chain == old(chain)[..old(startIndex)] && startIndex == old(startIndex)
    {
      BytesFromFront();
      res := chain[|chain| - 1];
      chainLength := chainLength - res.Size();
      chain := chain[..|chain| - 1];
      if beginOffset != 0 {
        res := ShiftOut(res, beginOffset);
        beginOffset := 0;
      }
    }

    /** Path three: the first block has room for everything, so the rest is copied behind it. */
    method GatherIntoFirst() returns (res: Block)
      requires Valid() && startIndex + 1 < |chain| && chain[startIndex].Capacity() >= Size()
      modifies this
      ensures res.content == old(Bytes())
      ensures Valid() && startIndex < |chain|
    {
      var first, offset := ReleaseFront();
      var buffer := Overwrite(first.content + first.spare, 0, first.content[offset..]);
      var size: nat := first.Size() - offset;
      var i: nat := startIndex;
      while i < |chain|
        invariant startIndex <= i <= |chain| && size <= |buffer| && |old(Bytes())| <= |buffer|
        invariant buffer[..size] + From(chain, i) == old(Bytes())
      {
        var block := chain[i];
        ghost var before := buffer;
        buffer := Overwrite(buffer, size, block.content);
        assert buffer[..size + block.Size()] == before[..size] + block.content;
        size := size + block.Size();
        i := i + 1;
      }
      res := Block(buffer[..size], buffer[size..], first.position);
    }
  }
}
