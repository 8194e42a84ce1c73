/** Rewriting a vendor boot image: the cursor-based updater and the replacement of one ramdisk fragment. */
module VendorBootRepack {
  import opened Bytes
  import opened VendorBootImage

  lemma AppendToBlank(t: seq<Byte>, at: nat, x: seq<Byte>)
    requires at + |x| <= |t| && t[at..] == Zeros(|t| - at)
    ensures Overwrite(t, at, x)[..at + |x|] == t[..at] + x
    ensures Overwrite(t, at, x)[at + |x|..] == Zeros(|t| - at - |x|)
  {
    assert t[at + |x|..] == t[at..][|x|..];
  }

  /** Updates a buffer by creating a new one of the same size: two cursors, one over each. */
  class DataUpdater {
    const source: seq<Byte>
    var target: seq<Byte>
    var oldPos: nat
    var newPos: nat

    ghost predicate Valid()
      reads this
    {
      |target| == |source| && oldPos <= |source| && newPos <= |source|
    }

    /** Nothing has been written from the cursor on. */
    ghost predicate Blank()
      reads this
    {
      Valid() && target[newPos..] == Zeros(|source| - newPos)
    }

    ghost function Written(): seq<Byte>
      requires Valid()
      reads this
    {
      target[..newPos]
    }

    constructor (source: seq<Byte>)
      ensures this.source == source && Blank() && oldPos == 0 && newPos == 0
    {
      this.source, target, oldPos, newPos := source, Zeros(|source|), 0, 0;
    }

    /** Copies bytes from the old buffer to the new one; the cursors stay if it cannot. */
    method Copy(n: Uint32) returns (ok: bool)
      requires Valid()
      modifies this
      ensures Valid()
      ensures ok <==> n == 0 || (old(oldPos) + n <= |source| && old(newPos) + n <= |source|)
      ensures !ok ==> unchanged(this)
      ensures ok ==> oldPos == old(oldPos) + n && newPos == old(newPos) + n
      ensures ok ==> target == Overwrite(old(target), old(newPos), source[old(oldPos)..oldPos])
      ensures ok && old(Blank()) ==> Blank() && Written() == old(Written()) + source[old(oldPos)..oldPos]
    {
      if n == 0 {
        assert Overwrite(target, newPos, []) == target;
        return true;
      }
      if oldPos + n > |source| || newPos + n > |source| {
        return false;
      }
      var x := source[oldPos..oldPos + n];
      ghost var before, at := target, newPos;
      target := Overwrite(target, newPos, x);
      oldPos, newPos := oldPos + n, newPos + n;
      if old(Blank()) {
        AppendToBlank(before, at, x);
      }
      return true;
    }

    /** Passes over old bytes and writes new ones; the size of these is taken modulo 2^32. */
    method Replace(oldBytes: Uint32, data: seq<Byte>) returns (ok: bool)
      requires Valid()
      modifies this
      ensures Valid()
      ensures ok <==>
                old(oldPos) + oldBytes <= |source| && (Sized(data) == [] || old(newPos) + |Sized(data)| <= |source|)
      ensures !ok ==> target == old(target) && newPos == old(newPos)
      ensures ok ==> oldPos == old(oldPos) + oldBytes && newPos == old(newPos) + |Sized(data)|
      ensures ok && old(Blank()) ==> Blank() && Written() == old(Written()) + Sized(data)
    {
      if oldPos + oldBytes > |source| {
        return false;
      }
      oldPos := oldPos + oldBytes;
      var x := Sized(data);
      if x == [] {
        return true;
      }
      if newPos + |x| > |source| {
        return false;
      }
      ghost var before, at := target, newPos;
      target := Overwrite(target, newPos, x);
      newPos := newPos + |x|;
      if old(Blank()) {
        AppendToBlank(before, at, x);
      }
      return true;
    }

    /** Moves both cursors on; what is skipped in the new buffer stays zero. */
    method Skip(oldSkip: Uint32, newSkip: Uint32) returns (ok: bool)
      requires Valid()
      modifies this`oldPos, this`newPos
      ensures Valid()
      ensures ok <==> old(oldPos) + oldSkip <= |source| && old(newPos) + newSkip <= |source|
      ensures ok ==> oldPos == old(oldPos) + oldSkip && newPos == old(newPos) + newSkip
      ensures ok && old(Blank()) ==> Blank() && Written() == old(Written()) + Zeros(newSkip)
    {
      if oldPos + oldSkip > |source| {
        return false;
      }
      oldPos := oldPos + oldSkip;
      if newPos + newSkip > |source| {
        return false;
      }
      newPos := newPos + newSkip;
      if old(Blank()) {
        AppendToBlank(target, old(newPos), Zeros(newSkip));
        assert Overwrite(target, old(newPos), Zeros(newSkip)) == target;
      }
      return true;
    }

    method Seek(offset: Uint32) returns (ok: bool)
      requires Valid()
      modifies this`oldPos, this`newPos
      ensures Valid()
      ensures ok <==> offset <= |source|
      ensures if ok then oldPos == newPos == offset else unchanged(this)
    {
      if offset > |source| {
        return false;
      }
      oldPos, newPos := offset, offset;
      return true;
    }

    method CheckOffset(oldOffset: Uint32, newOffset: Uint32) returns (ok: bool)
      ensures ok <==> oldPos == oldOffset && newPos == newOffset
    {
      ok := oldPos == oldOffset && newPos == newOffset;
    }

    /** Writes a field of a structure that has already been copied. */
    method Poke(at: nat, v: Uint32)
      requires Valid() && at + 4 <= newPos
      modifies this`target
      ensures Valid() && target == Put32(old(target), at, v)
      ensures Written() == Put32(old(Written()), at, v)
      ensures old(Blank()) ==> Blank()
    {
      target := Put32(target, at, v);
      assert target[newPos..] == old(target)[newPos..];
    }
  }

  /** copy_avb_footer: if the last bytes are a footer, they go to the end of the new buffer as they are. */
  method CopyFooter(u: DataUpdater)
    requires u.Valid()
    modifies u
    ensures u.Valid() && u.target == Stamp(old(u.target), FooterOf(u.source))
  {
    if |u.source| < FOOTER_SIZE {
      return;
    }
    var at := Wrap32(|u.source| - FOOTER_SIZE);
    var ok := u.Seek(at);
    if u.source[at..at + 4] == FOOTER_MAGIC {
      ok := u.Copy(FOOTER_SIZE);
    }
  }

  // ---- the fragments and the table, one entry at a time

  /** The size of the first n fragments once fragment idx has `len` bytes. */
  function NewSizes(t: seq<Byte>, n: nat, idx: nat, len: nat): nat
    requires ENTRY_SIZE * n <= |t|
  {
    if n == 0 then 0 else NewSizes(t, n - 1, idx, len) + if n - 1 == idx then len else SizeIn(t, n - 1)
  }

  lemma {:induction false} NewSizesGrow(t: seq<Byte>, i: nat, n: nat, idx: nat, len: nat)
    requires i <= n && ENTRY_SIZE * n <= |t|
    ensures NewSizes(t, i, idx, len) <= NewSizes(t, n, idx, len)
  {
    if i < n {
      NewSizesGrow(t, i, n - 1, idx, len);
    }
  }

  /** The bytes of the first n fragments, which start at `from`, with fragment idx replaced. */
  function NewContents(b: seq<Byte>, from: nat, t: seq<Byte>, n: nat, idx: nat, ramdisk: seq<Byte>): (r: seq<Byte>)
    requires ENTRY_SIZE * n <= |t| && from + SizesIn(t, n) <= |b|
    ensures |r| == NewSizes(t, n, idx, |ramdisk|)
  {
    if n == 0 then [] else
    NewContents(b, from, t, n - 1, idx, ramdisk) +
    if n - 1 == idx then ramdisk else b[from + SizesIn(t, n - 1)..from + SizesIn(t, n)]
  }

  function NewEntry(t: seq<Byte>, j: nat, idx: nat, len: Uint32): (e: seq<Byte>)
    requires ENTRY_SIZE * (j + 1) <= |t|
    ensures |e| == ENTRY_SIZE
  {
    Corrected(EntryIn(t, j), Wrap32(NewSizes(t, j, idx, len)), j == idx, len)
  }

  function NewTable(t: seq<Byte>, n: nat, idx: nat, len: Uint32): (r: seq<Byte>)
    requires ENTRY_SIZE * n <= |t|
    ensures |r| == ENTRY_SIZE * n
  {
    if n == 0 then [] else NewTable(t, n - 1, idx, len) + NewEntry(t, n - 1, idx, len)
  }

  lemma WrapAdd(a: nat, x: nat)
    ensures Wrap32(Wrap32(a) + x) == Wrap32(a + x)
  {
    assert a == a / TWO32 * TWO32 + a % TWO32;
  }

  /** Copies one fragment, or puts the new one in its place. */
  method CopyFragment(u: DataUpdater, size: Uint32, replaced: bool, ramdisk: seq<Byte>) returns (ok: bool)
    requires u.Blank() && |ramdisk| < TWO32
    modifies u
    ensures u.Valid()
    ensures ok <==>
              && old(u.oldPos) + size <= |u.source|
              && old(u.newPos) + (if replaced then |ramdisk| else size) <= |u.source|
    ensures ok ==> u.Blank() && u.oldPos == old(u.oldPos) + size
    ensures ok ==>
              u.Written() == old(u.Written())
                             + if replaced then ramdisk else u.source[old(u.oldPos)..old(u.oldPos) + size]
  {
    if replaced {
      ok := u.Replace(size, ramdisk);
    } else {
      ok := u.Copy(size);
    }
  }

  /** The state of the loop over the fragments. */
  ghost predicate Copied(src: seq<Byte>, from: nat, pos: nat, w: seq<Byte>, now: seq<Byte>, t: seq<Byte>, j: nat,
                         idx: nat,
                         ramdisk: seq<Byte>, total: Uint32) {
    && ENTRY_SIZE * j <= |t| && pos == from + SizesIn(t, j) <= |src| && total == Wrap32(NewSizes(t, j, idx, |ramdisk|))
    && now == w + NewContents(src, from, t, j, idx, ramdisk)
  }

  lemma CopiedNext(src: seq<Byte>, from: nat, pos: nat, w: seq<Byte>, now: seq<Byte>, t: seq<Byte>, j: nat, idx: nat,
                   ramdisk: seq<Byte>, total: Uint32, next: seq<Byte>)
    requires Copied(src, from, pos, w, now, t, j, idx, ramdisk, total) && ENTRY_SIZE * (j + 1) <= |t|
    requires pos + SizeIn(t, j) <= |src| && next == now + if j == idx then ramdisk else src[pos..pos + SizeIn(t, j)]
    ensures Copied(src, from, pos + SizeIn(t, j), w, next, t, j + 1, idx, ramdisk,
                   Wrap32(total + if j == idx then |ramdisk| else SizeIn(t, j)))
  {
    var x := if j == idx then ramdisk else src[pos..pos + SizeIn(t, j)];
    WrapAdd(NewSizes(t, j, idx, |ramdisk|), |x|);
    ConcatAssoc(w, NewContents(src, from, t, j, idx, ramdisk), x);
  }

  /** If one fragment does not fit, they do not fit all together. */
  lemma CopiedShort(src: seq<Byte>, from: nat, pos: nat, w: seq<Byte>, now: seq<Byte>, t: seq<Byte>, j: nat, num: nat,
                    idx: nat,
                    ramdisk: seq<Byte>, total: Uint32)
    requires Copied(src, from, pos, w, now, t, j, idx, ramdisk, total) && j < num && ENTRY_SIZE * num <= |t|
    ensures pos + SizeIn(t, j) <= from + SizesIn(t, num)
    ensures |now| + (if j == idx then |ramdisk| else SizeIn(t, j)) <= |w| + NewSizes(t, num, idx, |ramdisk|)
  {
    SizesGrow(t, j + 1, num);
    NewSizesGrow(t, j + 1, num, idx, |ramdisk|);
  }

  /** Copies the fragments, with the new one in place of fragment idx, and adds up their sizes. */
  method CopyFragments(u: DataUpdater, t: seq<Byte>, num: nat, idx: nat, ramdisk: seq<Byte>) returns (ok: bool,
                       total: Uint32)
    requires u.Blank() && |t| == ENTRY_SIZE * num && |ramdisk| < TWO32
    modifies u
    ensures u.Valid()
    ensures ok <==>
              && old(u.oldPos) + SizesIn(t, num) <= |u.source|
              && old(u.newPos) + NewSizes(t, num, idx, |ramdisk|) <= |u.source|
    ensures ok ==> u.Blank()
    ensures ok ==> Copied(u.source, old(u.oldPos), u.oldPos, old(u.Written()), u.Written(), t, num, idx, ramdisk, total)
  {
    total := 0;
    ghost var from, w := u.oldPos, u.Written();
    assert w == w + [];
    for j := 0 to num
      invariant u.Blank() && Copied(u.source, from, u.oldPos, w, u.Written(), t, j, idx, ramdisk, total)
    {
      ghost var pos, now := u.oldPos, u.Written();
      CopiedShort(u.source, from, pos, w, now, t, j, num, idx, ramdisk, total);
      ok := CopyFragment(u, SizeIn(t, j), j == idx, ramdisk);
      if !ok {
        return;
      }
      CopiedNext(u.source, from, pos, w, now, t, j, idx, ramdisk, total, u.Written());
      total := Wrap32(total + if j == idx then |ramdisk| else SizeIn(t, j));
    }
    return true, total;
  }

  /** The table is what the image has from `at` on, as far as the image goes. */
  predicate Reaches(b: seq<Byte>, at: nat, t: seq<Byte>) {
    at <= |b| && if at + |t| <= |b| then b[at..at + |t|] == t else b[at..] == t[..|b| - at]
  }

  lemma EntryOfRun(b: seq<Byte>, at: nat, t: seq<Byte>, j: nat)
    requires Reaches(b, at, t) && ENTRY_SIZE * (j + 1) <= |t| && at + ENTRY_SIZE * (j + 1) <= |b|
    ensures b[at + ENTRY_SIZE * j..at + ENTRY_SIZE * j + ENTRY_SIZE] == EntryIn(t, j)
  {
    var n := if at + |t| <= |b| then |t| else |b| - at;
    assert b[at..at + n] == t[..n];
    Nested(b, at, at + n, ENTRY_SIZE * j, ENTRY_SIZE * j + ENTRY_SIZE);
    Nested(t, 0, n, ENTRY_SIZE * j, ENTRY_SIZE * j + ENTRY_SIZE);
  }

  lemma PutSuffix(w: seq<Byte>, e: seq<Byte>, at: nat, v: Uint32)
    requires at + 4 <= |e|
    ensures Put32(w + e, |w| + at, v) == w + Put32(e, at, v)
  {
  }

  lemma PutPrefix(w: seq<Byte>, e: seq<Byte>, at: nat, v: Uint32)
    requires at + 4 <= |w|
    ensures Put32(w + e, at, v) == Put32(w, at, v) + e
  {
  }

  /** The entry with its new offset, and its new size if it is the one replaced. */
  function Corrected(e: seq<Byte>, total: Uint32, replaced: bool, len: Uint32): (r: seq<Byte>)
    requires |e| == ENTRY_SIZE
    ensures |r| == ENTRY_SIZE
  {
    var e' := Put32(e, AT_OFFSET, total);
    if replaced then Put32(e', AT_SIZE, len) else e'
  }

  lemma CorrectedSize(e: seq<Byte>, total: Uint32, replaced: bool, len: Uint32)
    requires |e| == ENTRY_SIZE
    ensures Get32(Corrected(e, total, replaced, len), AT_SIZE) == if replaced then len else Get32(e, AT_SIZE)
  {
    GetPut(e, AT_OFFSET, total, AT_SIZE);
    GetPut(Put32(e, AT_OFFSET, total), AT_SIZE, len, AT_SIZE);
  }

  /** Writes the corrections over a copied entry. */
  method Correct(u: DataUpdater, at: nat, total: Uint32, replaced: bool, len: Uint32, ghost w: seq<Byte>,
                 ghost e: seq<Byte>)
    requires u.Blank() && |e| == ENTRY_SIZE && |w| == at && u.Written() == w + e
    modifies u`target
    ensures u.Blank() && u.Written() == w + Corrected(e, total, replaced, len)
  {
    u.Poke(at + AT_OFFSET, total);
    PutSuffix(w, e, AT_OFFSET, total);
    if replaced {
      u.Poke(at + AT_SIZE, len);
      PutSuffix(w, Put32(e, AT_OFFSET, total), AT_SIZE, len);
    }
  }

  lemma FieldOfRun(target: seq<Byte>, n: nat, w: seq<Byte>, e: seq<Byte>, at: nat)
    requires n <= |target| && target[..n] == w + e && at + 4 <= |e|
    ensures Get32(target, |w| + at) == Get32(e, at)
  {
    assert target[|w| + at..|w| + at + 4] == target[..n][|w| + at..|w| + at + 4];
    assert (w + e)[|w| + at..|w| + at + 4] == e[at..at + 4];
  }

  /** Copies one entry and corrects it. */
  method CopyEntry(u: DataUpdater, total: Uint32, replaced: bool, len: Uint32, ghost e: seq<Byte>) returns (ok: bool,
                   size: Uint32)
    requires u.Blank() && |e| == ENTRY_SIZE
    requires u.oldPos + ENTRY_SIZE <= |u.source| ==> u.source[u.oldPos..u.oldPos + ENTRY_SIZE] == e
    modifies u
    ensures u.Valid()
    ensures ok <==> old(u.oldPos) + ENTRY_SIZE <= |u.source| && old(u.newPos) + ENTRY_SIZE <= |u.source|
    ensures ok ==> u.Blank() && u.oldPos == old(u.oldPos) + ENTRY_SIZE
    ensures ok ==> u.Written() == old(u.Written()) + Corrected(e, total, replaced, len)
    ensures ok ==> size == if replaced then len else Get32(e, AT_SIZE)
  {
    size := 0;
    var at := u.newPos;
    ghost var w := u.Written();
    ok := u.Copy(ENTRY_SIZE);
    if ok {
      Correct(u, at, total, replaced, len, w, e);
      size := Get32(u.target, at + AT_SIZE);
      FieldOfRun(u.target, u.newPos, w, Corrected(e, total, replaced, len), AT_SIZE);
      CorrectedSize(e, total, replaced, len);
    }
  }

  /** The state of the loop over the table. */
  ghost predicate TableCopied(from: nat, pos: nat, w: seq<Byte>, now: seq<Byte>, t: seq<Byte>, j: nat, idx: nat,
                              len: Uint32, total: Uint32) {
    && ENTRY_SIZE * j <= |t| && pos == from + ENTRY_SIZE * j && total == Wrap32(NewSizes(t, j, idx, len))
    && now == w + NewTable(t, j, idx, len)
  }

  lemma TableCopiedNext(from: nat, pos: nat, w: seq<Byte>, now: seq<Byte>, t: seq<Byte>, j: nat, idx: nat, len: Uint32,
                        total: Uint32,
                        size: Uint32, next: seq<Byte>)
    requires TableCopied(from, pos, w, now, t, j, idx, len, total) && ENTRY_SIZE * (j + 1) <= |t|
    requires size == if j == idx then len else SizeIn(t, j)
    requires next == now + Corrected(EntryIn(t, j), total, j == idx, len)
    ensures TableCopied(from, pos + ENTRY_SIZE, w, next, t, j + 1, idx, len, Wrap32(total + size))
  {
    WrapAdd(NewSizes(t, j, idx, len), size);
    ConcatAssoc(w, NewTable(t, j, idx, len), NewEntry(t, j, idx, len));
  }

  /** Copies entry j, and adds its size. */
  method CopyNextEntry(u: DataUpdater, j: nat, idx: nat, len: Uint32, total: Uint32, ghost from: nat,
                       ghost w: seq<Byte>, ghost t: seq<Byte>) returns (ok: bool, sum: Uint32)
    requires u.Blank() && u.newPos == |w| + ENTRY_SIZE * j && ENTRY_SIZE * (j + 1) <= |t| && Reaches(u.source, from, t)
    requires TableCopied(from, u.oldPos, w, u.Written(), t, j, idx, len, total)
    modifies u
    ensures u.Valid()
    ensures ok <==> from + ENTRY_SIZE * (j + 1) <= |u.source| && |w| + ENTRY_SIZE * (j + 1) <= |u.source|
    ensures ok ==> u.Blank() && u.newPos == |w| + ENTRY_SIZE * (j + 1)
    ensures ok ==> TableCopied(from, u.oldPos, w, u.Written(), t, j + 1, idx, len, sum)
  {
    if from + ENTRY_SIZE * (j + 1) <= |u.source| {
      EntryOfRun(u.source, from, t, j);
    }
    ghost var pos, now := u.oldPos, u.Written();
    var size;
    sum := total;
    ok, size := CopyEntry(u, total, j == idx, len, EntryIn(t, j));
    if ok {
      TableCopiedNext(from, pos, w, now, t, j, idx, len, total, size, u.Written());
      sum := Wrap32(total + size);
    }
  }

  /** Copies the table; the offsets become the running sum of the sizes. */
  method CopyTable(u: DataUpdater, num: nat, idx: nat, len: Uint32, ghost t: seq<Byte>) returns (ok: bool)
    requires u.Blank() && |t| == ENTRY_SIZE * num && Reaches(u.source, u.oldPos, t)
    modifies u
    ensures u.Valid()
    ensures ok <==> old(u.oldPos) + |t| <= |u.source| && old(u.newPos) + |t| <= |u.source|
    ensures ok ==> u.Blank() && u.oldPos == old(u.oldPos) + |t|
    ensures ok ==> u.Written() == old(u.Written()) + NewTable(t, num, idx, len)
  {
    var total: Uint32 := 0;
    ghost var from, w := u.oldPos, u.Written();
    assert w == w + [];
    for j := 0 to num
      invariant u.Blank() && u.newPos == |w| + ENTRY_SIZE * j
      invariant TableCopied(from, u.oldPos, w, u.Written(), t, j, idx, len, total)
    {
      ok, total := CopyNextEntry(u, j, idx, len, total, from, w, t);
      if !ok {
        return;
      }
    }
    return true;
  }

  // ---- the regions, one after the other

  /** Unsigned 32-bit subtraction. */
  function Sub32(a: Uint32, b: Uint32): Uint32 {
    Wrap32(a + TWO32 - b)
  }

  /** Padding that is computed modulo 2^32 ends where it should exactly if no number has wrapped around. */
  lemma PadArithmetic(base: nat, n: nat, size: Uint32, rounded: Uint32)
    requires base < TWO32
    ensures base + n + Sub32(rounded, size) == Wrap32(base + rounded) <==>
              n == size <= rounded && base + rounded < TWO32
  {
  }

  /** Pads both buffers to their page boundary and checks the offsets reached. */
  method PadTo(u: DataUpdater, oldBase: nat, oldSize: Uint32, oldRounded: Uint32, newBase: nat, newSize: Uint32,
               newRounded: Uint32)
    returns (ok: bool)
    requires u.Blank() && oldBase < TWO32 && newBase < TWO32 && oldBase <= u.oldPos && newBase <= u.newPos
    modifies u
    ensures u.Valid()
    ensures ok <==>
            && old(u.oldPos) == oldBase + oldSize && oldSize <= oldRounded
            && oldBase + oldRounded < TWO32 && oldBase + oldRounded <= |u.source|
            && old(u.newPos) == newBase + newSize && newSize <= newRounded
            && newBase + newRounded < TWO32 && newBase + newRounded <= |u.source|
    ensures ok ==> u.Blank() && u.oldPos == oldBase + oldRounded && u.newPos == newBase + newRounded
    ensures ok ==> u.Written() == old(u.Written()) + Zeros(newRounded - newSize)
  {
    PadArithmetic(oldBase, u.oldPos - oldBase, oldSize, oldRounded);
    PadArithmetic(newBase, u.newPos - newBase, newSize, newRounded);
    ok := u.Skip(Sub32(oldRounded, oldSize), Sub32(newRounded, newSize));
    if ok {
      ok := u.CheckOffset(Wrap32(oldBase + oldRounded), Wrap32(newBase + newRounded));
    }
  }

  /** The new ramdisk on whole pages, in 32-bit arithmetic. */
  function NewPages(t: seq<Byte>, n: nat, idx: nat, len: nat, page: Uint32): Uint32
    requires ENTRY_SIZE * n <= |t| && page > 0
  {
    RoundUp(Wrap32(NewSizes(t, n, idx, len)), page)
  }

  /** The new ramdisk has its place. */
  predicate RamdiskFits(length: nat, l: Layout, t: seq<Byte>, idx: nat, len: nat, page: Uint32)
    requires |t| == ENTRY_SIZE * l.num && page > 0
  {
    var newP := NewPages(t, l.num, idx, len, page);
    && SizesIn(t, l.num) == l.ramdisk <= l.p && l.o + l.p < TWO32
    && NewSizes(t, l.num, idx, len) < TWO32 && NewSizes(t, l.num, idx, len) <= newP
    && l.o + newP < TWO32 && l.o + newP <= length
  }

  /** Copies the header and the fragments, and enters the new size of the ramdisk. */
  method CopyHeadAndFragments(u: DataUpdater, l: Layout, t: seq<Byte>, idx: nat, ramdisk: seq<Byte>) returns (ok: bool,
                              total: Uint32)
    requires u.Blank() && u.oldPos == u.newPos == 0 && |t| == ENTRY_SIZE * l.num && |ramdisk| < TWO32
    requires HEADER_V4_SIZE <= l.o < TWO32 && l.o <= |u.source|
    modifies u
    ensures u.Valid()
    ensures ok <==> l.o + SizesIn(t, l.num) <= |u.source| && l.o + NewSizes(t, l.num, idx, |ramdisk|) <= |u.source|
    ensures ok ==> u.Blank() && u.oldPos == l.o + SizesIn(t, l.num)
    ensures ok ==> u.newPos == l.o + NewSizes(t, l.num, idx, |ramdisk|)
    ensures ok ==> total == Wrap32(NewSizes(t, l.num, idx, |ramdisk|))
    ensures ok ==>
              u.Written() == Put32(u.source[..l.o], AT_RAMDISK_SIZE, total)
                             + NewContents(u.source, l.o, t, l.num, idx, ramdisk)
  {
    ok := u.Copy(l.o);
    ghost var head := u.source[..l.o];
    assert u.Written() == head;
    ok, total := CopyFragments(u, t, l.num, idx, ramdisk);
    if ok {
      ghost var contents := NewContents(u.source, l.o, t, l.num, idx, ramdisk);
      assert u.Written() == head + contents;
      u.Poke(AT_RAMDISK_SIZE, total);
      PutPrefix(head, contents, AT_RAMDISK_SIZE, total);
    }
  }

  /** The same, padded to whole pages. */
  method CopyRamdisk(u: DataUpdater, l: Layout, page: Uint32, t: seq<Byte>, idx: nat, ramdisk: seq<Byte>)
    returns (ok: bool, newP: Uint32)
    requires u.Blank() && u.oldPos == u.newPos == 0 && |t| == ENTRY_SIZE * l.num && |ramdisk| < TWO32 && page > 0
    requires HEADER_V4_SIZE <= l.o < TWO32 && l.ramdisk < TWO32 && l.p < TWO32 && l.o + l.p <= |u.source|
    modifies u
    ensures u.Valid()
    ensures ok <==> RamdiskFits(|u.source|, l, t, idx, |ramdisk|, page)
    ensures ok ==> newP == NewPages(t, l.num, idx, |ramdisk|, page) >= NewSizes(t, l.num, idx, |ramdisk|)
    ensures ok ==> u.Blank() && u.oldPos == l.o + l.p && u.newPos == l.o + newP
    ensures var total := NewSizes(t, l.num, idx, |ramdisk|);
            ok ==> u.Written() == Put32(u.source[..l.o], AT_RAMDISK_SIZE, Wrap32(total))
                                  + (NewContents(u.source, l.o, t, l.num, idx, ramdisk) + Zeros(newP - total))
  {
    var total;
    newP := 0;
    ok, total := CopyHeadAndFragments(u, l, t, idx, ramdisk);
    if !ok {
      return;
    }
    newP := RoundUp(total, page);
    ok := PadTo(u, l.o, l.ramdisk, l.p, l.o, total, newP);
    if ok {
      ConcatAssoc(Put32(u.source[..l.o], AT_RAMDISK_SIZE, total), NewContents(u.source, l.o, t, l.num, idx, ramdisk),
                  Zeros(newP - total));
    }
  }

  /** The size field and the pages of the device tree: the old one, or the new one if it is given. */
  function NewDtbSize(l: Layout, dtb: seq<Byte>): Uint32 {
    if dtb == [] then l.dtb else |Sized(dtb)|
  }

  function NewDtb(b: seq<Byte>, l: Layout, page: Uint32, dtb: seq<Byte>): seq<Byte>
    requires page > 0 && l.o + l.p + l.q <= |b|
  {
    if dtb == [] then b[l.o + l.p..l.o + l.p + l.q] else OnPages(Sized(dtb), page)
  }

  predicate DtbFits(length: nat, l: Layout, newP: nat, page: Uint32, dtb: seq<Byte>)
    requires page > 0
  {
    var newQ := RoundUp(NewDtbSize(l, dtb), page);
    && l.o + l.p + l.q < TWO32 && l.o + newP + newQ < TWO32 && l.o + newP + newQ <= length
    && (dtb != [] ==> l.dtb <= l.q && |Sized(dtb)| <= newQ)
  }

  /** Copies the device tree as it is. */
  method KeepDtb(u: DataUpdater, l: Layout, newP: nat) returns (ok: bool)
    requires u.Blank() && u.oldPos == l.o + l.p && u.newPos == l.o + newP && l.q < TWO32
    requires l.o + l.p + l.q <= |u.source|
    modifies u
    ensures u.Valid()
    ensures ok <==> l.o + l.p + l.q < TWO32 && l.o + newP + l.q < TWO32 && l.o + newP + l.q <= |u.source|
    ensures ok ==> u.Blank() && u.oldPos == l.o + l.p + l.q && u.newPos == l.o + newP + l.q
    ensures ok ==> u.Written() == old(u.Written()) + u.source[l.o + l.p..l.o + l.p + l.q]
  {
    ok := u.Copy(l.q);
    if ok {
      ok := u.CheckOffset(Wrap32(l.o + l.p + l.q), Wrap32(l.o + newP + l.q));
    }
  }

  /** Puts a new device tree in its place. */
  method ReplaceDtb(u: DataUpdater, l: Layout, page: Uint32, newP: nat, dtb: seq<Byte>) returns (ok: bool)
    requires u.Blank() && u.oldPos == l.o + l.p && u.newPos == l.o + newP && page > 0 && l.q < TWO32
    requires l.o + l.p < TWO32 && l.o + newP < TWO32 && l.o + l.p + l.q <= |u.source|
    modifies u
    ensures u.Valid()
    ensures var newQ := RoundUp(|Sized(dtb)|, page);
            && (ok <==> l.dtb <= l.q && |Sized(dtb)| <= newQ && l.o + l.p + l.q < TWO32
                        && l.o + newP + newQ < TWO32 && l.o + newP + newQ <= |u.source|)
            && (ok ==> u.Blank() && u.oldPos == l.o + l.p + l.q && u.newPos == l.o + newP + newQ)
    ensures ok ==> u.Written() == old(u.Written()) + OnPages(Sized(dtb), page)
  {
    ghost var w := u.Written();
    var newQ := RoundUp(|Sized(dtb)|, page);
    ok := u.Replace(l.dtb, dtb);
    if ok {
      ok := PadTo(u, l.o + l.p, l.dtb, l.q, l.o + newP, |Sized(dtb)|, newQ);
      if ok {
        ConcatAssoc(w, Sized(dtb), Zeros(newQ - |Sized(dtb)|));
      }
    }
  }

  /** Copies or replaces the device tree, and enters its size. */
  method CopyDtb(u: DataUpdater, l: Layout, page: Uint32, newP: nat, dtb: seq<Byte>) returns (ok: bool)
    requires u.Blank() && u.oldPos == l.o + l.p && u.newPos == l.o + newP && page > 0 && l.q == RoundUp(l.dtb, page)
    requires HEADER_V4_SIZE <= l.o && l.o + l.p < TWO32 && l.o + newP < TWO32 && l.o + l.p + l.q <= |u.source|
    modifies u
    ensures u.Valid()
    ensures ok <==> DtbFits(|u.source|, l, newP, page, dtb)
    ensures ok ==> u.Blank() && u.oldPos == l.o + l.p + l.q
    ensures ok ==> u.newPos == l.o + newP + RoundUp(NewDtbSize(l, dtb), page)
    ensures ok ==>
              u.Written() == Put32(old(u.Written()), AT_DTB_SIZE, NewDtbSize(l, dtb)) + NewDtb(u.source, l, page, dtb)
  {
    u.Poke(AT_DTB_SIZE, NewDtbSize(l, dtb));
    if dtb == [] {
      ok := KeepDtb(u, l, newP);
    } else {
      ok := ReplaceDtb(u, l, page, newP, dtb);
    }
  }

  predicate TableFits(length: nat, l: Layout, newBase: nat) {
    && ENTRY_SIZE * l.num <= l.r && l.o + l.p + l.q + l.r < TWO32
    && newBase + l.r < TWO32 && newBase + l.r + l.s <= length
  }

  /** Copies up to a page boundary in both buffers and checks the offsets reached. */
  method CopyTo(u: DataUpdater, base: nat, newBase: nat, n: nat, rounded: Uint32) returns (ok: bool)
    requires u.Blank() && u.oldPos == base + n && u.newPos == newBase + n && base < TWO32 && newBase < TWO32
    requires base + rounded <= |u.source|
    modifies u
    ensures u.Valid()
    ensures ok <==>
              n <= rounded && base + rounded < TWO32 && newBase + rounded < TWO32 && newBase + rounded <= |u.source|
    ensures ok ==> u.Blank() && u.oldPos == base + rounded && u.newPos == newBase + rounded
    ensures ok ==> u.Written() == old(u.Written()) + u.source[base + n..base + rounded]
  {
    PadArithmetic(base, n, Wrap32(n), rounded);
    PadArithmetic(newBase, n, Wrap32(n), rounded);
    ok := u.Copy(Sub32(rounded, Wrap32(n)));
    if ok {
      ok := u.CheckOffset(Wrap32(base + rounded), Wrap32(newBase + rounded));
    }
  }

  /** The rest of the table's pages and the bootconfig. */
  function Rest(b: seq<Byte>, l: Layout): seq<Byte>
    requires ENTRY_SIZE * l.num <= l.r && l.o + l.p + l.q + l.r + l.s <= |b|
  {
    var at := l.o + l.p + l.q;
    b[at + ENTRY_SIZE * l.num..at + l.r] + b[at + l.r..at + l.r + l.s]
  }

  method CopyBootconfig(u: DataUpdater, l: Layout, newBase: nat) returns (ok: bool)
    requires u.Blank() && l.o + l.p + l.q < TWO32 && newBase < TWO32 && l.r < TWO32 && l.s < TWO32
    requires u.oldPos == l.o + l.p + l.q + l.num * ENTRY_SIZE && u.newPos == newBase + l.num * ENTRY_SIZE
    requires l.o + l.p + l.q + l.r + l.s <= |u.source|
    modifies u
    ensures u.Valid()
    ensures ok <==> TableFits(|u.source|, l, newBase)
    ensures ok ==> u.Blank() && u.Written() == old(u.Written()) + Rest(u.source, l)
  {
    ghost var w, at := u.Written(), l.o + l.p + l.q;
    ok := CopyTo(u, l.o + l.p + l.q, newBase, l.num * ENTRY_SIZE, l.r);
    if ok {
      ok := u.Copy(l.s);
      if ok {
        ConcatAssoc(w, u.source[at + ENTRY_SIZE * l.num..at + l.r], u.source[at + l.r..at + l.r + l.s]);
      }
    }
  }

  /** Copies the table with its corrections, the rest of its pages, and the bootconfig. */
  method CopyTableAndBootconfig(u: DataUpdater, l: Layout, idx: nat, len: Uint32, newBase: nat, ghost t: seq<Byte>)
    returns (ok: bool)
    requires u.Blank() && u.oldPos == l.o + l.p + l.q < TWO32 && u.newPos == newBase < TWO32 && l.r < TWO32
    requires l.s < TWO32
    requires |t| == ENTRY_SIZE * l.num && Reaches(u.source, u.oldPos, t)
    requires l.o + l.p + l.q + l.r + l.s <= |u.source|
    modifies u
    ensures u.Valid()
    ensures ok <==> TableFits(|u.source|, l, newBase)
    ensures ok ==> u.Blank() && u.Written() == old(u.Written()) + NewTable(t, l.num, idx, len) + Rest(u.source, l)
  {
    ok := CopyTable(u, l.num, idx, len, t);
    if ok {
      ok := CopyBootconfig(u, l, newBase);
    }
  }

  // ---- what the regions add up to

  /** Fragment j of an updated image. */
  predicate NewAt(fs: seq<Fragment>, t: seq<Byte>, ram: seq<Byte>, idx: nat, ramdisk: seq<Byte>, j: nat)
    requires j < |fs| && |t| == ENTRY_SIZE * |fs|
  {
    && SizesIn(t, j) <= SizesIn(t, j + 1) <= |ram| && fs[j].meta == BlankEntry(EntryIn(t, j))
    && fs[j].content == if j == idx then ramdisk else ram[SizesIn(t, j)..SizesIn(t, j + 1)]
  }

  predicate AreNew(fs: seq<Fragment>, t: seq<Byte>, ram: seq<Byte>, idx: nat, ramdisk: seq<Byte>) {
    && |t| == ENTRY_SIZE * |fs| && EntriesOk(fs)
    && forall j :: 0 <= j < |fs| ==> NewAt(fs, t, ram, idx, ramdisk, j)
  }

  lemma UpdatedAreNew(t: seq<Byte>, ram: seq<Byte>, n: nat, idx: nat, ramdisk: seq<Byte>)
    requires |t| == ENTRY_SIZE * n && SizesIn(t, n) <= |ram| && idx < n
    ensures var fs := FragmentsIn(t, ram, n); AreNew(fs[idx := fs[idx].(content := ramdisk)], t, ram, idx, ramdisk)
  {
    EntriesOfDecoded(t, ram, n);
    var fs := FragmentsIn(t, ram, n);
    var fs' := fs[idx := fs[idx].(content := ramdisk)];
    forall j | 0 <= j < n
      ensures NewAt(fs', t, ram, idx, ramdisk, j)
    {
      FragmentsInAt(t, ram, n, j);
    }
  }

  lemma {:induction false} NewTotals(fs: seq<Fragment>, t: seq<Byte>, ram: seq<Byte>, idx: nat, ramdisk: seq<Byte>,
                                     k: nat)
    requires AreNew(fs, t, ram, idx, ramdisk) && k <= |fs|
    ensures Total(fs, k) == NewSizes(t, k, idx, |ramdisk|)
  {
    if k > 0 {
      NewTotals(fs, t, ram, idx, ramdisk, k - 1);
      assert NewAt(fs, t, ram, idx, ramdisk, k - 1);
    }
  }

  predicate PieceAt(fs: seq<Fragment>, b: seq<Byte>, from: nat, t: seq<Byte>, idx: nat, ramdisk: seq<Byte>, j: nat)
    requires j < |fs| && |t| == ENTRY_SIZE * |fs|
  {
    && from + SizesIn(t, j) <= from + SizesIn(t, j + 1) <= |b|
    && fs[j].content == if j == idx then ramdisk else b[from + SizesIn(t, j)..from + SizesIn(t, j + 1)]
  }

  lemma NewPiece(fs: seq<Fragment>, b: seq<Byte>, from: nat, t: seq<Byte>, ram: seq<Byte>, idx: nat,
                 ramdisk: seq<Byte>, j: nat)
    requires AreNew(fs, t, ram, idx, ramdisk) && j < |fs| && from + |ram| <= |b| && b[from..from + |ram|] == ram
    ensures PieceAt(fs, b, from, t, idx, ramdisk, j)
  {
    assert NewAt(fs, t, ram, idx, ramdisk, j);
    Nested(b, from, from + |ram|, SizesIn(t, j), SizesIn(t, j + 1));
  }

  lemma SameParts(a: seq<Byte>, a': seq<Byte>, x: seq<Byte>, x': seq<Byte>)
    requires a == a' && x == x'
    ensures a + x == a' + x'
  {
  }

  lemma {:induction false} NewContentsAre(fs: seq<Fragment>, b: seq<Byte>, from: nat, t: seq<Byte>, idx: nat,
                                          ramdisk: seq<Byte>, k: nat)
    requires |t| == ENTRY_SIZE * |fs| && from <= |b| && k <= |fs|
    requires forall j :: 0 <= j < |fs| ==> PieceAt(fs, b, from, t, idx, ramdisk, j)
    ensures from + SizesIn(t, k) <= |b| && Contents(fs, k) == NewContents(b, from, t, k, idx, ramdisk)
  {
    if k > 0 {
      NewContentsAre(fs, b, from, t, idx, ramdisk, k - 1);
      assert PieceAt(fs, b, from, t, idx, ramdisk, k - 1);
      SameParts(Contents(fs, k - 1), NewContents(b, from, t, k - 1, idx, ramdisk), fs[k - 1].content,
                if k - 1 == idx then ramdisk else b[from + SizesIn(t, k - 1)..from + SizesIn(t, k)]);
    }
  }

  /** Blanking an entry before it gets its new fields makes no difference. */
  lemma CorrectedBlank(e: seq<Byte>, v: Uint32, replaced: bool, len: Uint32, w: Uint32)
    requires |e| == ENTRY_SIZE && w == if replaced then len else Get32(e, AT_SIZE)
    ensures Put32(Put32(BlankEntry(e), AT_OFFSET, v), AT_SIZE, w) == Corrected(e, v, replaced, len)
  {
    PutsAgain(e, AT_OFFSET, 0, v, AT_SIZE, 0, w);
    if !replaced {
      GetPut(e, AT_OFFSET, v, AT_SIZE);
      PutGet(Put32(e, AT_OFFSET, v), AT_SIZE);
    }
  }

  lemma NewEntryIs(fs: seq<Fragment>, t: seq<Byte>, ram: seq<Byte>, idx: nat, ramdisk: seq<Byte>, j: nat)
    requires AreNew(fs, t, ram, idx, ramdisk) && j < |fs| && |ramdisk| < TWO32
    ensures EntryOf(fs, j) == NewEntry(t, j, idx, |ramdisk|)
  {
    assert NewAt(fs, t, ram, idx, ramdisk, j);
    NewTotals(fs, t, ram, idx, ramdisk, j);
    CorrectedBlank(EntryIn(t, j), Wrap32(NewSizes(t, j, idx, |ramdisk|)), j == idx, |ramdisk|, |fs[j].content|);
  }

  predicate EntryIsNew(fs: seq<Fragment>, t: seq<Byte>, idx: nat, len: Uint32, j: nat)
    requires EntriesOk(fs) && |t| == ENTRY_SIZE * |fs| && j < |fs|
  {
    EntryOf(fs, j) == NewEntry(t, j, idx, len)
  }

  lemma {:induction false} NewTableIs(fs: seq<Fragment>, t: seq<Byte>, idx: nat, len: Uint32, k: nat)
    requires EntriesOk(fs) && |t| == ENTRY_SIZE * |fs| && k <= |fs|
    requires forall j :: 0 <= j < |fs| ==> EntryIsNew(fs, t, idx, len, j)
    ensures Table(fs, k) == NewTable(t, k, idx, len)
  {
    if k > 0 {
      NewTableIs(fs, t, idx, len, k - 1);
      assert EntryIsNew(fs, t, idx, len, k - 1);
      SameParts(Table(fs, k - 1), NewTable(t, k - 1, idx, len), EntryOf(fs, k - 1), NewEntry(t, k - 1, idx, len));
    }
  }

  /** The bytes that the copying steps write one after the other: up to the device tree, then the rest. */
  function Front(b: seq<Byte>, l: Layout, page: Uint32, t: seq<Byte>, idx: nat, ramdisk: seq<Byte>,
                 dtb: seq<Byte>): seq<Byte>
    requires page > 0 && HEADER_V4_SIZE <= l.o && |t| == ENTRY_SIZE * l.num && l.o + l.p + l.q <= |b|
    requires l.o + SizesIn(t, l.num) <= |b|
    requires NewSizes(t, l.num, idx, |ramdisk|) <= NewPages(t, l.num, idx, |ramdisk|, page)
  {
    var total := NewSizes(t, l.num, idx, |ramdisk|);
    Put32(Put32(b[..l.o], AT_RAMDISK_SIZE, Wrap32(total)), AT_DTB_SIZE, NewDtbSize(l, dtb))
    + (NewContents(b, l.o, t, l.num, idx, ramdisk) + Zeros(NewPages(t, l.num, idx, |ramdisk|, page) - total))
    + NewDtb(b, l, page, dtb)
  }

  /** All the steps succeed exactly if the updated image fits. */
  predicate AllFits(length: nat, l: Layout, page: Uint32, t: seq<Byte>, idx: nat, len: nat, dtb: seq<Byte>)
    requires page > 0 && |t| == ENTRY_SIZE * l.num
  {
    var newP := NewPages(t, l.num, idx, len, page);
    && RamdiskFits(length, l, t, idx, len, page) && DtbFits(length, l, newP, page, dtb)
    && TableFits(length, l, l.o + newP + RoundUp(NewDtbSize(l, dtb), page))
  }

  /** The first copying steps, from a buffer of zeros. */
  method AssembleFront(u: DataUpdater, l: Layout, page: Uint32, t: seq<Byte>, idx: nat, ramdisk: seq<Byte>,
                       dtb: seq<Byte>) returns (ok: bool, newBase: nat)
    requires u.Blank() && u.oldPos == u.newPos == 0 && |t| == ENTRY_SIZE * l.num && |ramdisk| < TWO32 && page > 0
    requires HEADER_V4_SIZE <= l.o < TWO32 && l.ramdisk < TWO32 && l.p < TWO32 && l.q == RoundUp(l.dtb, page)
    requires l.o + l.p + l.q <= |u.source|
    modifies u
    ensures u.Valid()
    ensures var newP := NewPages(t, l.num, idx, |ramdisk|, page);
            && (ok <==> RamdiskFits(|u.source|, l, t, idx, |ramdisk|, page) && DtbFits(|u.source|, l, newP, page, dtb))
            && (ok ==> newBase == u.newPos == l.o + newP + RoundUp(NewDtbSize(l, dtb), page))
    ensures ok ==> u.Blank() && u.oldPos == l.o + l.p + l.q
    ensures ok ==> u.Written() == Front(u.source, l, page, t, idx, ramdisk, dtb)
  {
    newBase := 0;
    var newP;
    ok, newP := CopyRamdisk(u, l, page, t, idx, ramdisk);
    if !ok {
      return;
    }
    ghost var head := Put32(u.source[..l.o], AT_RAMDISK_SIZE, Wrap32(NewSizes(t, l.num, idx, |ramdisk|)));
    ghost var ram := u.Written()[l.o..];
    assert u.Written() == head + ram;
    ok := CopyDtb(u, l, page, newP, dtb);
    if ok {
      newBase := u.newPos;
      PutPrefix(head, ram, AT_DTB_SIZE, NewDtbSize(l, dtb));
    }
  }

  /** The copying steps. */
  method Assemble(u: DataUpdater, l: Layout, page: Uint32, t: seq<Byte>, idx: nat, ramdisk: seq<Byte>, dtb: seq<Byte>)
    returns (ok: bool)
    requires u.Blank() && u.oldPos == u.newPos == 0 && |t| == ENTRY_SIZE * l.num && |ramdisk| < TWO32 && page > 0
    requires HEADER_V4_SIZE <= l.o < TWO32 && l.ramdisk < TWO32 && l.p < TWO32 && l.q == RoundUp(l.dtb, page)
    requires l.r < TWO32 && l.s < TWO32 && l.o + l.p + l.q + l.r + l.s <= |u.source|
    requires Reaches(u.source, l.o + l.p + l.q, t)
    modifies u
    ensures u.Valid()
    ensures ok <==> AllFits(|u.source|, l, page, t, idx, |ramdisk|, dtb)
    ensures ok ==> u.Blank() && u.Written() == Front(u.source, l, page, t, idx, ramdisk, dtb)
                                               + NewTable(t, l.num, idx, |ramdisk|) + Rest(u.source, l)
  {
    var newBase;
    ok, newBase := AssembleFront(u, l, page, t, idx, ramdisk, dtb);
    if ok {
      ok := CopyTableAndBootconfig(u, l, idx, |ramdisk|, newBase, t);
    }
  }

  lemma Regroup(x: seq<Byte>, t: seq<Byte>, r: seq<Byte>, s: seq<Byte>)
    ensures x + (t + r) + s == x + t + (r + s)
  {
  }

  /** The parts of the updated image are the parts that the steps write. */
  lemma PartsAreNew(m: Image, b: seq<Byte>, from: nat, t: seq<Byte>, ram: seq<Byte>, idx: nat, ramdisk: seq<Byte>)
    requires AreNew(m.fragments, t, ram, idx, ramdisk) && |ramdisk| < TWO32
    requires from + |ram| <= |b| && b[from..from + |ram|] == ram && SizesIn(t, |m.fragments|) <= |ram|
    ensures var n := |m.fragments|;
            && Total(m.fragments, n) == NewSizes(t, n, idx, |ramdisk|)
            && Table(m.fragments, n) == NewTable(t, n, idx, |ramdisk|)
            && Contents(m.fragments, n) == NewContents(b, from, t, n, idx, ramdisk)
  {
    var fs := m.fragments;
    forall j | 0 <= j < |fs|
      ensures PieceAt(fs, b, from, t, idx, ramdisk, j) && EntryIsNew(fs, t, idx, |ramdisk|, j)
    {
      NewPiece(fs, b, from, t, ram, idx, ramdisk, j);
      NewEntryIs(fs, t, ram, idx, ramdisk, j);
    }
    NewTotals(fs, t, ram, idx, ramdisk, |fs|);
    NewContentsAre(fs, b, from, t, idx, ramdisk, |fs|);
    NewTableIs(fs, t, idx, |ramdisk|, |fs|);
  }

  /** What the updated image has in common with the bytes of the old one. */
  predicate Updated(m: Image, b: seq<Byte>, l: Layout, page: Uint32, dtb: seq<Byte>)
    requires page > 0 && HEADER_V4_SIZE <= l.o && ENTRY_SIZE * l.num <= l.r && l.o + l.p + l.q + l.r + l.s <= |b|
  {
    var at := l.o + l.p + l.q;
    && |m.fragments| == l.num && m.length == |b| && m.header == BlankHeader(b[..l.o]) && PageOf(m.header) == page
    && m.dtbSize == NewDtbSize(l, dtb) && m.dtb == NewDtb(b, l, page, dtb)
    && m.tableRest == b[at + ENTRY_SIZE * l.num..at + l.r] && m.boot == b[at + l.r..at + l.r + l.s]
    && m.footer == FooterOf(b)
  }

  lemma HeadIsNew(m: Image, b: seq<Byte>, l: Layout, total: nat, dtbSize: Uint32)
    requires HEADER_V4_SIZE <= l.o <= |b| && Regular(m) && m.header == BlankHeader(b[..l.o])
    requires RamdiskTotal(m) == total && m.dtbSize == dtbSize
    ensures Head(m) == Put32(Put32(b[..l.o], AT_RAMDISK_SIZE, Wrap32(total)), AT_DTB_SIZE, dtbSize)
  {
    PutsAgain(b[..l.o], AT_RAMDISK_SIZE, 0, Wrap32(total), AT_DTB_SIZE, 0, dtbSize);
  }

  lemma BodyIs(m: Image, head: seq<Byte>, contents: seq<Byte>, pad: seq<Byte>, table: seq<Byte>)
    requires Regular(m) && Fits(m) && Head(m) == head && Contents(m.fragments, |m.fragments|) == contents
    requires pad == Zeros(RamdiskPages(m) - RamdiskTotal(m)) && Table(m.fragments, |m.fragments|) == table
    ensures Body(m) == (head + (contents + pad) + m.dtb) + table + (m.tableRest + m.boot)
  {
    Regroup(head + (contents + pad) + m.dtb, table, m.tableRest, m.boot);
  }

  /** The front of the updated image, in its own terms and in those of the copying steps. */
  lemma FrontOfUpdated(m: Image, b: seq<Byte>, l: Layout, page: Uint32, t: seq<Byte>, idx: nat, ramdisk: seq<Byte>,
                       dtb: seq<Byte>,
                       head: seq<Byte>, total: nat, newP: nat)
    requires page > 0 && HEADER_V4_SIZE <= l.o && |t| == ENTRY_SIZE * l.num && l.o + l.p + l.q <= |b|
    requires l.o + SizesIn(t, l.num) <= |b|
    requires m.dtb == NewDtb(b, l, page, dtb)
    requires total == NewSizes(t, l.num, idx, |ramdisk|) <= newP == NewPages(t, l.num, idx, |ramdisk|, page)
    requires head == Put32(Put32(b[..l.o], AT_RAMDISK_SIZE, Wrap32(total)), AT_DTB_SIZE, NewDtbSize(l, dtb))
    ensures Front(b, l, page, t, idx, ramdisk, dtb)
            == head + (NewContents(b, l.o, t, l.num, idx, ramdisk) + Zeros(newP - total)) + m.dtb
  {
  }

  lemma FrontWithHead(m: Image, b: seq<Byte>, l: Layout, page: Uint32, t: seq<Byte>, idx: nat, ramdisk: seq<Byte>,
                      dtb: seq<Byte>,
                      total: nat, newP: nat)
    requires page > 0 && HEADER_V4_SIZE <= l.o && |t| == ENTRY_SIZE * l.num && l.o + l.p + l.q <= |b|
    requires l.o + SizesIn(t, l.num) <= |b|
    requires Regular(m) && m.header == BlankHeader(b[..l.o]) && m.dtb == NewDtb(b, l, page, dtb)
    requires m.dtbSize == NewDtbSize(l, dtb)
    requires RamdiskTotal(m) == total == NewSizes(t, l.num, idx, |ramdisk|)
    requires total <= newP == NewPages(t, l.num, idx, |ramdisk|, page)
    ensures Front(b, l, page, t, idx, ramdisk, dtb)
            == Head(m) + (NewContents(b, l.o, t, l.num, idx, ramdisk) + Zeros(newP - total)) + m.dtb
  {
    HeadIsNew(m, b, l, total, NewDtbSize(l, dtb));
    FrontOfUpdated(m, b, l, page, t, idx, ramdisk, dtb, Head(m), total, newP);
  }

  lemma FrontAsImage(m: Image, b: seq<Byte>, l: Layout, page: Uint32, t: seq<Byte>, idx: nat, ramdisk: seq<Byte>,
                     dtb: seq<Byte>)
    requires page > 0 && HEADER_V4_SIZE <= l.o && |t| == ENTRY_SIZE * l.num && l.o + l.p + l.q <= |b|
    requires l.o + SizesIn(t, l.num) <= |b|
    requires Regular(m) && m.header == BlankHeader(b[..l.o]) && m.dtb == NewDtb(b, l, page, dtb)
    requires m.dtbSize == NewDtbSize(l, dtb)
    requires RamdiskTotal(m) == NewSizes(t, l.num, idx, |ramdisk|) <= RamdiskPages(m)
    requires RamdiskPages(m) == NewPages(t, l.num, idx, |ramdisk|, page)
    ensures Front(b, l, page, t, idx, ramdisk, dtb)
            == Head(m)
               + (NewContents(b, l.o, t, l.num, idx, ramdisk) + Zeros(RamdiskPages(m) - RamdiskTotal(m)))
               + m.dtb
  {
    FrontWithHead(m, b, l, page, t, idx, ramdisk, dtb, RamdiskTotal(m), RamdiskPages(m));
  }

  lemma PagesAreNew(m: Image, t: seq<Byte>, ram: seq<Byte>, idx: nat, ramdisk: seq<Byte>)
    requires Regular(m) && AreNew(m.fragments, t, ram, idx, ramdisk)
    ensures RamdiskTotal(m) == NewSizes(t, |m.fragments|, idx, |ramdisk|)
    ensures RamdiskPages(m) == NewPages(t, |m.fragments|, idx, |ramdisk|, PageOf(m.header))
  {
    NewTotals(m.fragments, t, ram, idx, ramdisk, |m.fragments|);
  }

  lemma BodyOfUpdated(m: Image, b: seq<Byte>, l: Layout, page: Uint32, t: seq<Byte>, ram: seq<Byte>, idx: nat,
                      ramdisk: seq<Byte>, dtb: seq<Byte>)
    requires page > 0 && HEADER_V4_SIZE <= l.o && |t| == ENTRY_SIZE * l.num <= l.r && l.o + l.p + l.q + l.r + l.s <= |b|
    requires Updated(m, b, l, page, dtb) && Regular(m) && Fits(m) && |ramdisk| < TWO32
    requires AreNew(m.fragments, t, ram, idx, ramdisk) && SizesIn(t, l.num) <= |ram|
    requires l.o + |ram| <= |b| && b[l.o..l.o + |ram|] == ram
    ensures Body(m) == (Head(m)
                        + (NewContents(b, l.o, t, l.num, idx, ramdisk) + Zeros(RamdiskPages(m) - RamdiskTotal(m)))
                        + m.dtb)
                       + NewTable(t, l.num, idx, |ramdisk|) + (m.tableRest + m.boot)
  {
    PartsAreNew(m, b, l.o, t, ram, idx, ramdisk);
    BodyIs(m, Head(m), NewContents(b, l.o, t, l.num, idx, ramdisk), Zeros(RamdiskPages(m) - RamdiskTotal(m)),
           NewTable(t, l.num, idx, |ramdisk|));
  }

  lemma BodyIsAssembled(m: Image, b: seq<Byte>, l: Layout, page: Uint32, t: seq<Byte>, ram: seq<Byte>, idx: nat,
                        ramdisk: seq<Byte>, dtb: seq<Byte>)
    requires page > 0 && HEADER_V4_SIZE <= l.o && |t| == ENTRY_SIZE * l.num <= l.r && l.o + l.p + l.q + l.r + l.s <= |b|
    requires Updated(m, b, l, page, dtb) && Regular(m) && Fits(m) && |ramdisk| < TWO32
    requires AreNew(m.fragments, t, ram, idx, ramdisk) && SizesIn(t, l.num) <= |ram|
    requires l.o + |ram| <= |b| && b[l.o..l.o + |ram|] == ram
    ensures NewSizes(t, l.num, idx, |ramdisk|) <= NewPages(t, l.num, idx, |ramdisk|, page)
    ensures Body(m) == Front(b, l, page, t, idx, ramdisk, dtb) + NewTable(t, l.num, idx, |ramdisk|) + Rest(b, l)
  {
    PagesAreNew(m, t, ram, idx, ramdisk);
    FrontAsImage(m, b, l, page, t, idx, ramdisk, dtb);
    BodyOfUpdated(m, b, l, page, t, ram, idx, ramdisk, dtb);
    RestIsKept(m, b, l, page, dtb);
  }

  lemma RestIsKept(m: Image, b: seq<Byte>, l: Layout, page: Uint32, dtb: seq<Byte>)
    requires page > 0 && HEADER_V4_SIZE <= l.o && ENTRY_SIZE * l.num <= l.r && l.o + l.p + l.q + l.r + l.s <= |b|
    requires Updated(m, b, l, page, dtb)
    ensures Rest(b, l) == m.tableRest + m.boot
  {
  }

  lemma UpdatedLengths(m: Image, b: seq<Byte>, l: Layout, page: Uint32, dtb: seq<Byte>)
    requires page > 0 && HEADER_V4_SIZE <= l.o && ENTRY_SIZE * l.num <= l.r && l.o + l.p + l.q + l.r + l.s <= |b|
    requires Updated(m, b, l, page, dtb) && l.q == RoundUp(l.dtb, page)
    ensures |m.header| == l.o && ENTRY_SIZE * l.num + |m.tableRest| == l.r && |m.boot| == l.s
    ensures |m.dtb| == RoundUp(m.dtbSize, page) <==> (dtb != [] ==> |Sized(dtb)| <= RoundUp(|Sized(dtb)|, page))
  {
  }

  lemma FitsIffAllFits(m: Image, b: seq<Byte>, l: Layout, page: Uint32, t: seq<Byte>, idx: nat, len: nat,
                       dtb: seq<Byte>)
    requires page > 0 && |t| == ENTRY_SIZE * l.num <= l.r
    requires SizesIn(t, l.num) == l.ramdisk <= l.p && l.o + l.p + l.q + l.r < TWO32
    requires Regular(m) && PageOf(m.header) == page && |m.fragments| == l.num
    requires RamdiskTotal(m) == NewSizes(t, l.num, idx, len)
    requires |m.header| == l.o && ENTRY_SIZE * l.num + |m.tableRest| == l.r && |m.boot| == l.s && m.length == |b|
    requires m.dtbSize == NewDtbSize(l, dtb)
    requires |m.dtb| == RoundUp(m.dtbSize, page) <==> (dtb != [] ==> |Sized(dtb)| <= RoundUp(|Sized(dtb)|, page))
    ensures AllFits(|b|, l, page, t, idx, len, dtb) <==> Fits(m) && (dtb != [] ==> l.dtb <= l.q)
  {
  }

  // ---- the whole operation

  datatype Error = BadHeader | ImageTooSmall | TooManyEntries | NotFound | Ambiguous | DoesNotFit

  /** ReadsOutside: a table entry is looked at that is not in the image. */
  datatype Result = Ok(image: seq<Byte>) | Err(error: Error) | ReadsOutside

  /** check_vendor_boot_hdr; for version 4 it accepts exactly the proper version 4 headers. */
  predicate CheckHeader(b: seq<Byte>, version: nat): (ok: bool)
    ensures version == 4 ==> (ok <==> HeaderOk(b))
  {
    && |b| >= HEADER_V3_SIZE
    && var v := Get32(b, AT_VERSION);
    && (v == 3 || (v == 4 && |b| >= HEADER_V4_SIZE))
    && b[..8] == MAGIC && Get32(b, AT_PAGE_SIZE) != 0 && v >= version
  }

  /** The name of entry i starts in the image, or right behind it at the zero that ends the string it is held in. */
  predicate Inside(b: seq<Byte>, at: nat, i: nat) {
    at + ENTRY_SIZE * i + AT_NAME <= |b|
  }

  /** The name at p, which the end of the image also ends. */
  function NameFrom(b: seq<Byte>, p: nat): (name: seq<Byte>)
    requires p <= |b|
    ensures |name| <= NAME_SIZE
  {
    CStringIsShort(if p + NAME_SIZE <= |b| then b[p..p + NAME_SIZE] else b[p..]);
    CString(if p + NAME_SIZE <= |b| then b[p..p + NAME_SIZE] else b[p..])
  }

  lemma CStringIsShort(s: seq<Byte>)
    ensures |CString(s)| <= |s|
  {
  }

  predicate IsNamed(b: seq<Byte>, at: nat, i: nat, name: seq<Byte>) {
    Inside(b, at, i) && NameFrom(b, at + ENTRY_SIZE * i + AT_NAME) == name
  }

  /** The search comes to entry k: the names before it are in the image and at most one is the right one. */
  ghost predicate ComesTo(b: seq<Byte>, at: nat, name: seq<Byte>, k: nat) {
    && (forall j :: 0 <= j < k ==> Inside(b, at, j))
    && (forall i, j :: 0 <= i < j < k ==> !(IsNamed(b, at, i, name) && IsNamed(b, at, j, name)))
  }

  /** The search comes to entry k, which is not in the image. */
  ghost predicate StopsAt(b: seq<Byte>, at: nat, name: seq<Byte>, k: nat) {
    ComesTo(b, at, name, k) && !Inside(b, at, k)
  }

  ghost predicate Leaves(b: seq<Byte>, at: nat, name: seq<Byte>, size: nat) {
    exists k :: 0 <= k < size && StopsAt(b, at, name, k)
  }

  /** The search sees all names, and entry i alone has the right one. */
  ghost predicate OnlyOne(b: seq<Byte>, at: nat, name: seq<Byte>, size: nat, i: nat) {
    i < size && IsNamed(b, at, i, name) && ComesTo(b, at, name, size)
  }

  datatype Search = Found(index: nat) | Missing | Several | Outside

  /** find_unique_ramdisk, which knows only the number of entries. */
  method FindUnique(name: seq<Byte>, b: seq<Byte>, at: nat, size: nat) returns (r: Search)
    ensures r == Outside <==> Leaves(b, at, name, size)
    ensures r.Found? || r == Missing <==> ComesTo(b, at, name, size)
    ensures r.Found? ==> OnlyOne(b, at, name, size, r.index)
    ensures r == Missing ==> forall j :: 0 <= j < size ==> !IsNamed(b, at, j, name)
  {
    r := Missing;
    for idx := 0 to size
      invariant ComesTo(b, at, name, idx) && (r == Missing || r.Found?)
      invariant r.Found? ==> r.index < idx && IsNamed(b, at, r.index, name)
      invariant r == Missing ==> forall j :: 0 <= j < idx ==> !IsNamed(b, at, j, name)
    {
      if !Inside(b, at, idx) {
        assert StopsAt(b, at, name, idx);
        return Outside;
      }
      if IsNamed(b, at, idx, name) {
        if r != Missing {
          return Several;
        }
        r := Found(idx);
      }
    }
  }

  /** The named fragment of these bytes is fragment i and can be replaced. */
  ghost predicate CanReplace(b: seq<Byte>, name: seq<Byte>, i: nat, ramdisk: seq<Byte>, dtb: seq<Byte>) {
    Sound(b) && (DecodedIsRegular(b); Replaceable(Decode(b), name, i, ramdisk, dtb))
  }

  /** The bytes of the image with that fragment replaced. */
  ghost function Repacked(b: seq<Byte>, name: seq<Byte>, i: nat, ramdisk: seq<Byte>, dtb: seq<Byte>): (r: seq<Byte>)
    requires CanReplace(b, name, i, ramdisk, dtb)
    ensures |r| == |b|
  {
    DecodedIsRegular(b);
    UpdateIsRegular(Decode(b), i, ramdisk, dtb);
    Encode(Update(Decode(b), i, ramdisk, dtb))
  }

  /** An image that was read is the update of itself by nothing. */
  lemma ReadAsUpdated(b: seq<Byte>, l: Layout, m: Image, page: Uint32)
    requires SoundIn(b, l) && m == DecodeIn(b, l) && page > 0 && PageOf(m.header) == page && |m.fragments| == l.num
    ensures Updated(m, b, l, page, [])
  {
    var g := Cut(b, l);
    assert m.header == BlankHeader(g.head) && m.dtb == g.dtb && m.tableRest == g.rest && m.boot == g.boot;
  }

  lemma UpdatedFurther(b: seq<Byte>, l: Layout, m: Image, page: Uint32, idx: nat, ramdisk: seq<Byte>, dtb: seq<Byte>)
    requires page > 0 && HEADER_V4_SIZE <= l.o && ENTRY_SIZE * l.num <= l.r && l.o + l.p + l.q + l.r + l.s <= |b|
    requires Regular(m) && idx < |m.fragments| && Updated(m, b, l, page, [])
    ensures Updated(Update(m, idx, ramdisk, dtb), b, l, page, dtb)
  {
  }

  lemma UpdateKeepsRegions(b: seq<Byte>, l: Layout, m: Image, page: Uint32, idx: nat, ramdisk: seq<Byte>,
                           dtb: seq<Byte>)
    requires SoundIn(b, l) && m == DecodeIn(b, l) && Regular(m) && PageOf(m.header) == page && idx < |m.fragments|
    requires |m.fragments| == l.num
    ensures page > 0 && Updated(Update(m, idx, ramdisk, dtb), b, l, page, dtb)
  {
    ReadAsUpdated(b, l, m, page);
    UpdatedFurther(b, l, m, page, idx, ramdisk, dtb);
  }

  lemma UpdateRenews(g: Regions, length: nat, num: nat, dtbSize: Uint32, footer: seq<Byte>, idx: nat,
                     ramdisk: seq<Byte>, dtb: seq<Byte>)
    requires |g.head| >= HEADER_V4_SIZE && |g.table| == ENTRY_SIZE * num && SizesIn(g.table, num) == |g.ramdisk|
    requires idx < num
    requires Regular(Build(length, g, num, dtbSize, footer))
    ensures AreNew(Update(Build(length, g, num, dtbSize, footer), idx, ramdisk, dtb).fragments,
                   g.table, g.ramdisk, idx, ramdisk)
  {
    UpdatedAreNew(g.table, g.ramdisk, num, idx, ramdisk);
  }

  lemma UpdateFacts(b: seq<Byte>, l: Layout, m: Image, page: Uint32, idx: nat, ramdisk: seq<Byte>, dtb: seq<Byte>)
    requires SoundIn(b, l) && m == DecodeIn(b, l) && Regular(m) && PageOf(m.header) == page && idx < l.num
    ensures page > 0 && Regular(Update(m, idx, ramdisk, dtb)) && Updated(Update(m, idx, ramdisk, dtb), b, l, page, dtb)
    ensures AreNew(Update(m, idx, ramdisk, dtb).fragments, TableOf(b, l), Cut(b, l).ramdisk, idx, ramdisk)
  {
    UpdateIsRegular(m, idx, ramdisk, dtb);
    UpdateKeepsRegions(b, l, m, page, idx, ramdisk, dtb);
    UpdateRenews(Cut(b, l), |b|, l.num, l.dtb, FooterOf(b), idx, ramdisk, dtb);
  }

  /** The outcome of the copying steps on a sound image, told in terms of what the image says: success. */
  lemma AssembleSucceeds(b: seq<Byte>, l: Layout, m: Image, page: Uint32, idx: nat, ramdisk: seq<Byte>, dtb: seq<Byte>)
    requires SoundIn(b, l) && m == DecodeIn(b, l) && Regular(m) && PageOf(m.header) == page && idx < l.num
    requires l.q == RoundUp(l.dtb, page)
    ensures page > 0 && Regular(Update(m, idx, ramdisk, dtb))
    ensures AllFits(|b|, l, page, TableOf(b, l), idx, |ramdisk|, dtb)
            <==> Fits(Update(m, idx, ramdisk, dtb)) && (dtb != [] ==> l.dtb <= l.q)
  {
    UpdateFacts(b, l, m, page, idx, ramdisk, dtb);
    var t, m' := TableOf(b, l), Update(m, idx, ramdisk, dtb);
    UpdatedLengths(m', b, l, page, dtb);
    NewTotals(m'.fragments, t, Cut(b, l).ramdisk, idx, ramdisk, l.num);
    FitsIffAllFits(m', b, l, page, t, idx, |ramdisk|, dtb);
  }

  lemma CutRamdisk(b: seq<Byte>, l: Layout)
    requires SoundIn(b, l)
    ensures var ram := Cut(b, l).ramdisk;
            l.o + |ram| <= |b| && b[l.o..l.o + |ram|] == ram && SizesIn(TableOf(b, l), l.num) <= |ram|
  {
  }

  /** And the bytes written. */
  lemma AssembleWrites(b: seq<Byte>, l: Layout, m: Image, page: Uint32, idx: nat, ramdisk: seq<Byte>, dtb: seq<Byte>)
    requires SoundIn(b, l) && m == DecodeIn(b, l) && Regular(m) && PageOf(m.header) == page > 0 && idx < l.num
    requires |ramdisk| < TWO32
    requires Regular(Update(m, idx, ramdisk, dtb)) && Fits(Update(m, idx, ramdisk, dtb))
    ensures NewSizes(TableOf(b, l), l.num, idx, |ramdisk|) <= NewPages(TableOf(b, l), l.num, idx, |ramdisk|, page)
    ensures Body(Update(m, idx, ramdisk, dtb))
            == Front(b, l, page, TableOf(b, l), idx, ramdisk, dtb)
               + NewTable(TableOf(b, l), l.num, idx, |ramdisk|) + Rest(b, l)
  {
    UpdateFacts(b, l, m, page, idx, ramdisk, dtb);
    CutRamdisk(b, l);
    BodyIsAssembled(Update(m, idx, ramdisk, dtb), b, l, page, TableOf(b, l), Cut(b, l).ramdisk, idx, ramdisk, dtb);
  }

  /** Only the entry that the search finds can be replaced. */
  lemma NamedOnce(b: seq<Byte>, name: seq<Byte>, i: nat)
    requires Sound(b)
    ensures EntriesOk(Decode(b).fragments)
    ensures UniqueIn(TableOf(b, LayoutOf(b)), LayoutOf(b).num, name, i) <==>
              UniqueFragment(Decode(b).fragments, name, i)
  {
    var l := LayoutOf(b);
    UniqueInDecoded(TableOf(b, l), Cut(b, l).ramdisk, l.num, name, i);
  }

  /** The table from `at` on; what the image does not have of it counts as zeros, and no size is among that. */
  function TableFrom(b: seq<Byte>, at: nat, n: nat): (t: seq<Byte>)
    requires at <= |b|
    ensures |t| == ENTRY_SIZE * n && Reaches(b, at, t)
  {
    if at + ENTRY_SIZE * n <= |b| then b[at..at + ENTRY_SIZE * n] else b[at..] + Zeros(at + ENTRY_SIZE * n - |b|)
  }

  /** The sizes that are read are in the image once the names are. */
  lemma SizesAreInside(b: seq<Byte>, at: nat, n: nat, i: nat)
    requires at <= |b| && i < n && Inside(b, at, i)
    ensures at + ENTRY_SIZE * i + AT_SIZE + 4 <= |b|
    ensures SizeIn(TableFrom(b, at, n), i) == Get32(b, at + ENTRY_SIZE * i + AT_SIZE)
  {
    var p, t, k := at + ENTRY_SIZE * i, TableFrom(b, at, n), ENTRY_SIZE * i;
    var m := if at + |t| <= |b| then |t| else |b| - at;
    assert b[at..at + m] == t[..m];
    Nested(b, at, at + m, k, k + 4);
    Nested(t, 0, m, k, k + 4);
    Nested(t, k, k + ENTRY_SIZE, AT_SIZE, AT_SIZE + 4);
  }

  /** In a table that lies in the image the search sees the names of its entries. */
  lemma NamesAreInside(b: seq<Byte>, at: nat, n: nat, i: nat, name: seq<Byte>)
    requires at + ENTRY_SIZE * n <= |b| && i < n
    ensures Inside(b, at, i) && (IsNamed(b, at, i, name) <==> NameOf(EntryIn(TableFrom(b, at, n), i)) == name)
  {
    var p, t := at + ENTRY_SIZE * i, TableFrom(b, at, n);
    EntryOfRun(b, at, t, i);
    Nested(b, p, p + ENTRY_SIZE, AT_NAME, AT_NAME + NAME_SIZE);
  }

  lemma UniqueIsNamed(b: seq<Byte>, at: nat, n: nat, name: seq<Byte>, i: nat)
    requires at + ENTRY_SIZE * n <= |b|
    ensures UniqueIn(TableFrom(b, at, n), n, name, i) <==> OnlyOne(b, at, name, n, i)
  {
    forall j | 0 <= j < n
      ensures Inside(b, at, j) && (IsNamed(b, at, j, name) <==> NameOf(EntryIn(TableFrom(b, at, n), j)) == name)
    {
      NamesAreInside(b, at, n, j, name);
    }
  }

  /** What the code asks of its input: pages that a 32-bit header offset can cover, and entries of the known size. */
  predicate Proper(b: seq<Byte>) {
    HeaderOk(b) ==> LayoutOf(b).o >= HEADER_V4_SIZE && Get32(b, AT_ENTRY_SIZE) == ENTRY_SIZE
  }

  lemma TableIsInside(b: seq<Byte>, l: Layout)
    requires ReadableIn(b, l)
    ensures TableFrom(b, TableStart(l), l.num) == TableOf(b, l)
  {
  }

  /** Where the table of an image starts. */
  function TableStart(l: Layout): nat {
    l.o + l.p + l.q
  }

  /** A table that runs out of the image cannot be copied. */
  lemma OutsideDoesNotFit(length: nat, l: Layout, page: Uint32, t: seq<Byte>, idx: nat, len: nat, dtb: seq<Byte>)
    requires page > 0 && |t| == ENTRY_SIZE * l.num && l.o + l.p + l.q + l.r + l.s <= length < TableStart(l) + |t|
    ensures !AllFits(length, l, page, t, idx, len, dtb)
  {
  }

  /** Once the entry is found, the copying steps succeed exactly if it can be replaced. */
  lemma Verdict(b: seq<Byte>, l: Layout, t: seq<Byte>, name: seq<Byte>, idx: nat, ramdisk: seq<Byte>, dtb: seq<Byte>)
    requires HeaderOk(b) && Proper(b) && l == LayoutOf(b) && l.o + l.p + l.q + l.r + l.s <= |b|
    requires t == TableFrom(b, TableStart(l), l.num) && OnlyOne(b, TableStart(l), name, l.num, idx)
    ensures AllFits(|b|, l, PageOf(b), t, idx, |ramdisk|, dtb) <==> CanReplace(b, name, idx, ramdisk, dtb)
  {
    if ReadableIn(b, l) {
      TableIsInside(b, l);
      UniqueIsNamed(b, TableStart(l), l.num, name, idx);
      VerdictInside(b, l, t, name, idx, ramdisk, dtb);
    } else {
      OutsideDoesNotFit(|b|, l, PageOf(b), t, idx, |ramdisk|, dtb);
    }
  }

  lemma VerdictInside(b: seq<Byte>, l: Layout, t: seq<Byte>, name: seq<Byte>, idx: nat, ramdisk: seq<Byte>,
                      dtb: seq<Byte>)
    requires HeaderOk(b) && Readable(b) && l == LayoutOf(b) && l.o + l.p + l.q + l.r + l.s <= |b|
    requires t == TableOf(b, l) && UniqueIn(t, l.num, name, idx)
    ensures AllFits(|b|, l, PageOf(b), t, idx, |ramdisk|, dtb) <==> CanReplace(b, name, idx, ramdisk, dtb)
  {
    if Sound(b) {
      DecodedIsRegular(b);
      NamedOnce(b, name, idx);
      AssembleSucceeds(b, l, Decode(b), PageOf(b), idx, ramdisk, dtb);
    }
  }

  /** The bytes in front of the zeros and the footer. */
  lemma Outcome(b: seq<Byte>, l: Layout, t: seq<Byte>, name: seq<Byte>, idx: nat, ramdisk: seq<Byte>, dtb: seq<Byte>,
                w: seq<Byte>, image: seq<Byte>)
    requires CanReplace(b, name, idx, ramdisk, dtb) && l == LayoutOf(b) && t == TableOf(b, l) && |ramdisk| < TWO32
    requires NewSizes(t, l.num, idx, |ramdisk|) <= NewPages(t, l.num, idx, |ramdisk|, PageOf(b))
    requires w == Front(b, l, PageOf(b), t, idx, ramdisk, dtb) + NewTable(t, l.num, idx, |ramdisk|) + Rest(b, l)
    requires |w| <= |b| && image == Stamp(w + Zeros(|b| - |w|), FooterOf(b))
    ensures image == Repacked(b, name, idx, ramdisk, dtb)
  {
    DecodedIsRegular(b);
    UpdateIsRegular(Decode(b), idx, ramdisk, dtb);
    AssembleWrites(b, l, Decode(b), PageOf(b), idx, ramdisk, dtb);
  }

  /** The copying steps and the footer, in a new buffer. */
  method AssembleImage(b: seq<Byte>, l: Layout, page: Uint32, t: seq<Byte>, idx: nat, ramdisk: seq<Byte>,
                       dtb: seq<Byte>)
    returns (ok: bool, image: seq<Byte>, ghost w: seq<Byte>)
    requires |t| == ENTRY_SIZE * l.num && |ramdisk| < TWO32 && page > 0
    requires HEADER_V4_SIZE <= l.o < TWO32 && l.ramdisk < TWO32 && l.p < TWO32 && l.q == RoundUp(l.dtb, page)
    requires l.r < TWO32 && l.s < TWO32 && l.o + l.p + l.q + l.r + l.s <= |b|
    requires Reaches(b, l.o + l.p + l.q, t)
    ensures ok <==> AllFits(|b|, l, page, t, idx, |ramdisk|, dtb)
    ensures ok ==> w == Front(b, l, page, t, idx, ramdisk, dtb) + NewTable(t, l.num, idx, |ramdisk|) + Rest(b, l)
    ensures ok ==> |w| <= |b| && image == Stamp(w + Zeros(|b| - |w|), FooterOf(b))
  {
    w := [];
    var u := new DataUpdater(b);
    ok := Assemble(u, l, page, t, idx, ramdisk, dtb);
    if ok {
      w := u.Written();
      assert u.target == w + Zeros(|b| - |w|);
      CopyFooter(u);
    }
    image := u.target;
  }

  /** Writes the new image once the entry is found. */
  method Rewrite(b: seq<Byte>, l: Layout, idx: nat, ramdisk: seq<Byte>, dtb: seq<Byte>, ghost name: seq<Byte>)
    returns (r: Result)
    requires HeaderOk(b) && Proper(b) && |ramdisk| < TWO32 && l == LayoutOf(b) && l.o + l.p + l.q + l.r + l.s <= |b|
    requires OnlyOne(b, TableStart(l), name, l.num, idx)
    ensures r.Ok? <==> CanReplace(b, name, idx, ramdisk, dtb)
    ensures r.Ok? ==> r.image == Repacked(b, name, idx, ramdisk, dtb)
    ensures !r.Ok? ==> r == Err(DoesNotFit)
  {
    var t := TableFrom(b, TableStart(l), l.num);
    var ok, image;
    ghost var w;
    ok, image, w := AssembleImage(b, l, PageOf(b), t, idx, ramdisk, dtb);
    Verdict(b, l, t, name, idx, ramdisk, dtb);
    if ok {
      TableIsInside(b, l);
      Outcome(b, l, t, name, idx, ramdisk, dtb, w, image);
    }
    return if ok then Ok(image) else Err(DoesNotFit);
  }

  /** The checks before the search. */
  predicate PassesChecks(b: seq<Byte>) {
    && HeaderOk(b)
    && var l := LayoutOf(b);
       l.o + l.p + l.q + l.r + l.s <= |b| && l.num * ENTRY_SIZE <= l.o + l.p + l.q + l.r
  }

  lemma SoundIsNamed(b: seq<Byte>, name: seq<Byte>, i: nat)
    requires Sound(b) && UniqueIn(TableOf(b, LayoutOf(b)), LayoutOf(b).num, name, i)
    ensures OnlyOne(b, TableStart(LayoutOf(b)), name, LayoutOf(b).num, i)
  {
    TableIsNamed(b, LayoutOf(b), TableOf(b, LayoutOf(b)), name, i);
  }

  lemma TableIsNamed(b: seq<Byte>, l: Layout, t: seq<Byte>, name: seq<Byte>, i: nat)
    requires ReadableIn(b, l) && t == TableOf(b, l) && UniqueIn(t, l.num, name, i)
    ensures OnlyOne(b, TableStart(l), name, l.num, i)
  {
    TableIsInside(b, l);
    UniqueIsNamed(b, TableStart(l), l.num, name, i);
  }

  lemma OnlyNamed(b: seq<Byte>, name: seq<Byte>, i: nat, ramdisk: seq<Byte>, dtb: seq<Byte>)
    requires CanReplace(b, name, i, ramdisk, dtb)
    ensures PassesChecks(b) && OnlyOne(b, TableStart(LayoutOf(b)), name, LayoutOf(b).num, i)
  {
    NamedOnce(b, name, i);
    SoundIsNamed(b, name, i);
  }

  /** The checks pass, and the search for the name comes to an entry that is not in the image. */
  ghost predicate LeavesImage(b: seq<Byte>, name: seq<Byte>) {
    PassesChecks(b) && Leaves(b, TableStart(LayoutOf(b)), name, LayoutOf(b).num)
  }

  /** Some search leaves the image exactly if the name of the last entry does not start in it. */
  lemma SomeSearchLeaves(b: seq<Byte>, at: nat, size: nat)
    ensures (exists name :: Leaves(b, at, name, size)) <==> size > 0 && !Inside(b, at, size - 1)
  {
    if size > 0 && !Inside(b, at, size - 1) {
      var name := Zeros(NAME_SIZE + 1);
      var r := FirstOutside(b, at, size);
      assert StopsAt(b, at, name, r);
      assert Leaves(b, at, name, size);
    }
  }

  lemma FirstOutside(b: seq<Byte>, at: nat, size: nat) returns (k: nat)
    requires size > 0 && !Inside(b, at, size - 1)
    ensures k < size && !Inside(b, at, k) && forall j :: 0 <= j < k ==> Inside(b, at, j)
  {
    k := 0;
    while Inside(b, at, k)
      invariant k < size && forall j :: 0 <= j < k ==> Inside(b, at, j)
      decreases size - k
    {
      k := k + 1;
    }
  }

  /**
   * replace_vendor_ramdisk_fragment.  It succeeds exactly if the image is sound, the name is there once and
   * everything has its place; the new image is then the written form of the updated one.  It looks outside
   * the image exactly if the search for the name does.
   */
  method ReplaceFragment(name: seq<Byte>, b: seq<Byte>, ramdisk: seq<Byte>, dtb: seq<Byte>) returns (r: Result,
                         ghost idx: nat)
    requires Proper(b) && |ramdisk| < TWO32
    ensures r.Ok? ==> CanReplace(b, name, idx, ramdisk, dtb) && r.image == Repacked(b, name, idx, ramdisk, dtb)
    ensures !r.Ok? ==> forall i :: !CanReplace(b, name, i, ramdisk, dtb)
    ensures r == Err(BadHeader) <==> !HeaderOk(b)
    ensures r == ReadsOutside <==> LeavesImage(b, name)
  {
    idx := 0;
    forall i | CanReplace(b, name, i, ramdisk, dtb)
      ensures PassesChecks(b) && OnlyOne(b, TableStart(LayoutOf(b)), name, LayoutOf(b).num, i)
    {
      OnlyNamed(b, name, i, ramdisk, dtb);
    }
    if !CheckHeader(b, 4) {
      return Err(BadHeader), idx;
    }
    var l := LayoutOf(b);
    if l.o + l.p + l.q + l.r + l.s > |b| {
      return Err(ImageTooSmall), idx;
    }
    if l.num * ENTRY_SIZE > l.o + l.p + l.q + l.r {
      return Err(TooManyEntries), idx;
    }
    var found := FindUnique(name, b, TableStart(l), l.num);
    match found
    case Missing => return Err(NotFound), idx;
    case Several => return Err(Ambiguous), idx;
    case Outside => return ReadsOutside, idx;
    case Found(i) =>
      idx := i;
      r := Rewrite(b, l, i, ramdisk, dtb, name);
  }
}
