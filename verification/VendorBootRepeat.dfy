/**
 * Repeating a replacement.  Below 4 GiB the footer reaches only the last bytes of the last table entry and what
 * is behind it, so that all the second run goes by is where the first one put it.
 */
module VendorBootRepeat {
  import opened Bytes
  import opened VendorBootImage
  import opened VendorBootRepack
  import opened VendorBootLaws

  function TableEnd(m: Image): nat
    requires Regular(m)
  {
    |m.header| + RamdiskPages(m) + |m.dtb| + ENTRY_SIZE * |m.fragments|
  }

  /** There is a table entry, and the footer, if any, reaches its last 64 bytes at most. */
  predicate Spared(m: Image)
    requires Regular(m)
  {
    m.fragments != [] && (m.footer == [] || TableEnd(m) <= FooterAt(m.length) + FOOTER_SIZE)
  }

  lemma ShortIsSpared(m: Image)
    requires Regular(m) && Fits(m) && m.fragments != [] && m.length < TWO32
    ensures Spared(m)
  {
  }

  lemma StampedFront(body: seq<Byte>, n: nat, footer: seq<Byte>, k: nat)
    requires k <= |body| <= n && (footer == [] || (n >= FOOTER_SIZE == |footer| && k <= FooterAt(n)))
    ensures Stamped(body, n, footer)[..k] == body[..k]
  {
    if footer != [] {
      StampedAt(body, n, footer);
    }
  }

  /** What the footer does not reach is as it was written. */
  lemma FrontAgrees(m: Image, k: nat)
    requires Regular(m) && Fits(m) && Spared(m) && k <= TableEnd(m) - FOOTER_SIZE
    ensures k <= |Body(m)| && Encode(m)[..k] == Body(m)[..k]
  {
    FooterShape(m);
    StampedFront(Body(m), m.length, m.footer, k);
  }

  // ---- the last entry

  /** Entries that agree up to the end of the name. */
  lemma SameFront(e: seq<Byte>, e': seq<Byte>)
    requires |e| == |e'| == ENTRY_SIZE && e[..AT_NAME + NAME_SIZE] == e'[..AT_NAME + NAME_SIZE]
    ensures Get32(e', AT_SIZE) == Get32(e, AT_SIZE) && Get32(e', AT_OFFSET) == Get32(e, AT_OFFSET)
    ensures NameOf(e') == NameOf(e)
  {
    var n := AT_NAME + NAME_SIZE;
    Nested(e, 0, n, AT_SIZE, AT_SIZE + 4);
    Nested(e', 0, n, AT_SIZE, AT_SIZE + 4);
    Nested(e, 0, n, AT_OFFSET, AT_OFFSET + 4);
    Nested(e', 0, n, AT_OFFSET, AT_OFFSET + 4);
    Nested(e, 0, n, AT_NAME, n);
    Nested(e', 0, n, AT_NAME, n);
  }

  lemma BlankName(e: seq<Byte>)
    requires |e| == ENTRY_SIZE
    ensures NameOf(BlankEntry(e)) == NameOf(e)
  {
    BlankEntryFacts(e);
    assert e[8..] == e[8..ENTRY_SIZE] && BlankEntry(e)[8..] == BlankEntry(e)[8..ENTRY_SIZE];
    Nested(e, 8, ENTRY_SIZE, AT_NAME - 8, AT_NAME - 8 + NAME_SIZE);
    Nested(BlankEntry(e), 8, ENTRY_SIZE, AT_NAME - 8, AT_NAME - 8 + NAME_SIZE);
  }

  /** Tables that agree but for the last 64 bytes agree in all entries, of the last one up to its name. */
  lemma EntriesAgree(t: seq<Byte>, t': seq<Byte>, n: nat, j: nat)
    requires |t| == |t'| == ENTRY_SIZE * n && j < n
    requires t[..|t| - FOOTER_SIZE] == t'[..|t| - FOOTER_SIZE]
    ensures j < n - 1 ==> EntryIn(t', j) == EntryIn(t, j)
    ensures EntryIn(t', j)[..AT_NAME + NAME_SIZE] == EntryIn(t, j)[..AT_NAME + NAME_SIZE]
  {
    var k, at := |t| - FOOTER_SIZE, ENTRY_SIZE * j;
    var l := if j < n - 1 then ENTRY_SIZE else AT_NAME + NAME_SIZE;
    Nested(t, 0, k, at, at + l);
    Nested(t', 0, k, at, at + l);
    Nested(t, at, at + ENTRY_SIZE, 0, AT_NAME + NAME_SIZE);
    Nested(t', at, at + ENTRY_SIZE, 0, AT_NAME + NAME_SIZE);
  }

  // ---- what the new image says

  /** The fragments with the last entry as it is in the table. */
  function Reread(fs: seq<Fragment>, t: seq<Byte>): (r: seq<Fragment>)
    requires fs != [] && |t| == ENTRY_SIZE * |fs|
    ensures |r| == |fs| && forall j :: 0 <= j < |fs| ==> r[j].content == fs[j].content
  {
    var k := |fs| - 1;
    fs[k := fs[k].(meta := BlankEntry(EntryIn(t, k)))]
  }

  lemma {:induction false} SameTotal(fs: seq<Fragment>, gs: seq<Fragment>, n: nat)
    requires |fs| == |gs| && n <= |fs| && forall j :: 0 <= j < |fs| ==> gs[j].content == fs[j].content
    ensures Total(gs, n) == Total(fs, n)
  {
    if n > 0 {
      SameTotal(fs, gs, n - 1);
    }
  }

  lemma RereadIsOk(fs: seq<Fragment>, t: seq<Byte>)
    requires EntriesOk(fs) && fs != [] && |t| == ENTRY_SIZE * |fs|
    ensures EntriesOk(Reread(fs, t))
  {
    BlankEntryFacts(EntryIn(t, |fs| - 1));
  }

  lemma RereadDescribes(fs: seq<Fragment>, t: seq<Byte>, ram: seq<Byte>, t': seq<Byte>)
    requires fs != [] && Describes(t, ram, fs) && |t'| == |t|
    requires t[..|t| - FOOTER_SIZE] == t'[..|t| - FOOTER_SIZE]
    ensures Describes(t', ram, Reread(fs, t'))
  {
    SameTotal(fs, Reread(fs, t'), |fs|);
    forall i | 0 <= i < |fs|
      ensures DescribesAt(t', ram, Reread(fs, t'), i)
    {
      assert DescribesAt(t, ram, fs, i);
      RereadDescribesAt(fs, t, ram, t', i);
    }
  }

  lemma RereadDescribesAt(fs: seq<Fragment>, t: seq<Byte>, ram: seq<Byte>, t': seq<Byte>, i: nat)
    requires i < |fs| && |t'| == |t| == ENTRY_SIZE * |fs| && DescribesAt(t, ram, fs, i)
    requires t[..|t| - FOOTER_SIZE] == t'[..|t| - FOOTER_SIZE]
    ensures DescribesAt(t', ram, Reread(fs, t'), i)
  {
    SameTotal(fs, Reread(fs, t'), i);
    SameTotal(fs, Reread(fs, t'), i + 1);
    EntriesAgree(t, t', |fs|, i);
    SameFront(EntryIn(t, i), EntryIn(t', i));
    BlankEntryFacts(EntryIn(t', i));
  }

  lemma LastName(fs: seq<Fragment>, t: seq<Byte>, t': seq<Byte>, k: nat)
    requires EntriesOk(fs) && k + 1 == |fs| && Total(fs, |fs|) < TWO32 && t == Table(fs, |fs|) && |t'| == |t|
    requires t[..|t| - FOOTER_SIZE] == t'[..|t| - FOOTER_SIZE]
    ensures NameOf(Reread(fs, t')[k].meta) == NameOf(fs[k].meta)
  {
    TableDescribes(fs);
    assert DescribesAt(t, Contents(fs, |fs|), fs, k);
    EntriesAgree(t, t', |fs|, k);
    SameFront(EntryIn(t, k), EntryIn(t', k));
    BlankName(EntryIn(t, k));
    BlankName(EntryIn(t', k));
  }

  /** Fragments with the same names are told apart by them alike. */
  lemma SameNamesApart(fs: seq<Fragment>, gs: seq<Fragment>, name: seq<Byte>, i: nat)
    requires EntriesOk(fs) && EntriesOk(gs) && |fs| == |gs| && UniqueFragment(fs, name, i)
    requires forall j :: 0 <= j < |fs| ==> NameOf(gs[j].meta) == NameOf(fs[j].meta)
    ensures UniqueFragment(gs, name, i)
  {
  }

  lemma NamesAgain(fs: seq<Fragment>, t: seq<Byte>, t': seq<Byte>, name: seq<Byte>, i: nat)
    requires fs != [] && EntriesOk(fs) && Total(fs, |fs|) < TWO32 && t == Table(fs, |fs|) && |t'| == |t|
    requires t[..|t| - FOOTER_SIZE] == t'[..|t| - FOOTER_SIZE] && UniqueFragment(fs, name, i)
    ensures EntriesOk(Reread(fs, t')) && UniqueFragment(Reread(fs, t'), name, i)
  {
    RereadIsOk(fs, t');
    forall j | 0 <= j < |fs|
      ensures NameOf(Reread(fs, t')[j].meta) == NameOf(fs[j].meta)
    {
      if j == |fs| - 1 {
        LastName(fs, t, t', j);
      }
    }
    SameNamesApart(fs, Reread(fs, t'), name, i);
  }

  /** The image with this table, rest of the table's pages, bootconfig and footer. */
  function RereadWith(m: Image, t: seq<Byte>, rest: seq<Byte>, boot: seq<Byte>, footer: seq<Byte>): Image
    requires m.fragments != [] && |t| == ENTRY_SIZE * |m.fragments|
  {
    m.(fragments := Reread(m.fragments, t), tableRest := rest, boot := boot, footer := footer)
  }

  lemma RereadIsRegular(m: Image, t: seq<Byte>, rest: seq<Byte>, boot: seq<Byte>, footer: seq<Byte>)
    requires Regular(m) && Fits(m) && m.fragments != [] && |t| == ENTRY_SIZE * |m.fragments|
    requires |rest| == |m.tableRest| && |boot| == |m.boot|
    requires footer == [] || (m.length >= FOOTER_SIZE && |footer| == FOOTER_SIZE && footer[..4] == FOOTER_MAGIC)
    ensures var r := RereadWith(m, t, rest, boot, footer);
            && Regular(r) && Fits(r) && RamdiskTotal(r) == RamdiskTotal(m) && RamdiskPages(r) == RamdiskPages(m)
            && Head(r) == Head(m) && ContentEnd(r) == ContentEnd(m)
  {
    RereadIsOk(m.fragments, t);
    SameTotal(m.fragments, Reread(m.fragments, t), |m.fragments|);
  }

  /** Bytes behind a front, cut in three. */
  lemma ThreeCuts(c: seq<Byte>, front: seq<Byte>, at: nat, i: nat, j: nat, k: nat)
    requires at <= i <= j <= k <= |c| && c[..at] == front
    ensures c[..k] == front + (c[at..i] + c[i..j]) + c[j..k]
  {
  }

  lemma TableAgreesIn(c: seq<Byte>, body: seq<Byte>, front: seq<Byte>, t0: seq<Byte>, t: seq<Byte>, at: nat, n: nat,
                      k: nat, end: nat)
    requires at + n == k <= end <= |body| <= |c| && c[..k] == body[..k] && body[..at] == front
    requires body[at..end] == t0 && t == c[at..end]
    ensures c[..at] == front && n <= |t0| == |t| && t0[..n] == t[..n]
  {
    Nested(c, 0, k, at, k);
    Nested(body, 0, k, at, k);
    Nested(c, 0, k, 0, at);
    Nested(body, 0, k, 0, at);
    Nested(c, at, end, 0, n);
    Nested(body, at, end, 0, n);
  }

  lemma WrittenBody(m: Image, at: nat, k: nat, end: nat, front: seq<Byte>, t: seq<Byte>)
    returns (c: seq<Byte>, body: seq<Byte>)
    requires Regular(m) && Fits(m) && Spared(m) && end == TableEnd(m) && at + ENTRY_SIZE * |m.fragments| == end
    requires k + FOOTER_SIZE == end && front == Head(m) + Ramdisk(m) + m.dtb && t == Table(m.fragments, |m.fragments|)
    ensures c == Encode(m) && end <= |body| <= |c| && c[..k] == body[..k] && body[..at] == front && body[at..end] == t
  {
    c, body := Encode(m), Body(m);
    FrontAgrees(m, k);
    BodyIsInOrder(m, at);
  }

  lemma BodyIsInOrder(m: Image, at: nat)
    requires Regular(m) && Fits(m) && at + ENTRY_SIZE * |m.fragments| == TableEnd(m)
    ensures TableEnd(m) <= |Body(m)| && Body(m)[..at] == Head(m) + Ramdisk(m) + m.dtb
    ensures Body(m)[at..TableEnd(m)] == Table(m.fragments, |m.fragments|)
  {
    var front, t := Head(m) + Ramdisk(m) + m.dtb, Table(m.fragments, |m.fragments|);
    InOrder(Body(m), front, t, m.tableRest, m.boot, at, TableEnd(m));
  }

  lemma InOrder(body: seq<Byte>, front: seq<Byte>, t: seq<Byte>, rest: seq<Byte>, boot: seq<Byte>, at: nat, end: nat)
    requires body == front + (t + rest) + boot && at == |front| && end == at + |t|
    ensures end <= |body| && body[..at] == front && body[at..end] == t
  {
  }

  lemma TableAgain(fs: seq<Fragment>, t: seq<Byte>, t': seq<Byte>)
    requires fs != [] && EntriesOk(fs) && Total(fs, |fs|) < TWO32 && t == Table(fs, |fs|) && |t'| == |t|
    requires t[..|t| - FOOTER_SIZE] == t'[..|t| - FOOTER_SIZE]
    ensures Describes(t', Contents(fs, |fs|), Reread(fs, t'))
  {
    TableDescribes(fs);
    RereadDescribes(fs, t, Contents(fs, |fs|), t');
  }

  /** Bytes that start as an image is written up to its table, and go on with its other parts, say the image. */
  lemma PartsSay(r: Image, c: seq<Byte>, at: nat, end: nat, boot: nat, last: nat, t: seq<Byte>, ct: seq<Byte>,
                 pad: seq<Byte>)
    requires Regular(r) && Fits(r) && |c| == r.length && FooterOf(c) == r.footer && last == ContentEnd(r)
    requires at <= end <= boot <= last <= |c| && c[..at] == Head(r) + (ct + pad) + r.dtb && t == c[at..end]
    requires r.tableRest == c[end..boot] && r.boot == c[boot..last]
    requires Describes(t, ct, r.fragments) && |ct| + |pad| == RamdiskPages(r)
    ensures Sound(c) && Decode(c) == r && TableOf(c, LayoutOf(c)) == t
  {
    ThreeCuts(c, Head(r) + (ct + pad) + r.dtb, at, end, boot, last);
    ReadsBack(r, c, Head(r), ct, pad, t);
  }

  lemma ResemblingSays(m: Image, c: seq<Byte>, at: nat, end: nat, boot: nat, last: nat, t: seq<Byte>,
                       rest: seq<Byte>, bootconfig: seq<Byte>)
    requires Regular(m) && Fits(m) && m.fragments != [] && |c| == m.length
    requires at <= end <= boot <= last == ContentEnd(m) <= |c| && c[..at] == Head(m) + Ramdisk(m) + m.dtb
    requires t == c[at..end] && rest == c[end..boot] && bootconfig == c[boot..last]
    requires |t| == ENTRY_SIZE * |m.fragments| && |rest| == |m.tableRest| && |bootconfig| == |m.boot|
    requires Describes(t, Contents(m.fragments, |m.fragments|), Reread(m.fragments, t))
    ensures Sound(c) && Decode(c) == RereadWith(m, t, rest, bootconfig, FooterOf(c)) && TableOf(c, LayoutOf(c)) == t
  {
    var ct, pad := Contents(m.fragments, |m.fragments|), Zeros(RamdiskPages(m) - RamdiskTotal(m));
    RereadIsRegular(m, t, rest, bootconfig, FooterOf(c));
    PartsSay(RereadWith(m, t, rest, bootconfig, FooterOf(c)), c, at, end, boot, last, t, ct, pad);
  }

  lemma ReadsBack(r: Image, c: seq<Byte>, h: seq<Byte>, ct: seq<Byte>, pad: seq<Byte>, t: seq<Byte>)
    requires Regular(r) && Fits(r) && h == Head(r) && Describes(t, ct, r.fragments)
    requires |ct| + |pad| == RamdiskPages(r) && |c| == r.length && FooterOf(c) == r.footer
    requires c[..ContentEnd(r)] == h + (ct + pad) + r.dtb + (t + r.tableRest) + r.boot
    ensures Sound(c) && Decode(c) == r && TableOf(c, LayoutOf(c)) == t
  {
    HeadFacts(r);
    LaysReadsBack(r, c, h, ct, pad, t);
  }

  lemma AgreeingSays(m: Image, c: seq<Byte>, at: nat, end: nat, boot: nat, last: nat, t: seq<Byte>, rest: seq<Byte>,
                     bootconfig: seq<Byte>, t0: seq<Byte>, n: nat)
    requires Regular(m) && Fits(m) && m.fragments != [] && |c| == m.length
    requires at <= end <= boot <= last == ContentEnd(m) <= |c| && c[..at] == Head(m) + Ramdisk(m) + m.dtb
    requires t == c[at..end] && rest == c[end..boot] && bootconfig == c[boot..last]
    requires |t| == ENTRY_SIZE * |m.fragments| && |rest| == |m.tableRest| && |bootconfig| == |m.boot|
    requires t0 == Table(m.fragments, |m.fragments|) && n + FOOTER_SIZE == |t0| == |t| && t0[..n] == t[..n]
    ensures Sound(c) && Decode(c) == RereadWith(m, t, rest, bootconfig, FooterOf(c)) && TableOf(c, LayoutOf(c)) == t
  {
    TableAgain(m.fragments, t0, t);
    ResemblingSays(m, c, at, end, boot, last, t, rest, bootconfig);
  }

  lemma NewImageFront(m: Image, at: nat, n: nat, k: nat, end: nat, front: seq<Byte>, t0: seq<Byte>)
    returns (c: seq<Byte>, t: seq<Byte>)
    requires Regular(m) && Fits(m) && Spared(m) && end == TableEnd(m) && at + |t0| == end
    requires t0 == Table(m.fragments, |m.fragments|)
    requires at + n == k && k + FOOTER_SIZE == end && front == Head(m) + Ramdisk(m) + m.dtb
    ensures c == Encode(m) && end <= |c| && c[..at] == front && t == c[at..end]
    ensures |t0| == |t| && t0[..n] == t[..n]
  {
    var body;
    c, body := WrittenBody(m, at, k, end, front, t0);
    t := c[at..end];
    TableAgreesIn(c, body, front, t0, t, at, n, k, end);
  }

  // ---- writing it again

  lemma StampedBehind(body: seq<Byte>, n: nat, footer: seq<Byte>, x: nat)
    requires |body| <= x < n && (footer == [] || (n >= FOOTER_SIZE == |footer|))
    requires footer == [] || !(FooterAt(n) <= x < FooterAt(n) + FOOTER_SIZE)
    ensures Stamped(body, n, footer)[x] == 0
  {
  }

  lemma StampedByte(body: seq<Byte>, n: nat, footer: seq<Byte>, x: nat)
    requires x < |body| <= n && (footer == [] || (n >= FOOTER_SIZE == |footer|))
    requires footer == [] || !(FooterAt(n) <= x < FooterAt(n) + FOOTER_SIZE)
    ensures Stamped(body, n, footer)[x] == body[x]
  {
  }

  lemma FooterByte(c: seq<Byte>, n: nat, footer: seq<Byte>, x: nat)
    requires |c| == n >= FOOTER_SIZE && footer == FooterOf(c) != [] && FooterAt(n) <= x < FooterAt(n) + FOOTER_SIZE
    ensures footer[x - FooterAt(n)] == c[x]
  {
  }

  lemma StampedAgainAt(body: seq<Byte>, body': seq<Byte>, n: nat, footer: seq<Byte>, c: seq<Byte>, again: seq<Byte>,
                       x: nat)
    requires x < n && |body'| == |body| <= n && (footer == [] || (n >= FOOTER_SIZE == |footer| && again == footer))
    requires c == Stamped(body, n, footer) && again == FooterOf(c) && body' == c[..|body|]
    ensures Stamped(body', n, again)[x] == c[x]
  {
    if again != [] && FooterAt(n) <= x < FooterAt(n) + FOOTER_SIZE {
      FooterByte(c, n, again, x);
      StampedFooterByte(body', n, again, x - FooterAt(n));
    } else if x < |body| {
      StampedByte(body', n, again, x);
    } else {
      StampedBehind(body', n, again, x);
      StampedBehind(body, n, footer, x);
    }
  }

  lemma StampedFooterByte(body: seq<Byte>, n: nat, footer: seq<Byte>, k: nat)
    requires |body| <= n && n >= FOOTER_SIZE == |footer| && k < FOOTER_SIZE
    ensures Stamped(body, n, footer)[FooterAt(n) + k] == footer[k]
  {
    StampedAt(body, n, footer);
  }

  /** Stamping what is there already changes nothing. */
  lemma StampAgain(body: seq<Byte>, n: nat, footer: seq<Byte>, c: seq<Byte>)
    requires |body| <= n && (footer == [] || (n >= FOOTER_SIZE == |footer| && footer[..4] == FOOTER_MAGIC))
    requires c == Stamped(body, n, footer)
    ensures Stamped(c[..|body|], n, FooterOf(c)) == c
  {
    if footer != [] {
      StampedFooter(body, n, footer);
    }
    forall x | 0 <= x < n
      ensures Stamped(c[..|body|], n, FooterOf(c))[x] == c[x]
    {
      StampedAgainAt(body, c[..|body|], n, footer, c, FooterOf(c), x);
    }
  }

  lemma DescribedOffsets(t: seq<Byte>, ram: seq<Byte>, fs: seq<Fragment>)
    requires Describes(t, ram, fs)
    ensures PrefixOffsets(t, |fs|)
  {
    forall j | 0 <= j < |fs|
      ensures Get32(EntryIn(t, j), AT_OFFSET) == SizesIn(t, j)
    {
      SizesReadBack(t, ram, fs, j);
      assert DescribesAt(t, ram, fs, j);
    }
  }

  lemma {:induction false} SameContents(fs: seq<Fragment>, gs: seq<Fragment>, n: nat)
    requires |fs| == |gs| && n <= |fs| && forall j :: 0 <= j < |fs| ==> gs[j].content == fs[j].content
    ensures Contents(gs, n) == Contents(fs, n)
  {
    if n > 0 {
      SameContents(fs, gs, n - 1);
    }
  }

  /** Two strings that agree up to `at`, and outside of a gap before `at`, are the same. */
  lemma GapAgrees(c: seq<Byte>, body: seq<Byte>, at: nat, lo: nat, hi: nat)
    requires SameOutside(c, body, lo, hi) && hi <= at <= |body| && c[..at] == body[..at]
    ensures c[..|body|] == body
  {
    forall x | 0 <= x < |body|
      ensures c[x] == body[x]
    {
      assert x < at ==> c[x] == c[..at][x] && body[x] == body[..at][x];
    }
  }

  lemma BodyStarts(r: Image, at: nat)
    requires Regular(r) && Fits(r) && at == |r.header| + RamdiskPages(r) + |r.dtb|
    ensures at <= |Body(r)| && Body(r)[..at] == Head(r) + Ramdisk(r) + r.dtb
  {
    BodyIsInOrder(r, at);
  }

  /** Bytes that say an image and start as it is written are its bytes up to the end of its content. */
  lemma SaidIsWritten(r: Image, c: seq<Byte>, at: nat)
    requires Sound(c) && Decode(c) == r && PrefixOffsets(TableOf(c, LayoutOf(c)), LayoutOf(c).num)
    requires Regular(r) && Fits(r) && at == |r.header| + RamdiskPages(r) + |r.dtb| <= |c|
    requires c[..at] == Head(r) + Ramdisk(r) + r.dtb
    ensures ContentEnd(r) <= |c| && c[..ContentEnd(r)] == Body(r)
  {
    var lo, hi := |r.header| + RamdiskTotal(r), |r.header| + RamdiskPages(r);
    SaidOutside(r, c, lo, hi);
    BodyStarts(r, at);
    GapAgrees(c, Body(r), at, lo, hi);
  }

  lemma SaidOutside(r: Image, c: seq<Byte>, lo: nat, hi: nat)
    requires Sound(c) && Decode(c) == r && PrefixOffsets(TableOf(c, LayoutOf(c)), LayoutOf(c).num)
    requires Regular(r) && Fits(r) && lo == |r.header| + RamdiskTotal(r) && hi == |r.header| + RamdiskPages(r)
    ensures SameOutside(c, Body(r), lo, hi)
  {
    EncodeDecode(c);
  }

  /** The bytes of what the new image says are the new image. */
  lemma WrittenAgain(m: Image, r: Image, c: seq<Byte>)
    requires Regular(m) && Fits(m) && c == Encode(m) && Regular(r) && Fits(r)
    requires r.length == m.length && r.footer == FooterOf(c) && ContentEnd(r) == ContentEnd(m) <= |c|
    requires c[..ContentEnd(m)] == Body(r)
    ensures Encode(r) == c
  {
    FooterShape(m);
    StampAgain(Body(m), m.length, m.footer, c);
  }

  lemma AgreeingImage(m: Image, c: seq<Byte>, at: nat, end: nat, t: seq<Byte>, t0: seq<Byte>, n: nat)
    returns (r: Image)
    requires Regular(m) && Fits(m) && m.fragments != [] && |c| == m.length && end == TableEnd(m)
    requires at <= end <= |c| && c[..at] == Head(m) + Ramdisk(m) + m.dtb && t == c[at..end]
    requires |t| == ENTRY_SIZE * |m.fragments| && t0 == Table(m.fragments, |m.fragments|)
    requires n + FOOTER_SIZE == |t0| == |t| && t0[..n] == t[..n]
    ensures r == RereadWith(m, t, r.tableRest, r.boot, FooterOf(c))
    ensures |r.tableRest| == |m.tableRest| && |r.boot| == |m.boot|
    ensures Sound(c) && Decode(c) == r && TableOf(c, LayoutOf(c)) == t
  {
    var boot, last := end + |m.tableRest|, ContentEnd(m);
    r := RereadWith(m, t, c[end..boot], c[boot..last], FooterOf(c));
    AgreeingSays(m, c, at, end, boot, last, t, r.tableRest, r.boot, t0, n);
  }

  /** The parts of a new image: its bytes, and the image they say. */
  lemma NewImage(m: Image, at: nat, n: nat, end: nat, t0: seq<Byte>) returns (c: seq<Byte>, t: seq<Byte>, r: Image)
    requires Regular(m) && Fits(m) && Spared(m) && end == TableEnd(m) && at + |t0| == end && n + FOOTER_SIZE == |t0|
    requires t0 == Table(m.fragments, |m.fragments|)
    ensures c == Encode(m) && at <= |c| && c[..at] == Head(m) + Ramdisk(m) + m.dtb
    ensures |t| == |t0| && t0[..n] == t[..n]
    ensures r == RereadWith(m, t, r.tableRest, r.boot, FooterOf(c))
    ensures |r.tableRest| == |m.tableRest| && |r.boot| == |m.boot|
    ensures Sound(c) && Decode(c) == r && TableOf(c, LayoutOf(c)) == t
  {
    c, t := NewImageFront(m, at, n, at + n, end, Head(m) + Ramdisk(m) + m.dtb, t0);
    r := AgreeingImage(m, c, at, end, t, t0, n);
  }

  lemma OffsetsAgain(fs: seq<Fragment>, t0: seq<Byte>, t: seq<Byte>)
    requires fs != [] && EntriesOk(fs) && Total(fs, |fs|) < TWO32 && t0 == Table(fs, |fs|) && |t| == |t0|
    requires t0[..|t0| - FOOTER_SIZE] == t[..|t0| - FOOTER_SIZE]
    ensures PrefixOffsets(t, |fs|)
  {
    TableAgain(fs, t0, t);
    DescribedOffsets(t, Contents(fs, |fs|), Reread(fs, t));
  }

  lemma StartsAlike(m: Image, r: Image)
    requires Regular(m) && Fits(m) && Regular(r) && Fits(r) && |r.fragments| == |m.fragments| && r.dtb == m.dtb
    requires forall j :: 0 <= j < |m.fragments| ==> r.fragments[j].content == m.fragments[j].content
    requires RamdiskTotal(r) == RamdiskTotal(m) && RamdiskPages(r) == RamdiskPages(m) && Head(r) == Head(m)
    ensures Head(r) + Ramdisk(r) + r.dtb == Head(m) + Ramdisk(m) + m.dtb
  {
    SameContents(m.fragments, r.fragments, |m.fragments|);
  }

  lemma SaidAndWritten(m: Image, r: Image, c: seq<Byte>, t: seq<Byte>, at: nat, front: seq<Byte>)
    requires Regular(m) && Fits(m) && c == Encode(m) && Regular(r) && Fits(r)
    requires r.length == m.length && r.footer == FooterOf(c) && ContentEnd(r) == ContentEnd(m)
    requires Sound(c) && Decode(c) == r && TableOf(c, LayoutOf(c)) == t
    requires |t| == ENTRY_SIZE * |r.fragments| && PrefixOffsets(t, |r.fragments|)
    requires at == |r.header| + RamdiskPages(r) + |r.dtb| <= |c| && front == Head(r) + Ramdisk(r) + r.dtb == c[..at]
    ensures Encode(r) == c
  {
    SaidIsWritten(r, c, at);
    WrittenAgain(m, r, c);
  }

  /** The new image, read and written, is itself. */
  lemma NewImageIsWritten(m: Image, c: seq<Byte>, t: seq<Byte>, t0: seq<Byte>, r: Image, at: nat)
    requires Regular(m) && Fits(m) && m.fragments != [] && c == Encode(m) && t0 == Table(m.fragments, |m.fragments|)
    requires at == |m.header| + RamdiskPages(m) + |m.dtb| <= |c| && c[..at] == Head(m) + Ramdisk(m) + m.dtb
    requires |t| == |t0| && t0[..|t0| - FOOTER_SIZE] == t[..|t0| - FOOTER_SIZE]
    requires r == RereadWith(m, t, r.tableRest, r.boot, FooterOf(c))
    requires |r.tableRest| == |m.tableRest| && |r.boot| == |m.boot|
    requires Sound(c) && Decode(c) == r && TableOf(c, LayoutOf(c)) == t
    ensures Regular(r) && Fits(r) && Encode(r) == c
  {
    RereadIsRegular(m, t, r.tableRest, r.boot, FooterOf(c));
    OffsetsAgain(m.fragments, t0, t);
    StartsAlike(m, r);
    SaidAndWritten(m, r, c, t, at, c[..at]);
  }

  // ---- repeating

  lemma UpdatedAlready(m: Image, r: Image, i: nat, ramdisk: seq<Byte>, dtb: seq<Byte>)
    requires Regular(m) && Regular(r) && i < |m.fragments| == |r.fragments| && Update(m, i, ramdisk, dtb) == m
    requires r.header == m.header && r.dtb == m.dtb && r.dtbSize == m.dtbSize
    requires r.fragments[i].content == m.fragments[i].content
    ensures Update(r, i, ramdisk, dtb) == r
  {
    assert m.fragments[i].content == Update(m, i, ramdisk, dtb).fragments[i].content == ramdisk;
    assert r.fragments[i := r.fragments[i].(content := ramdisk)] == r.fragments;
  }

  lemma WrittenAndRead(m: Image, at: nat, n: nat, end: nat, t0: seq<Byte>)
    returns (c: seq<Byte>, t: seq<Byte>, r: Image)
    requires Regular(m) && Fits(m) && Spared(m) && end == TableEnd(m) && at + |t0| == end && n + FOOTER_SIZE == |t0|
    requires t0 == Table(m.fragments, |m.fragments|)
    ensures c == Encode(m) && |t| == |t0| && t0[..n] == t[..n]
    ensures r == RereadWith(m, t, r.tableRest, r.boot, r.footer)
    ensures Sound(c) && Decode(c) == r && Regular(r) && Fits(r) && Encode(r) == c
  {
    c, t, r := NewImage(m, at, n, end, t0);
    NewImageIsWritten(m, c, t, t0, r, at);
  }

  /** What the new image says, and that it is said by no other bytes. */
  lemma NewImageAgain(m: Image, name: seq<Byte>, i: nat) returns (c: seq<Byte>, r: Image)
    requires Regular(m) && Fits(m) && Spared(m) && UniqueFragment(m.fragments, name, i)
    ensures c == Encode(m) && Sound(c) && Decode(c) == r && Regular(r) && Fits(r) && Encode(r) == c
    ensures UniqueFragment(r.fragments, name, i) && i < |m.fragments| == |r.fragments|
    ensures r.fragments[i].content == m.fragments[i].content
    ensures r.header == m.header && r.dtb == m.dtb && r.dtbSize == m.dtbSize
  {
    var t0, t := Table(m.fragments, |m.fragments|), [];
    var end, n := TableEnd(m), |t0| - FOOTER_SIZE;
    c, t, r := WrittenAndRead(m, end - |t0|, n, end, t0);
    NamesAgain(m.fragments, t0, t, name, i);
  }

  /** An image that the update would not change is written again as it is. */
  lemma RepeatOn(m: Image, name: seq<Byte>, i: nat, ramdisk: seq<Byte>, dtb: seq<Byte>)
    requires Regular(m) && Fits(m) && Spared(m) && Replaceable(m, name, i, ramdisk, dtb)
    requires Update(m, i, ramdisk, dtb) == m
    ensures CanReplace(Encode(m), name, i, ramdisk, dtb)
    ensures Repacked(Encode(m), name, i, ramdisk, dtb) == Encode(m)
  {
    var c, r := NewImageAgain(m, name, i);
    UpdatedAlready(m, r, i, ramdisk, dtb);
    SaidIsRepeated(c, r, name, i, ramdisk, dtb);
  }

  lemma SaidIsRepeated(c: seq<Byte>, r: Image, name: seq<Byte>, i: nat, ramdisk: seq<Byte>, dtb: seq<Byte>)
    requires Sound(c) && Decode(c) == r && Regular(r) && Fits(r) && Encode(r) == c
    requires UniqueFragment(r.fragments, name, i) && (dtb != [] ==> r.dtbSize <= |r.dtb|)
    requires Update(r, i, ramdisk, dtb) == r
    ensures CanReplace(c, name, i, ramdisk, dtb) && Repacked(c, name, i, ramdisk, dtb) == c
  {
  }

  /**
   * Repeating a replacement changes nothing, whether or not the first one lost content to the footer, for
   * every image below 4 GiB, and for intact ones of any size.
   */
  lemma RepeatChangesNothing(b: seq<Byte>, name: seq<Byte>, i: nat, x: seq<Byte>, d: seq<Byte>)
    requires CanReplace(b, name, i, x, d) && (|b| < TWO32 || Intact(Wanted(b, name, i, x, d)))
    ensures var c := Repacked(b, name, i, x, d);
            CanReplace(c, name, i, x, d) && Repacked(c, name, i, x, d) == c
  {
    var m := Wanted(b, name, i, x, d);
    DecodedIsRegular(b);
    UpdateTwice(Decode(b), name, i, x, d, x, d);
    if |b| < TWO32 {
      ShortIsSpared(m);
      RepeatOn(m, name, i, x, d);
    } else {
      ReplaceTwice(b, name, i, x, d, x, d);
    }
  }

  // ---- an image of more than 4 GiB

  const COMMAND_LINE_END: nat := 2040

  /** A small header with the mark of a footer in its command line. */
  function MarkedHeader(): (h: seq<Byte>)
    ensures LikeSmallHeader(h, 1, ENTRY_SIZE) && h[COMMAND_LINE_END..COMMAND_LINE_END + 4] == FOOTER_MAGIC
  {
    var h := seq(HEADER_V4_SIZE, i requires 0 <= i =>
      if COMMAND_LINE_END <= i < COMMAND_LINE_END + 4 then FOOTER_MAGIC[i - COMMAND_LINE_END]
      else SmallHeaderAt(i, 1, ENTRY_SIZE));
    assert h[COMMAND_LINE_END..COMMAND_LINE_END + 4] == FOOTER_MAGIC;
    h
  }

  /** An image of one empty fragment, where a 32-bit seek to the footer ends in the command line. */
  predicate IsHuge(m: Image, h: seq<Byte>, e: seq<Byte>) {
    && LikeSmallHeader(h, 1, ENTRY_SIZE) && h[COMMAND_LINE_END..COMMAND_LINE_END + 4] == FOOTER_MAGIC
    && |e| == ENTRY_SIZE && BlankEntry(e) == e && (forall i :: 0 <= i < |e| ==> e[i] == 0)
    && m == Image(TWO32 + COMMAND_LINE_END + FOOTER_SIZE, h, [Fragment(e, [])], 0, [], [], [], m.footer)
    && m.footer == h[COMMAND_LINE_END..COMMAND_LINE_END + FOOTER_SIZE]
  }

  lemma HugeExists() returns (m: Image, h: seq<Byte>, e: seq<Byte>)
    ensures IsHuge(m, h, e)
  {
    h, e := MarkedHeader(), Zeros(ENTRY_SIZE);
    ZerosAreBlank();
    m := Image(TWO32 + COMMAND_LINE_END + FOOTER_SIZE, h, [Fragment(e, [])], 0, [], [], [],
               h[COMMAND_LINE_END..COMMAND_LINE_END + FOOTER_SIZE]);
  }

  lemma HugeFooter(m: Image, h: seq<Byte>, e: seq<Byte>)
    requires IsHuge(m, h, e)
    ensures |m.footer| == FOOTER_SIZE && m.footer[..4] == FOOTER_MAGIC && FooterAt(m.length) == COMMAND_LINE_END
  {
    Nested(h, COMMAND_LINE_END, COMMAND_LINE_END + FOOTER_SIZE, 0, 4);
  }

  lemma HugeIsRegular(m: Image, h: seq<Byte>, e: seq<Byte>)
    requires IsHuge(m, h, e) && |m.footer| == FOOTER_SIZE && m.footer[..4] == FOOTER_MAGIC
    ensures Regular(m) && Fits(m) && ContentEnd(m) == HEADER_V4_SIZE + ENTRY_SIZE
  {
    SmallHeaderFields(h, 1, ENTRY_SIZE);
    OneEntryIsRegular(m, e, []);
  }

  /** The footer covers nothing but itself. */
  lemma CoversItself(body: seq<Byte>, h: seq<Byte>, at: nat, footer: seq<Byte>, lo: nat)
    requires at + |footer| <= |h| <= |body| && body[..|h|] == h && footer == h[at..at + |footer|] && |h| <= lo
    ensures Covered(body, at, footer, lo, lo) == footer
  {
    var under := Covered(body, at, footer, lo, lo);
    forall k | 0 <= k < |footer|
      ensures under[k] == footer[k]
    {
      assert body[at + k] == body[..|h|][at + k] == footer[k];
    }
  }

  lemma HeadInFront(body: seq<Byte>, h: seq<Byte>, e: seq<Byte>)
    requires body == h + [] + e
    ensures |h| <= |body| && body[..|h|] == h
  {
  }

  lemma HugeIsIntact(m: Image, h: seq<Byte>, e: seq<Byte>)
    requires IsHuge(m, h, e) && Regular(m) && Fits(m) && FooterAt(m.length) == COMMAND_LINE_END
    ensures Intact(m)
  {
    SmallField(h, AT_RAMDISK_SIZE, 0);
    SmallField(h, AT_DTB_SIZE, 0);
    HugeIsEmpty(m, h, e);
    OneEntryBody(m, e);
    HeadInFront(Body(m), h, e);
    CoversItself(Body(m), h, COMMAND_LINE_END, m.footer, HEADER_V4_SIZE);
  }

  function WithTree(m: Image): Image {
    m.(dtbSize := 1, dtb := [7])
  }

  lemma HugeIsEmpty(m: Image, h: seq<Byte>, e: seq<Byte>)
    requires IsHuge(m, h, e) && Regular(m)
    ensures PageOf(m.header) == 1 && RamdiskTotal(m) == RamdiskPages(m) == 0
  {
    SmallHeaderFields(h, 1, ENTRY_SIZE);
    assert Total(m.fragments, 1) == 0;
  }

  lemma TreeIsRegular(m: Image)
    requires Regular(m)
    ensures Regular(WithTree(m)) && RamdiskTotal(WithTree(m)) == RamdiskTotal(m)
    ensures RamdiskPages(WithTree(m)) == RamdiskPages(m) && ContentEnd(WithTree(m)) == ContentEnd(m) + 1 - |m.dtb|
  {
  }

  lemma TreeFits(m: Image)
    requires Regular(m) && Fits(m) && PageOf(m.header) == 1 && RamdiskTotal(m) == RamdiskPages(m) == 0
    requires m.dtb == [] && ContentEnd(m) < m.length && ContentEnd(m) + 1 < TWO32
    ensures Regular(WithTree(m)) && Fits(WithTree(m)) && RamdiskPages(WithTree(m)) == 0
  {
    TreeIsRegular(m);
    OneBytePage(1, PageOf(m.header));
  }

  lemma OneBytePage(v: Uint32, page: Uint32)
    requires page == 1
    ensures RoundUp(v, page) == v
  {
  }

  /** A device tree of one byte can be put in. */
  lemma TreeIsUpdate(m: Image, e: seq<Byte>)
    requires Regular(m) && PageOf(m.header) == 1 && m.fragments == [Fragment(e, [])]
    ensures Update(m, 0, [], [7]) == WithTree(m)
  {
    assert m.fragments[0 := m.fragments[0].(content := [])] == m.fragments;
    assert [7] + Zeros(0) == [7];
  }

  lemma TreeReplaces(m: Image, e: seq<Byte>)
    requires Regular(m) && Fits(m) && PageOf(m.header) == 1 && RamdiskTotal(m) == RamdiskPages(m) == 0
    requires m.fragments == [Fragment(e, [])] && |e| == ENTRY_SIZE && m.dtb == [] && m.dtbSize == 0
    requires ContentEnd(m) < m.length && ContentEnd(m) + 1 < TWO32
    ensures Regular(WithTree(m)) && Fits(WithTree(m)) && RamdiskPages(WithTree(m)) == 0
    ensures Replaceable(m, NameOf(e), 0, [], [7]) && Update(m, 0, [], [7]) == WithTree(m)
  {
    TreeFits(m);
    TreeIsUpdate(m, e);
    TreeIsPossible(m, e);
  }

  lemma TreeIsPossible(m: Image, e: seq<Byte>)
    requires Regular(m) && m.fragments == [Fragment(e, [])] && |e| == ENTRY_SIZE && m.dtbSize <= |m.dtb|
    requires Regular(WithTree(m)) && Fits(WithTree(m)) && Update(m, 0, [], [7]) == WithTree(m)
    ensures Replaceable(m, NameOf(e), 0, [], [7])
  {
  }

  lemma OneEntryBody(n: Image, e: seq<Byte>)
    requires Regular(n) && Fits(n) && n.fragments == [Fragment(e, [])] && n.tableRest == n.boot == []
    requires RamdiskPages(n) == 0
    ensures Body(n) == Head(n) + n.dtb + e
  {
    assert Total(n.fragments, 1) == 0;
    OneEntryTable(n.fragments, e);
    assert Ramdisk(n) == [];
    NothingBetween(Head(n), n.dtb, e);
  }

  lemma OneEntryTable(fs: seq<Fragment>, e: seq<Byte>)
    requires EntriesOk(fs) && fs == [Fragment(e, [])]
    ensures Table(fs, 1) == e
  {
    assert fs[0].meta == e;
    assert EntryOf(fs, 0) == BlankEntry(e);
  }

  lemma NothingBetween(h: seq<Byte>, dtb: seq<Byte>, e: seq<Byte>)
    ensures h + [] + dtb + (e + []) + [] == h + dtb + e
  {
  }

  lemma TreeHead(n: Image, h: seq<Byte>)
    requires Regular(n) && n.header == h && n.dtbSize == 1 && RamdiskTotal(n) == 0 && Put32(h, AT_RAMDISK_SIZE, 0) == h
    ensures Head(n) == Put32(h, AT_DTB_SIZE, 1)
  {
  }

  /** The footer puts the old size of the device tree back. */
  lemma TreeIsDenied(h: seq<Byte>, e: seq<Byte>, body: seq<Byte>, length: nat, footer: seq<Byte>, c: seq<Byte>)
    requires |h| == HEADER_V4_SIZE && |e| == ENTRY_SIZE && (forall i :: 0 <= i < |e| ==> e[i] == 0)
    requires body == Put32(h, AT_DTB_SIZE, 1) + [7] + e && |body| <= length && FOOTER_SIZE <= length
    requires body[..HEADER_V4_SIZE] == Put32(h, AT_DTB_SIZE, 1)
    requires footer == h[COMMAND_LINE_END..COMMAND_LINE_END + FOOTER_SIZE] && FooterAt(length) == COMMAND_LINE_END
    requires c == Stamped(body, length, footer)
    ensures |c| > HEADER_V4_SIZE + ENTRY_SIZE && c[..HEADER_V4_SIZE] == h
    ensures c[HEADER_V4_SIZE] == 7 && forall x :: HEADER_V4_SIZE < x < HEADER_V4_SIZE + 4 ==> c[x] == 0
  {
    forall x | 0 <= x < HEADER_V4_SIZE
      ensures c[x] == h[x]
    {
      HeaderByteStays(h, body, length, footer, x);
    }
    forall x | HEADER_V4_SIZE <= x < HEADER_V4_SIZE + 4
      ensures c[x] == if x == HEADER_V4_SIZE then 7 else 0
    {
      StampedByte(body, length, footer, x);
    }
  }

  lemma HeaderByteStays(h: seq<Byte>, body: seq<Byte>, length: nat, footer: seq<Byte>, x: nat)
    requires x < |h| == HEADER_V4_SIZE <= |body| <= length && FOOTER_SIZE <= length
    requires body[..HEADER_V4_SIZE] == Put32(h, AT_DTB_SIZE, 1)
    requires footer == h[COMMAND_LINE_END..COMMAND_LINE_END + FOOTER_SIZE] && FooterAt(length) == COMMAND_LINE_END
    ensures Stamped(body, length, footer)[x] == h[x]
  {
    if COMMAND_LINE_END <= x < COMMAND_LINE_END + FOOTER_SIZE {
      StampedFooterByte(body, length, footer, x - COMMAND_LINE_END);
    } else {
      StampedByte(body, length, footer, x);
      assert body[x] == body[..HEADER_V4_SIZE][x] == h[x];
    }
  }

  lemma HugeIsDenied(m: Image, h: seq<Byte>, e: seq<Byte>, n: Image)
    requires IsHuge(m, h, e) && Regular(m) && n == WithTree(m) && Regular(n) && Fits(n) && RamdiskPages(n) == 0
    requires RamdiskTotal(m) == 0 && FooterAt(n.length) == COMMAND_LINE_END
    ensures !Sound(Encode(n))
  {
    SmallField(h, AT_RAMDISK_SIZE, 0);
    TreeHead(n, h);
    OneEntryBody(n, e);
    assert Body(n)[..HEADER_V4_SIZE] == Put32(h, AT_DTB_SIZE, 1);
    TreeIsDenied(h, e, Body(n), n.length, n.footer, Encode(n));
    DeniedIsNotSound(Encode(n), h);
  }

  lemma HeadIsRead(c: seq<Byte>, h: seq<Byte>)
    requires LikeSmallHeader(h, 1, ENTRY_SIZE) && |c| > HEADER_V4_SIZE + ENTRY_SIZE && c[..HEADER_V4_SIZE] == h
    ensures HeaderOk(c) && LayoutOf(c).o == HEADER_V4_SIZE && LayoutOf(c).p == LayoutOf(c).q == LayoutOf(c).ramdisk == 0
    ensures LayoutOf(c).num == 1
  {
    SmallHeaderFields(h, 1, ENTRY_SIZE);
    FieldOfPrefix(c, HEADER_V4_SIZE, AT_VERSION);
    FieldOfPrefix(c, HEADER_V4_SIZE, AT_PAGE_SIZE);
    FieldOfPrefix(c, HEADER_V4_SIZE, AT_RAMDISK_SIZE);
    FieldOfPrefix(c, HEADER_V4_SIZE, AT_DTB_SIZE);
    FieldOfPrefix(c, HEADER_V4_SIZE, AT_ENTRY_NUM);
    assert c[..8] == h[..8];
  }

  /** The table is read one byte early, where its only entry claims a ramdisk of seven bytes. */
  lemma DeniedIsNotSound(c: seq<Byte>, h: seq<Byte>)
    requires LikeSmallHeader(h, 1, ENTRY_SIZE) && |c| > HEADER_V4_SIZE + ENTRY_SIZE && c[..HEADER_V4_SIZE] == h
    requires c[HEADER_V4_SIZE] == 7 && forall x :: HEADER_V4_SIZE < x < HEADER_V4_SIZE + 4 ==> c[x] == 0
    ensures !Sound(c)
  {
    HeadIsRead(c, h);
    var t := c[HEADER_V4_SIZE..HEADER_V4_SIZE + ENTRY_SIZE];
    assert EntryIn(t, 0) == t;
    SmallField(t, AT_SIZE, 7);
    assert SizesIn(t, 1) == SizesIn(t, 0) + SizeIn(t, 0) == 7;
  }

  /**
   * From 4 GiB on a repetition can fail: here the first replacement succeeds, and its result is not even an
   * image that can be replaced in.
   */
  lemma RepeatCanFail() returns (b: seq<Byte>, name: seq<Byte>)
    ensures |b| >= TWO32 && CanReplace(b, name, 0, [], [7]) && !Sound(Repacked(b, name, 0, [], [7]))
  {
    var m, h, e := HugeExists();
    HugeFooter(m, h, e);
    HugeIsRegular(m, h, e);
    HugeIsIntact(m, h, e);
    b, name := Encode(m), NameOf(e);
    DecodeEncode(m);
    HugeTree(m, h, e);
    HugeIsDenied(m, h, e, WithTree(m));
  }

  lemma HugeTree(m: Image, h: seq<Byte>, e: seq<Byte>)
    requires IsHuge(m, h, e) && Regular(m) && Fits(m) && ContentEnd(m) == HEADER_V4_SIZE + ENTRY_SIZE
    ensures Replaceable(m, NameOf(e), 0, [], [7]) && Update(m, 0, [], [7]) == WithTree(m)
    ensures RamdiskTotal(m) == 0 && Regular(WithTree(m)) && Fits(WithTree(m)) && RamdiskPages(WithTree(m)) == 0
  {
    HugeIsEmpty(m, h, e);
    TreeReplaces(m, e);
  }
}
