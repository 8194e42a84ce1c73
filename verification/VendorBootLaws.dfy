/** What replacing a fragment of a vendor boot image preserves, and the laws it obeys. */
module VendorBootLaws {
  import opened Bytes
  import opened VendorBootImage
  import opened VendorBootRepack

  /** Every offset in the table is the sum of the sizes before it. */
  predicate PrefixOffsets(t: seq<Byte>, n: nat)
    requires |t| == ENTRY_SIZE * n
  {
    forall j :: 0 <= j < n ==> Get32(EntryIn(t, j), AT_OFFSET) == SizesIn(t, j)
  }

  lemma EncodedOffsets(fs: seq<Fragment>)
    requires EntriesOk(fs) && Total(fs, |fs|) < TWO32
    ensures PrefixOffsets(Table(fs, |fs|), |fs|)
  {
    var t, ram := Table(fs, |fs|), Contents(fs, |fs|);
    TableDescribes(fs);
    forall j | 0 <= j < |fs|
      ensures Get32(EntryIn(t, j), AT_OFFSET) == SizesIn(t, j)
    {
      SizesReadBack(t, ram, fs, j);
      assert DescribesAt(t, ram, fs, j);
    }
  }

  // ---- writing back what was read

  lemma {:induction false} ContentsBack(t: seq<Byte>, ram: seq<Byte>, fs: seq<Fragment>, k: nat)
    requires |t| == ENTRY_SIZE * |fs| && SizesIn(t, |fs|) <= |ram| && fs == FragmentsIn(t, ram, |fs|) && k <= |fs|
    ensures SizesIn(t, k) <= |ram| && Contents(fs, k) == ram[..SizesIn(t, k)]
  {
    SizesGrow(t, k, |fs|);
    if k > 0 {
      ContentsBack(t, ram, fs, k - 1);
      FragmentsInAt(t, ram, |fs|, k - 1);
      NextSlice(ram, SizesIn(t, k - 1), SizesIn(t, k), Contents(fs, k - 1), fs[k - 1].content);
    }
  }

  lemma NextSlice(s: seq<Byte>, i: nat, j: nat, a: seq<Byte>, x: seq<Byte>)
    requires i <= j <= |s| && a == s[..i] && x == s[i..j]
    ensures a + x == s[..j]
  {
  }

  /** Tables with the same entries are the same. */
  lemma {:induction false} SameEntries(a: seq<Byte>, b: seq<Byte>, n: nat)
    requires ENTRY_SIZE * n <= |a| == |b|
    requires forall j :: 0 <= j < n ==> EntryIn(a, j) == EntryIn(b, j)
    ensures a[..ENTRY_SIZE * n] == b[..ENTRY_SIZE * n]
  {
    if n > 0 {
      SameEntries(a, b, n - 1);
      NextSlice(a, ENTRY_SIZE * (n - 1), ENTRY_SIZE * n, a[..ENTRY_SIZE * (n - 1)], EntryIn(a, n - 1));
      NextSlice(b, ENTRY_SIZE * (n - 1), ENTRY_SIZE * n, b[..ENTRY_SIZE * (n - 1)], EntryIn(b, n - 1));
    }
  }

  lemma OwnFields(e: seq<Byte>, v: Uint32, w: Uint32)
    requires |e| == ENTRY_SIZE && v == Get32(e, AT_OFFSET) && w == Get32(e, AT_SIZE)
    ensures Put32(Put32(BlankEntry(e), AT_OFFSET, v), AT_SIZE, w) == e
  {
    PutsAgain(e, AT_OFFSET, 0, v, AT_SIZE, 0, w);
    PutGet(e, AT_OFFSET);
    PutGet(e, AT_SIZE);
  }

  lemma EntryBack(fs: seq<Fragment>, j: nat, e: seq<Byte>)
    requires EntriesOk(fs) && j < |fs| && |e| == ENTRY_SIZE && fs[j].meta == BlankEntry(e)
    requires Total(fs, j) == Get32(e, AT_OFFSET) && |fs[j].content| == Get32(e, AT_SIZE)
    ensures EntryOf(fs, j) == e
  {
    OwnFields(e, Get32(e, AT_OFFSET), Get32(e, AT_SIZE));
  }

  lemma DecodedEntry(t: seq<Byte>, ram: seq<Byte>, fs: seq<Fragment>, j: nat)
    requires |t| == ENTRY_SIZE * |fs| && SizesIn(t, |fs|) <= |ram| && PrefixOffsets(t, |fs|)
    requires fs == FragmentsIn(t, ram, |fs|) && EntriesOk(fs) && j < |fs|
    ensures EntryIn(Table(fs, |fs|), j) == EntryIn(t, j)
  {
    FragmentsInAt(t, ram, |fs|, j);
    TotalOfDecoded(t, ram, |fs|, j);
    assert Get32(EntryIn(t, j), AT_OFFSET) == SizesIn(t, j);
    EntryBack(fs, j, EntryIn(t, j));
    TableAt(fs, j, |fs|);
  }

  lemma TableBack(t: seq<Byte>, ram: seq<Byte>, fs: seq<Fragment>, t': seq<Byte>)
    requires |t| == ENTRY_SIZE * |fs| && SizesIn(t, |fs|) <= |ram| && PrefixOffsets(t, |fs|)
    requires fs == FragmentsIn(t, ram, |fs|) && EntriesOk(fs) && t' == Table(fs, |fs|)
    ensures t' == t
  {
    forall j | 0 <= j < |fs|
      ensures EntryIn(t', j) == EntryIn(t, j)
    {
      DecodedEntry(t, ram, fs, j);
    }
    SameEntries(t', t, |fs|);
    WholeSlice(t');
    WholeSlice(t);
  }

  lemma WholeSlice(s: seq<Byte>)
    ensures s[..|s|] == s
  {
  }

  /** Fragments read from a table whose offsets are prefix sums make the same table and ramdisk again. */
  lemma FragmentsBack(t: seq<Byte>, ram: seq<Byte>, fs: seq<Fragment>)
    requires |t| == ENTRY_SIZE * |fs| && SizesIn(t, |fs|) == |ram| && PrefixOffsets(t, |fs|)
    requires fs == FragmentsIn(t, ram, |fs|)
    ensures EntriesOk(fs) && Contents(fs, |fs|) == ram && Table(fs, |fs|) == t
  {
    EntriesOfDecoded(t, ram, |fs|);
    TableBack(t, ram, fs, Table(fs, |fs|));
    ContentsBack(t, ram, fs, |fs|);
    WholeSlice(ram);
  }

  lemma OwnSizes(h: seq<Byte>, v: Uint32, w: Uint32)
    requires |h| >= HEADER_V4_SIZE && v == Get32(h, AT_RAMDISK_SIZE) && w == Get32(h, AT_DTB_SIZE)
    ensures Put32(Put32(BlankHeader(h), AT_RAMDISK_SIZE, v), AT_DTB_SIZE, w) == h
  {
    PutsAgain(h, AT_RAMDISK_SIZE, 0, v, AT_DTB_SIZE, 0, w);
    PutGet(h, AT_RAMDISK_SIZE);
    PutGet(h, AT_DTB_SIZE);
  }

  /** The regions of an image, and the padding of its ramdisk, make up its bytes. */
  lemma CutJoins(c: seq<Byte>, l: Layout)
    requires CanCut(c, l)
    ensures var g := Cut(c, l);
            c[..l.o + l.p + l.q + l.r + l.s]
            == g.head + (g.ramdisk + c[l.o + l.ramdisk..l.o + l.p]) + g.dtb + (g.table + g.rest) + g.boot
  {
    var g, table := Cut(c, l), l.o + l.p + l.q;
    var pad := c[l.o + l.ramdisk..l.o + l.p];
    InnerSlice(c, l.o, l.o + l.ramdisk, l.o + l.p);
    NextSlice(c, l.o, l.o + l.p, g.head, g.ramdisk + pad);
    NextSlice(c, l.o + l.p, table, c[..l.o + l.p], g.dtb);
    InnerSlice(c, table, table + ENTRY_SIZE * l.num, table + l.r);
    NextSlice(c, table, table + l.r, c[..table], g.table + g.rest);
    NextSlice(c, table + l.r, table + l.r + l.s, c[..table + l.r], g.boot);
  }

  lemma InnerSlice(s: seq<Byte>, i: nat, j: nat, k: nat)
    requires i <= j <= k <= |s|
    ensures s[i..j] + s[j..k] == s[i..k]
  {
  }

  /** The parts of what was read are the regions it was read from. */
  lemma PartsBack(c: seq<Byte>, l: Layout, g: Regions, m: Image)
    requires Sound(c) && l == LayoutOf(c) && g == Cut(c, l) && m == Decode(c) && Regular(m)
    requires RamdiskTotal(m) == l.ramdisk && PrefixOffsets(g.table, l.num)
    ensures Head(m) == g.head && Contents(m.fragments, |m.fragments|) == g.ramdisk && TableRegion(m) == g.table + g.rest
    ensures m.dtb == g.dtb && m.boot == g.boot && |m.fragments| == l.num
  {
    FragmentsBack(g.table, g.ramdisk, m.fragments);
    FieldOfPrefix(c, l.o, AT_RAMDISK_SIZE);
    FieldOfPrefix(c, l.o, AT_DTB_SIZE);
    OwnSizes(g.head, Get32(g.head, AT_RAMDISK_SIZE), Get32(g.head, AT_DTB_SIZE));
  }

  /** Writing down what was read gives the same bytes again, but for the padding of the ramdisk. */
  lemma EncodeDecode(c: seq<Byte>)
    requires Sound(c) && PrefixOffsets(TableOf(c, LayoutOf(c)), LayoutOf(c).num)
    ensures var m := Decode(c);
            && Regular(m) && Fits(m)
            && SameOutside(c, Body(m), |m.header| + RamdiskTotal(m), |m.header| + RamdiskPages(m))
  {
    var l, m := LayoutOf(c), Decode(c);
    var g := Cut(c, l);
    DecodedIsRegular(c);
    PartsBack(c, l, g, m);
    CutJoins(c, l);
    BodyParts(m);
    BackTogether(c, l, g, Body(m), Zeros(RamdiskPages(m) - RamdiskTotal(m)), |m.header| + RamdiskTotal(m),
                 |m.header| + RamdiskPages(m));
  }

  lemma BackTogether(c: seq<Byte>, l: Layout, g: Regions, body: seq<Byte>, pad: seq<Byte>, lo: nat, hi: nat)
    requires CanCut(c, l) && g == Cut(c, l) && l.p == |g.ramdisk| + |pad|
    requires lo == |g.head| + |g.ramdisk| && hi == lo + |pad|
    requires body == g.head + (g.ramdisk + pad) + g.dtb + (g.table + g.rest) + g.boot
    ensures SameOutside(c, body, lo, hi)
  {
    CutJoins(c, l);
    SplitsGap(c, body, g.head, g.ramdisk, pad, c[l.o + l.ramdisk..l.o + l.p], g.dtb, g.table + g.rest, g.boot, lo, hi);
  }

  /** The bytes written for an image say what the image says, with offsets that are prefix sums. */
  ghost predicate Says(c: seq<Byte>, m: Image) {
    Sound(c) && Decode(c) == m && PrefixOffsets(TableOf(c, LayoutOf(c)), LayoutOf(c).num)
  }

  lemma IntactSays(m: Image)
    requires Regular(m) && Fits(m) && Intact(m)
    ensures Says(Encode(m), m)
  {
    DecodeEncode(m);
    EncodedOffsets(m.fragments);
  }

  lemma SaysAgrees(c: seq<Byte>, m: Image)
    requires Says(c, m)
    ensures Regular(m) && Fits(m) && FooterOf(c) == m.footer
    ensures SameOutside(c, Body(m), |m.header| + RamdiskTotal(m), |m.header| + RamdiskPages(m))
  {
    EncodeDecode(c);
  }

  lemma SaysIntact(m: Image)
    requires Regular(m) && Fits(m) && Says(Encode(m), m)
    ensures Intact(m)
  {
    SaysAgrees(Encode(m), m);
    if m.footer != [] {
      StampSpares(Body(m), m.length, m.footer, |m.header| + RamdiskTotal(m), |m.header| + RamdiskPages(m));
    }
  }

  /** An image can be read back from its bytes if and only if it is intact. */
  lemma SaysIffIntact(m: Image)
    requires Regular(m) && Fits(m)
    ensures Says(Encode(m), m) <==> Intact(m)
  {
    if Intact(m) {
      IntactSays(m);
    } else if Says(Encode(m), m) {
      SaysIntact(m);
    }
  }

  // ---- replacing a fragment

  /** The updated image, and whether it can be told from its bytes. */
  ghost function Wanted(b: seq<Byte>, name: seq<Byte>, i: nat, ramdisk: seq<Byte>, dtb: seq<Byte>): (m: Image)
    requires CanReplace(b, name, i, ramdisk, dtb)
    ensures Regular(m) && Fits(m)
  {
    DecodedIsRegular(b);
    UpdateIsRegular(Decode(b), i, ramdisk, dtb);
    Update(Decode(b), i, ramdisk, dtb)
  }

  /**
   * The new image has the length of the old one, and it says what the old one said with the update made, with
   * offsets that are prefix sums totalling the ramdisk size, if and only if the updated image is intact.
   */
  lemma ReplacementPreservesMeaning(b: seq<Byte>, name: seq<Byte>, i: nat, ramdisk: seq<Byte>, dtb: seq<Byte>)
    requires CanReplace(b, name, i, ramdisk, dtb)
    ensures var (c, m) := (Repacked(b, name, i, ramdisk, dtb), Wanted(b, name, i, ramdisk, dtb));
            |c| == |b| && (Says(c, m) <==> Intact(m))
    ensures var (c, m) := (Repacked(b, name, i, ramdisk, dtb), Wanted(b, name, i, ramdisk, dtb));
            Intact(m) ==> FooterOf(c) == FooterOf(b) && Get32(c, AT_RAMDISK_SIZE) == RamdiskTotal(m)
  {
    var m := Wanted(b, name, i, ramdisk, dtb);
    SaysIffIntact(m);
    if Intact(m) {
      DecodedIsRegular(Encode(m));
    }
  }

  /** Replacing the same fragment twice is replacing it once with the last content. */
  lemma ReplaceTwice(b: seq<Byte>, name: seq<Byte>, i: nat, x: seq<Byte>, d1: seq<Byte>, y: seq<Byte>, d2: seq<Byte>)
    requires CanReplace(b, name, i, x, d1) && Intact(Wanted(b, name, i, x, d1)) && (d1 == [] || d2 != [])
    ensures var c := Repacked(b, name, i, x, d1);
            && (CanReplace(c, name, i, y, d2) <==> CanReplace(b, name, i, y, d2))
            && (CanReplace(b, name, i, y, d2) ==> Repacked(c, name, i, y, d2) == Repacked(b, name, i, y, d2))
  {
    IntactSays(Wanted(b, name, i, x, d1));
    DecodedIsRegular(b);
    UpdateTwice(Decode(b), name, i, x, d1, y, d2);
  }

  /** The bytes of fragment j where the table's own offset says they are, if they are in the ramdisk. */
  function ContentByOffset(t: seq<Byte>, ram: seq<Byte>, j: nat): seq<Byte>
    requires ENTRY_SIZE * (j + 1) <= |t|
  {
    var at, size := Get32(EntryIn(t, j), AT_OFFSET), SizeIn(t, j);
    if at + size <= |ram| then ram[at..at + size] else []
  }

  /** If the offsets of an image are prefix sums, they lead to the fragments it is made of. */
  lemma OffsetsLeadToFragments(t: seq<Byte>, ram: seq<Byte>, n: nat, j: nat)
    requires |t| == ENTRY_SIZE * n && SizesIn(t, n) == |ram| && PrefixOffsets(t, n) && j < n
    ensures ContentByOffset(t, ram, j) == FragmentsIn(t, ram, n)[j].content
  {
    FragmentsInAt(t, ram, n, j);
    assert Get32(EntryIn(t, j), AT_OFFSET) == SizesIn(t, j);
  }

  /** What a reader finds who follows the offsets in the table. */
  function Found(c: seq<Byte>, j: nat): seq<Byte>
    requires Sound(c) && j < LayoutOf(c).num
  {
    ContentByOffset(TableOf(c, LayoutOf(c)), Cut(c, LayoutOf(c)).ramdisk, j)
  }

  lemma FoundIsRead(c: seq<Byte>, j: nat)
    requires Sound(c) && PrefixOffsets(TableOf(c, LayoutOf(c)), LayoutOf(c).num) && j < LayoutOf(c).num
    ensures Found(c, j) == Decode(c).fragments[j].content
  {
    var l := LayoutOf(c);
    OffsetsLeadToFragments(TableOf(c, l), Cut(c, l).ramdisk, l.num, j);
  }

  /** If the old offsets were prefix sums, every other fragment is found where the new offsets say, byte for byte. */
  lemma OthersAreFound(b: seq<Byte>, name: seq<Byte>, i: nat, ramdisk: seq<Byte>, dtb: seq<Byte>, j: nat)
    requires CanReplace(b, name, i, ramdisk, dtb) && Intact(Wanted(b, name, i, ramdisk, dtb))
    requires PrefixOffsets(TableOf(b, LayoutOf(b)), LayoutOf(b).num) && j < LayoutOf(b).num
    ensures var c := Repacked(b, name, i, ramdisk, dtb);
            && Sound(c) && LayoutOf(c).num == LayoutOf(b).num
            && Found(c, j) == (if j == i then ramdisk else Found(b, j))
            && Cut(c, LayoutOf(c)).boot == Cut(b, LayoutOf(b)).boot
  {
    var m := Wanted(b, name, i, ramdisk, dtb);
    IntactSays(m);
    FoundIsRead(b, j);
    FoundIsRead(Encode(m), j);
  }

  /** Nothing but the footer can spoil the content, and it does exactly where the two overlap and differ. */
  lemma ContentSurvives(m: Image)
    requires Regular(m) && Fits(m)
    ensures Encode(m)[..ContentEnd(m)] == Body(m) <==>
            m.footer == [] || Overlap(Body(m), FooterAt(m.length)) <= m.footer
  {
    var body := Body(m);
    if m.footer != [] && FooterAt(m.length) < |body| {
      StampOverlaps(body, m.length, m.footer);
    } else {
      StampLeaves(body, m.length, m.footer);
    }
  }

  /** The part of the content that lies where the footer goes. */
  function Overlap(body: seq<Byte>, at: nat): seq<Byte> {
    if |body| <= at then [] else if |body| <= at + FOOTER_SIZE then body[at..] else body[at..at + FOOTER_SIZE]
  }

  lemma StampLeaves(body: seq<Byte>, n: nat, footer: seq<Byte>)
    requires |body| <= n && (footer == [] || (n >= FOOTER_SIZE == |footer| && |body| <= FooterAt(n)))
    ensures Stamped(body, n, footer)[..|body|] == body
  {
  }

  lemma StampOverlaps(body: seq<Byte>, n: nat, footer: seq<Byte>)
    requires |body| <= n && n >= FOOTER_SIZE == |footer| && FooterAt(n) < |body|
    ensures Stamped(body, n, footer)[..|body|] == body <==> Overlap(body, FooterAt(n)) <= footer
  {
    var at, r := FooterAt(n), Stamped(body, n, footer);
    var k := |Overlap(body, at)|;
    assert forall x :: 0 <= x < |body| && !(at <= x < at + k) ==> r[x] == body[x];
    assert forall x :: 0 <= x < k ==> r[at + x] == footer[x] && body[at + x] == Overlap(body, at)[x];
    if r[..|body|] == body {
      forall x | 0 <= x < k
        ensures footer[x] == Overlap(body, at)[x]
      {
        assert r[..|body|][at + x] == r[at + x];
      }
      assert Overlap(body, at) == footer[..k];
    } else {
      var x :| 0 <= x < |body| && r[x] != body[x];
      assert body[at + (x - at)] == Overlap(body, at)[x - at];
    }
  }

  // ---- a footer in the way

  function SmallHeaderAt(i: nat, num: Byte, table: Byte): Byte {
    if i < 8 then MAGIC[i] else if i == AT_VERSION then 4 else if i == AT_PAGE_SIZE then 1
    else if i == AT_ENTRY_NUM then num else if i == AT_TABLE_SIZE then table
    else if i == AT_ENTRY_SIZE then ENTRY_SIZE else 0
  }

  /** A header with one-byte pages, nothing but a table, and a number of entries. */
  function SmallHeader(num: Byte, table: Byte): (h: seq<Byte>)
    ensures |h| == HEADER_V4_SIZE && forall i :: 0 <= i < |h| ==> h[i] == SmallHeaderAt(i, num, table)
  {
    seq(HEADER_V4_SIZE, i requires 0 <= i => SmallHeaderAt(i, num, table))
  }

  lemma SmallField(b: seq<Byte>, at: nat, v: Byte)
    requires at + 4 <= |b| && b[at] == v && b[at + 1] == b[at + 2] == b[at + 3] == 0
    ensures Get32(b, at) == v && Put32(b, at, v) == b
  {
    assert b[at..at + 4][0] == v && b[at..at + 4][1] == 0 && b[at..at + 4][2] == 0 && b[at..at + 4][3] == 0;
    PutGet(b, at);
  }

  /** A small header, apart from its command line. */
  predicate LikeSmallHeader(h: seq<Byte>, num: Byte, table: Byte) {
    |h| == HEADER_V4_SIZE && forall i :: 0 <= i < |h| && !(28 <= i < 2076) ==> h[i] == SmallHeaderAt(i, num, table)
  }

  lemma SmallHeaderFields(h: seq<Byte>, num: Byte, table: Byte)
    requires LikeSmallHeader(h, num, table)
    ensures h[..8] == MAGIC && Get32(h, AT_VERSION) == 4 && PageOf(h) == 1 && Get32(h, AT_TABLE_SIZE) == table
    ensures Get32(h, AT_ENTRY_NUM) == num && Get32(h, AT_RAMDISK_SIZE) == Get32(h, AT_DTB_SIZE) == 0
    ensures Get32(h, AT_ENTRY_SIZE) == ENTRY_SIZE && Get32(h, AT_BOOTCONFIG_SIZE) == 0
    ensures BlankHeader(h) == h
  {
    SmallField(h, AT_VERSION, 4);
    SmallField(h, AT_PAGE_SIZE, 1);
    SmallField(h, AT_TABLE_SIZE, table);
    SmallField(h, AT_ENTRY_NUM, num);
    SmallField(h, AT_ENTRY_SIZE, ENTRY_SIZE);
    SmallField(h, AT_BOOTCONFIG_SIZE, 0);
    SmallField(h, AT_RAMDISK_SIZE, 0);
    SmallField(h, AT_DTB_SIZE, 0);
  }

  /** An image of one fragment whose content ends right before its footer if the fragment is empty. */
  function SmallImage(content: seq<Byte>): Image {
    Image(HEADER_V4_SIZE + ENTRY_SIZE + FOOTER_SIZE, SmallHeader(1, ENTRY_SIZE),
          [Fragment(Zeros(ENTRY_SIZE), content)], 0, [], [], [],
          FOOTER_MAGIC + Zeros(FOOTER_SIZE - 4))
  }

  lemma OneEntryIsRegular(m: Image, e: seq<Byte>, content: seq<Byte>)
    requires m == Image(m.length, m.header, [Fragment(e, content)], 0, [], [], [], m.footer)
    requires |e| == ENTRY_SIZE && BlankEntry(e) == e && |content| <= 1
    requires m.length >= HEADER_V4_SIZE + ENTRY_SIZE + FOOTER_SIZE
    requires |m.header| == HEADER_V4_SIZE && m.header[..8] == MAGIC && Get32(m.header, AT_VERSION) == 4
    requires PageOf(m.header) == 1 && Get32(m.header, AT_TABLE_SIZE) == ENTRY_SIZE && Get32(m.header, AT_ENTRY_NUM) == 1
    requires Get32(m.header, AT_ENTRY_SIZE) == ENTRY_SIZE && Get32(m.header, AT_BOOTCONFIG_SIZE) == 0
    requires BlankHeader(m.header) == m.header && |m.footer| == FOOTER_SIZE && m.footer[..4] == FOOTER_MAGIC
    ensures Regular(m) && Fits(m) && ContentEnd(m) == HEADER_V4_SIZE + ENTRY_SIZE + |content|
  {
    assert Total(m.fragments, 1) == |content|;
  }

  lemma ZerosAreBlank()
    ensures BlankEntry(Zeros(ENTRY_SIZE)) == Zeros(ENTRY_SIZE)
  {
    SmallField(Zeros(ENTRY_SIZE), AT_OFFSET, 0);
    SmallField(Zeros(ENTRY_SIZE), AT_SIZE, 0);
  }

  lemma SmallImageIsRegular(content: seq<Byte>)
    requires |content| <= 1
    ensures var m := SmallImage(content);
            Regular(m) && Fits(m) && ContentEnd(m) == HEADER_V4_SIZE + ENTRY_SIZE + |content|
  {
    SmallHeaderFields(SmallHeader(1, ENTRY_SIZE), 1, ENTRY_SIZE);
    ZerosAreBlank();
    OneEntryIsRegular(SmallImage(content), Zeros(ENTRY_SIZE), content);
  }

  lemma BehindIsApart(body: seq<Byte>, n: nat, footer: seq<Byte>, lo: nat, hi: nat)
    requires n >= FOOTER_SIZE == |footer| && |body| <= FooterAt(n)
    ensures |body| <= n && Apart(body, n, footer, lo, hi)
  {
  }

  /** An image whose content ends before its footer is intact. */
  lemma BehindIsIntact(m: Image)
    requires Regular(m) && Fits(m) && m.footer != [] && ContentEnd(m) <= FooterAt(m.length)
    ensures Intact(m)
  {
    BehindIsApart(Body(m), m.length, m.footer, |m.header| + RamdiskTotal(m), |m.header| + RamdiskPages(m));
  }

  /** The content of an image without bootconfig ends with the last table entry. */
  lemma LastOfBody(m: Image)
    requires Regular(m) && Fits(m) && |m.fragments| == 1 && m.tableRest == [] && m.boot == []
    ensures Body(m) != [] && Body(m)[|Body(m)| - 1] == m.fragments[0].meta[ENTRY_SIZE - 1]
  {
    var e := EntryOf(m.fragments, 0);
    EntryFacts(m.fragments, 0);
    assert e[ENTRY_SIZE - 1] == e[8..][ENTRY_SIZE - 9] == m.fragments[0].meta[8..][ENTRY_SIZE - 9];
    assert Table(m.fragments, 1) == e;
    assert TableRegion(m) == e;
    assert Body(m) == Head(m) + Ramdisk(m) + m.dtb + e;
  }

  lemma OneByteOver(body: seq<Byte>, at: nat, footer: seq<Byte>)
    requires |body| == at + 1 && footer != [] && body[at] != footer[0]
    ensures !(Overlap(body, at) <= footer)
  {
    assert Overlap(body, at)[0] == body[at];
  }

  lemma OnlyFragment(m: Image, e: seq<Byte>, name: seq<Byte>, x: seq<Byte>, n: Image)
    requires Regular(m) && Regular(n) && Fits(n) && |e| == ENTRY_SIZE && NameOf(e) == name
    requires |m.fragments| == 1 && m.fragments[0].meta == e && n == m.(fragments := [Fragment(e, x)])
    ensures Update(m, 0, x, []) == n && Replaceable(m, name, 0, x, [])
  {
    assert m.fragments[0 := m.fragments[0].(content := x)] == [Fragment(e, x)];
  }

  lemma OneByteDamages(n: Image)
    requires Regular(n) && Fits(n) && |n.fragments| == 1 && n.tableRest == [] && n.boot == [] && n.footer != []
    requires ContentEnd(n) == FooterAt(n.length) + 1 && n.fragments[0].meta[ENTRY_SIZE - 1] != n.footer[0]
    ensures Encode(n)[..ContentEnd(n)] != Body(n)
  {
    LastOfBody(n);
    OneByteOver(Body(n), FooterAt(n.length), n.footer);
    ContentSurvives(n);
  }

  /** Whenever the only fragment grows to end one byte into the footer, its table entry loses its last byte. */
  lemma GrowingByOneDamages(m: Image, n: Image, e: seq<Byte>, name: seq<Byte>, x: seq<Byte>)
    requires Regular(m) && Fits(m) && Intact(m) && Regular(n) && Fits(n) && |e| == ENTRY_SIZE && NameOf(e) == name
    requires |m.fragments| == 1 && m.fragments[0].meta == e && n == m.(fragments := [Fragment(e, x)])
    requires m.tableRest == [] && m.boot == [] && m.footer != [] && ContentEnd(n) == FooterAt(m.length) + 1
    requires e[ENTRY_SIZE - 1] != m.footer[0]
    ensures CanReplace(Encode(m), name, 0, x, []) && Repacked(Encode(m), name, 0, x, []) == Encode(n)
    ensures Encode(n)[..ContentEnd(n)] != Body(n)
  {
    DecodeEncode(m);
    OnlyFragment(m, e, name, x, n);
    OneByteDamages(n);
  }

  lemma SmallParts(m: Image, n: Image, e: seq<Byte>)
    requires m == SmallImage([]) && n == SmallImage([7]) && e == Zeros(ENTRY_SIZE)
    ensures NameOf(e) == [] && n == m.(fragments := [Fragment(e, [7])]) && |m.fragments| == 1
    ensures m.fragments[0].meta == e
    ensures m.tableRest == [] && m.boot == [] && m.footer != [] && e[ENTRY_SIZE - 1] != m.footer[0]
    ensures FooterAt(m.length) == HEADER_V4_SIZE + ENTRY_SIZE
  {
  }

  lemma SmallDamage(m: Image, n: Image)
    requires m == SmallImage([]) && n == SmallImage([7]) && Regular(m) && Fits(m) && Intact(m) && Regular(n) && Fits(n)
    requires ContentEnd(n) == HEADER_V4_SIZE + ENTRY_SIZE + 1
    ensures CanReplace(Encode(m), [], 0, [7], []) && Repacked(Encode(m), [], 0, [7], []) == Encode(n)
    ensures Encode(n)[..ContentEnd(n)] != Body(n)
  {
    var e := Zeros(ENTRY_SIZE);
    SmallParts(m, n, e);
    GrowingByOneDamages(m, n, e, [], [7]);
  }

  /** Where the ramdisk needs no padding, an intact image has all of its content. */
  lemma IntactKeepsContent(m: Image)
    requires Regular(m) && Fits(m) && Intact(m) && m.footer != [] && RamdiskTotal(m) == RamdiskPages(m)
    ensures Encode(m)[..ContentEnd(m)] == Body(m)
  {
    StampSpares(Body(m), m.length, m.footer, |m.header| + RamdiskTotal(m), |m.header| + RamdiskPages(m));
  }

  /**
   * The code reports success when the content runs into the footer, and then the footer has replaced the end
   * of the content: here one byte more of ramdisk costs the table entry its last byte.
   */
  lemma FooterCanDamage()
    ensures var m, n := SmallImage([]), SmallImage([7]);
            && Regular(m) && Fits(m) && CanReplace(Encode(m), [], 0, [7], [])
            && Regular(n) && Fits(n) && Repacked(Encode(m), [], 0, [7], []) == Encode(n)
            && Encode(n)[..ContentEnd(n)] != Body(n) && !Intact(n) && !Says(Encode(n), n)
  {
    SmallImageIsRegular([]);
    SmallImageIsRegular([7]);
    BehindIsIntact(SmallImage([]));
    SmallDamage(SmallImage([]), SmallImage([7]));
    if Intact(SmallImage([7])) {
      IntactKeepsContent(SmallImage([7]));
    }
    SaysIffIntact(SmallImage([7]));
  }

  /** A header alone, with ten entries, passes the checks, and the search for any name leaves the image. */
  lemma SearchCanLeave(name: seq<Byte>)
    ensures Proper(SmallHeader(10, 0)) && LeavesImage(SmallHeader(10, 0), name)
  {
    var b := SmallHeader(10, 0);
    SmallHeaderFields(b, 10, 0);
    assert StopsAt(b, TableStart(LayoutOf(b)), name, 0);
  }
}
