/**
 * The Android vendor boot image, header version 4: a header, the ramdisk fragments, the device tree, the
 * fragment table and the bootconfig, each on whole pages, with an optional AVB footer at the very end.
 */
module VendorBootImage {
  import opened Bytes

  const HEADER_V3_SIZE: nat := 2112
  const HEADER_V4_SIZE: nat := 2128
  const AT_VERSION: nat := 8
  const AT_PAGE_SIZE: nat := 12
  const AT_RAMDISK_SIZE: nat := 24
  const AT_DTB_SIZE: nat := 2100
  const AT_TABLE_SIZE: nat := 2112
  const AT_ENTRY_NUM: nat := 2116
  const AT_ENTRY_SIZE: nat := 2120
  const AT_BOOTCONFIG_SIZE: nat := 2124
  const MAGIC: seq<Byte> := [0x56, 0x4E, 0x44, 0x52, 0x42, 0x4F, 0x4F, 0x54]

  const ENTRY_SIZE: nat := 108
  const AT_SIZE: nat := 0
  const AT_OFFSET: nat := 4
  const AT_NAME: nat := 12
  const NAME_SIZE: nat := 32

  const FOOTER_SIZE: nat := 64
  const FOOTER_MAGIC: seq<Byte> := [0x41, 0x56, 0x42, 0x66]

  // ---- bytes and 32-bit fields in them

  function Zeros(n: nat): seq<Byte> {
    seq(n, _ => 0)
  }

  function Get32(b: seq<Byte>, at: nat): Uint32
    requires at + 4 <= |b|
  {
    DecodeLE32(b[at..at + 4])
  }

  function Put32(b: seq<Byte>, at: nat, v: Uint32): (r: seq<Byte>)
    requires at + 4 <= |b|
    ensures |r| == |b|
  {
    Overwrite(b, at, EncodeLE32(v))
  }

  lemma GetPut(b: seq<Byte>, at: nat, v: Uint32, from: nat)
    requires at + 4 <= |b| && from + 4 <= |b|
    ensures from == at ==> Get32(Put32(b, at, v), from) == v
    ensures from + 4 <= at || at + 4 <= from ==> Get32(Put32(b, at, v), from) == Get32(b, from)
  {
    assert Put32(b, at, v)[at..at + 4] == EncodeLE32(v);
    if from + 4 <= at || at + 4 <= from {
      assert Put32(b, at, v)[from..from + 4] == b[from..from + 4];
    }
  }

  lemma PutPut(b: seq<Byte>, at: nat, v: Uint32, w: Uint32)
    requires at + 4 <= |b|
    ensures Put32(Put32(b, at, v), at, w) == Put32(b, at, w)
  {
  }

  lemma PutsCommute(b: seq<Byte>, at: nat, v: Uint32, bt: nat, w: Uint32)
    requires at + 4 <= bt && bt + 4 <= |b|
    ensures Put32(Put32(b, at, v), bt, w) == Put32(Put32(b, bt, w), at, v)
  {
  }

  lemma PutGet(b: seq<Byte>, at: nat)
    requires at + 4 <= |b|
    ensures Put32(b, at, Get32(b, at)) == b
  {
    EncodeDecodeLE32(b[at..at + 4]);
  }

  /** round_up in 32-bit arithmetic: right exactly if the sum does not wrap around. */
  function RoundUp(v: Uint32, page: Uint32): (r: Uint32)
    requires page > 0
    ensures v <= r <==> v + page - 1 < TWO32
    ensures v <= r ==> r < v + page
  {
    var sum := Wrap32(v + page - 1);
    Multiple(sum, page)
  }

  /** The largest multiple of the page size up to x. */
  function Multiple(x: nat, page: nat): (r: nat)
    requires page > 0
    ensures r <= x < r + page
  {
    if x < page then 0 else page + Multiple(x - page, page)
  }

  /** It is what dividing and multiplying again gives. */
  lemma {:induction false} MultipleIsQuotient(x: nat, page: nat)
    requires page > 0
    ensures Multiple(x, page) == x / page * page
  {
    if x < page {
      assert x / page == 0;
    } else {
      MultipleIsQuotient(x - page, page);
      QuotientStep(x - page, page);
    }
  }

  lemma QuotientStep(y: nat, page: nat)
    requires page > 0
    ensures (y + page) / page * page == y / page * page + page
  {
    var q, q' := y / page, (y + page) / page;
    assert y == q * page + y % page && y + page == q' * page + (y + page) % page;
    Factor(q' - q - 1, page);
    assert (q' - q - 1) * page == q' * page - q * page - page;
  }

  lemma Factor(d: int, page: nat)
    requires page > 0
    ensures d == 0 || d * page >= page || d * page <= 0 - page
  {
  }

  /** Without wrap-around the result is the least multiple of the page size that is not below the value. */
  lemma RoundUpIsLeastMultiple(v: Uint32, page: Uint32, k: nat)
    requires page > 0
    ensures RoundUp(v, page) % page == 0
    ensures v + page - 1 < TWO32 && v <= k * page ==> v <= RoundUp(v, page) <= k * page
  {
    var sum := Wrap32(v + page - 1);
    MultipleIsQuotient(sum, page);
    MultipleDivides(sum / page, page);
    Factor(k - sum / page, page);
    assert (k - sum / page) * page == k * page - sum / page * page;
  }

  lemma {:induction false} MultipleDivides(q: nat, page: nat)
    requires page > 0
    ensures q * page % page == 0
  {
    if q > 0 {
      MultipleDivides(q - 1, page);
      QuotientStep((q - 1) * page, page);
      assert (q - 1) * page + page == q * page;
    }
  }

  // ---- images as data

  /** A table entry with its size and offset fields blanked, and the ramdisk it describes. */
  datatype Fragment = Fragment(meta: seq<Byte>, content: seq<Byte>)

  /**
   * What an image says.  `header` has the two size fields blanked that follow from the rest; `dtb`,
   * `tableRest` and `boot` are regions up to their page boundary; `footer` is empty if there is none.
   */
  datatype Image = Image(length: nat, header: seq<Byte>, fragments: seq<Fragment>, dtbSize: Uint32, dtb: seq<Byte>,
                         tableRest: seq<Byte>, boot: seq<Byte>, footer: seq<Byte>)

  /** The size, the bytes and the table of the first n fragments. */
  function Total(fs: seq<Fragment>, n: nat): nat
    requires n <= |fs|
  {
    if n == 0 then 0 else Total(fs, n - 1) + |fs[n - 1].content|
  }

  function Contents(fs: seq<Fragment>, n: nat): (r: seq<Byte>)
    requires n <= |fs|
    ensures |r| == Total(fs, n)
  {
    if n == 0 then [] else Contents(fs, n - 1) + fs[n - 1].content
  }

  predicate EntriesOk(fs: seq<Fragment>) {
    forall i :: 0 <= i < |fs| ==> |fs[i].meta| == ENTRY_SIZE && fs[i].meta == BlankEntry(fs[i].meta)
  }

  function BlankEntry(e: seq<Byte>): (r: seq<Byte>)
    requires |e| == ENTRY_SIZE
    ensures |r| == ENTRY_SIZE
  {
    Put32(Put32(e, AT_OFFSET, 0), AT_SIZE, 0)
  }

  /** The table entry of a fragment: the offset is the sum of the sizes before it. */
  function EntryOf(fs: seq<Fragment>, i: nat): (r: seq<Byte>)
    requires EntriesOk(fs) && i < |fs|
    ensures |r| == ENTRY_SIZE
  {
    Put32(Put32(fs[i].meta, AT_OFFSET, Wrap32(Total(fs, i))), AT_SIZE, Wrap32(|fs[i].content|))
  }

  function Table(fs: seq<Fragment>, n: nat): (r: seq<Byte>)
    requires EntriesOk(fs) && n <= |fs|
    ensures |r| == ENTRY_SIZE * n
  {
    if n == 0 then [] else Table(fs, n - 1) + EntryOf(fs, n - 1)
  }

  function PageOf(header: seq<Byte>): Uint32
    requires |header| >= HEADER_V4_SIZE
  {
    Get32(header, AT_PAGE_SIZE)
  }

  function BlankHeader(h: seq<Byte>): (r: seq<Byte>)
    requires |h| >= HEADER_V4_SIZE
    ensures |r| == |h|
  {
    Put32(Put32(h, AT_RAMDISK_SIZE, 0), AT_DTB_SIZE, 0)
  }

  /** The image is put together from a proper version 4 header and the regions that header announces. */
  predicate Regular(m: Image) {
    && |m.header| >= HEADER_V4_SIZE && m.header == BlankHeader(m.header)
    && m.header[..8] == MAGIC && Get32(m.header, AT_VERSION) == 4
    && var page := PageOf(m.header);
    && page > 0 && |m.header| == RoundUp(HEADER_V4_SIZE, page)
    && EntriesOk(m.fragments)
    && Get32(m.header, AT_ENTRY_NUM) == |m.fragments| && Get32(m.header, AT_ENTRY_SIZE) == ENTRY_SIZE
    && ENTRY_SIZE * |m.fragments| + |m.tableRest| == RoundUp(Get32(m.header, AT_TABLE_SIZE), page)
    && |m.boot| == RoundUp(Get32(m.header, AT_BOOTCONFIG_SIZE), page)
    && (m.footer == [] || (m.length >= FOOTER_SIZE && |m.footer| == FOOTER_SIZE && m.footer[..4] == FOOTER_MAGIC))
  }

  function RamdiskTotal(m: Image): nat {
    Total(m.fragments, |m.fragments|)
  }

  /** The length of the ramdisk region: whole pages. */
  function RamdiskPages(m: Image): Uint32
    requires Regular(m)
  {
    RoundUp(Wrap32(RamdiskTotal(m)), PageOf(m.header))
  }

  /** Where the bootconfig region ends. */
  function ContentEnd(m: Image): nat
    requires Regular(m)
  {
    |m.header| + RamdiskPages(m) + |m.dtb| + ENTRY_SIZE * |m.fragments| + |m.tableRest| + |m.boot|
  }

  /** Everything has its place: nothing wraps around in 32 bits and the content fits the partition. */
  predicate Fits(m: Image)
    requires Regular(m)
  {
    && RamdiskTotal(m) < TWO32 && RamdiskTotal(m) <= RamdiskPages(m)
    && |m.dtb| == RoundUp(m.dtbSize, PageOf(m.header))
    && ContentEnd(m) - |m.boot| < TWO32 && ContentEnd(m) <= m.length
  }

  function Head(m: Image): (r: seq<Byte>)
    requires Regular(m)
    ensures |r| == |m.header|
  {
    Put32(Put32(m.header, AT_RAMDISK_SIZE, Wrap32(RamdiskTotal(m))), AT_DTB_SIZE, m.dtbSize)
  }

  /** The ramdisk region: the fragments one after the other, padded with zeros. */
  function Ramdisk(m: Image): (r: seq<Byte>)
    requires Regular(m) && Fits(m)
    ensures |r| == RamdiskPages(m)
  {
    Contents(m.fragments, |m.fragments|) + Zeros(RamdiskPages(m) - RamdiskTotal(m))
  }

  function TableRegion(m: Image): (r: seq<Byte>)
    requires Regular(m)
    ensures |r| == ENTRY_SIZE * |m.fragments| + |m.tableRest|
  {
    Table(m.fragments, |m.fragments|) + m.tableRest
  }

  function Body(m: Image): (r: seq<Byte>)
    requires Regular(m) && Fits(m)
    ensures |r| == ContentEnd(m)
  {
    Head(m) + Ramdisk(m) + m.dtb + TableRegion(m) + m.boot
  }

  /** The last 64 bytes, as far as a 32-bit seek reaches them. */
  function FooterAt(length: nat): (r: nat)
    requires length >= FOOTER_SIZE
    ensures r + FOOTER_SIZE <= length
  {
    Wrap32(length - FOOTER_SIZE)
  }

  function Stamp(b: seq<Byte>, footer: seq<Byte>): (r: seq<Byte>)
    requires footer == [] || (|b| >= FOOTER_SIZE == |footer|)
    ensures |r| == |b|
  {
    if footer == [] then b else Overwrite(b, FooterAt(|b|), footer)
  }

  /** The content followed by zeros, and the footer over them. */
  function Stamped(body: seq<Byte>, length: nat, footer: seq<Byte>): (r: seq<Byte>)
    requires |body| <= length && (footer == [] || (length >= FOOTER_SIZE == |footer|))
    ensures |r| == length
  {
    Stamp(body + Zeros(length - |body|), footer)
  }

  /** The bytes of an image. */
  function Encode(m: Image): (r: seq<Byte>)
    requires Regular(m) && Fits(m)
    ensures |r| == m.length
  {
    Stamped(Body(m), m.length, m.footer)
  }

  // ---- reading the bytes

  predicate HeaderOk(b: seq<Byte>) {
    && |b| >= HEADER_V4_SIZE && b[..8] == MAGIC && Get32(b, AT_VERSION) == 4 && PageOf(b) > 0
  }

  /** The lengths of the five regions, as the header gives them, and its counts and sizes. */
  datatype Layout = Layout(o: nat, p: nat, q: nat, r: nat, s: nat, num: nat, ramdisk: nat, dtb: Uint32)

  function LayoutOf(b: seq<Byte>): Layout
    requires HeaderOk(b)
  {
    var page := PageOf(b);
    Layout(RoundUp(HEADER_V4_SIZE, page), RoundUp(Get32(b, AT_RAMDISK_SIZE), page),
           RoundUp(Get32(b, AT_DTB_SIZE), page),
           RoundUp(Get32(b, AT_TABLE_SIZE), page), RoundUp(Get32(b, AT_BOOTCONFIG_SIZE), page),
           Get32(b, AT_ENTRY_NUM), Get32(b, AT_RAMDISK_SIZE), Get32(b, AT_DTB_SIZE))
  }

  /** The header is on whole pages, and the table lies in the image. */
  predicate ReadableIn(b: seq<Byte>, l: Layout) {
    l.o >= HEADER_V4_SIZE && l.o + l.p + l.q + ENTRY_SIZE * l.num <= |b|
  }

  /** If there is a header, it is on whole pages, and the table is made of proper entries in the image. */
  predicate Readable(b: seq<Byte>) {
    HeaderOk(b) ==> ReadableIn(b, LayoutOf(b)) && Get32(b, AT_ENTRY_SIZE) == ENTRY_SIZE
  }

  /** The fragment table of an image. */
  function TableOf(b: seq<Byte>, l: Layout): (t: seq<Byte>)
    requires ReadableIn(b, l)
    ensures |t| == ENTRY_SIZE * l.num
  {
    var at := l.o + l.p + l.q;
    b[at..at + ENTRY_SIZE * l.num]
  }

  function EntryIn(t: seq<Byte>, i: nat): (e: seq<Byte>)
    requires ENTRY_SIZE * (i + 1) <= |t|
    ensures |e| == ENTRY_SIZE
  {
    t[ENTRY_SIZE * i..ENTRY_SIZE * i + ENTRY_SIZE]
  }

  function SizeIn(t: seq<Byte>, i: nat): Uint32
    requires ENTRY_SIZE * (i + 1) <= |t|
  {
    Get32(EntryIn(t, i), AT_SIZE)
  }

  /** The size of the first n fragments according to the table. */
  function SizesIn(t: seq<Byte>, n: nat): nat
    requires ENTRY_SIZE * n <= |t|
  {
    if n == 0 then 0 else SizesIn(t, n - 1) + SizeIn(t, n - 1)
  }

  lemma {:induction false} SizesGrow(t: seq<Byte>, i: nat, n: nat)
    requires i <= n && ENTRY_SIZE * n <= |t|
    ensures SizesIn(t, i) <= SizesIn(t, n)
  {
    if i < n {
      SizesGrow(t, i, n - 1);
    }
  }

  /** The fragments that a table describes, one after the other in the ramdisk. */
  function FragmentIn(t: seq<Byte>, ram: seq<Byte>, i: nat): Fragment
    requires ENTRY_SIZE * (i + 1) <= |t| && SizesIn(t, i + 1) <= |ram|
  {
    Fragment(BlankEntry(EntryIn(t, i)), ram[SizesIn(t, i)..SizesIn(t, i + 1)])
  }

  function FragmentsIn(t: seq<Byte>, ram: seq<Byte>, n: nat): (fs: seq<Fragment>)
    requires ENTRY_SIZE * n <= |t| && SizesIn(t, n) <= |ram|
    ensures |fs| == n
  {
    if n == 0 then [] else FragmentsIn(t, ram, n - 1) + [FragmentIn(t, ram, n - 1)]
  }

  /** The regions of an image: header, ramdisk, device tree, table, the rest of the table's pages, bootconfig. */
  datatype Regions = Regions(head: seq<Byte>, ramdisk: seq<Byte>, dtb: seq<Byte>, table: seq<Byte>, rest: seq<Byte>,
                             boot: seq<Byte>)

  predicate CanCut(b: seq<Byte>, l: Layout) {
    ReadableIn(b, l) && l.ramdisk <= l.p && ENTRY_SIZE * l.num <= l.r && l.o + l.p + l.q + l.r + l.s <= |b|
  }

  function Cut(b: seq<Byte>, l: Layout): (g: Regions)
    requires CanCut(b, l)
    ensures |g.head| == l.o && |g.ramdisk| == l.ramdisk && |g.table| == ENTRY_SIZE * l.num
  {
    var table := l.o + l.p + l.q;
    Regions(b[..l.o], b[l.o..l.o + l.ramdisk], b[l.o + l.p..table], TableOf(b, l),
            b[table + ENTRY_SIZE * l.num..table + l.r], b[table + l.r..table + l.r + l.s])
  }

  /** The regions lie in the image, and the table accounts for the whole ramdisk. */
  predicate SoundIn(b: seq<Byte>, l: Layout) {
    CanCut(b, l) && SizesIn(TableOf(b, l), l.num) == l.ramdisk && l.o + l.p + l.q + l.r < TWO32
  }

  predicate Sound(b: seq<Byte>) {
    HeaderOk(b) && Readable(b) && SoundIn(b, LayoutOf(b))
  }

  function FooterOf(b: seq<Byte>): (r: seq<Byte>)
    ensures r == [] || (|b| >= FOOTER_SIZE && |r| == FOOTER_SIZE && r[..4] == FOOTER_MAGIC)
  {
    if |b| < FOOTER_SIZE then [] else
    var at := FooterAt(|b|);
    if b[at..at + 4] == FOOTER_MAGIC then b[at..at + FOOTER_SIZE] else []
  }

  /** The image that regions make. */
  function Build(length: nat, g: Regions, num: nat, dtbSize: Uint32, footer: seq<Byte>): Image
    requires |g.head| >= HEADER_V4_SIZE && |g.table| == ENTRY_SIZE * num && SizesIn(g.table, num) == |g.ramdisk|
  {
    Image(length, BlankHeader(g.head), FragmentsIn(g.table, g.ramdisk, num), dtbSize, g.dtb, g.rest, g.boot, footer)
  }

  function DecodeIn(b: seq<Byte>, l: Layout): (m: Image)
    requires SoundIn(b, l)
  {
    Build(|b|, Cut(b, l), l.num, l.dtb, FooterOf(b))
  }

  /** What the bytes say. */
  function Decode(b: seq<Byte>): (m: Image)
    requires Sound(b)
  {
    DecodeIn(b, LayoutOf(b))
  }

  // ---- reading back what was written

  lemma BlankHeaderFacts(h: seq<Byte>)
    requires |h| >= HEADER_V4_SIZE
    ensures BlankHeader(BlankHeader(h)) == BlankHeader(h)
    ensures BlankHeader(h)[..8] == h[..8]
    ensures Get32(BlankHeader(h), AT_VERSION) == Get32(h, AT_VERSION)
    ensures Get32(BlankHeader(h), AT_PAGE_SIZE) == Get32(h, AT_PAGE_SIZE)
    ensures Get32(BlankHeader(h), AT_TABLE_SIZE) == Get32(h, AT_TABLE_SIZE)
    ensures Get32(BlankHeader(h), AT_ENTRY_NUM) == Get32(h, AT_ENTRY_NUM)
    ensures Get32(BlankHeader(h), AT_ENTRY_SIZE) == Get32(h, AT_ENTRY_SIZE)
    ensures Get32(BlankHeader(h), AT_BOOTCONFIG_SIZE) == Get32(h, AT_BOOTCONFIG_SIZE)
  {
    SizesPut(h, 0, 0);
    PutsAgain(h, AT_RAMDISK_SIZE, 0, 0, AT_DTB_SIZE, 0, 0);
  }

  /** Writing the two size fields leaves the others. */
  lemma SizesPut(h: seq<Byte>, v: Uint32, w: Uint32)
    requires |h| >= HEADER_V4_SIZE
    ensures var g := Put32(Put32(h, AT_RAMDISK_SIZE, v), AT_DTB_SIZE, w);
            && g[..8] == h[..8]
            && Get32(g, AT_RAMDISK_SIZE) == v && Get32(g, AT_DTB_SIZE) == w
            && Get32(g, AT_VERSION) == Get32(h, AT_VERSION) && Get32(g, AT_PAGE_SIZE) == Get32(h, AT_PAGE_SIZE)
            && Get32(g, AT_TABLE_SIZE) == Get32(h, AT_TABLE_SIZE) && Get32(g, AT_ENTRY_NUM) == Get32(h, AT_ENTRY_NUM)
            && Get32(g, AT_ENTRY_SIZE) == Get32(h, AT_ENTRY_SIZE)
            && Get32(g, AT_BOOTCONFIG_SIZE) == Get32(h, AT_BOOTCONFIG_SIZE)
  {
    var g := Put32(h, AT_RAMDISK_SIZE, v);
    GetPut(h, AT_RAMDISK_SIZE, v, AT_RAMDISK_SIZE);
    GetPut(g, AT_DTB_SIZE, w, AT_RAMDISK_SIZE);
    GetPut(g, AT_DTB_SIZE, w, AT_DTB_SIZE);
    OtherField(h, v, w, AT_VERSION);
    OtherField(h, v, w, AT_PAGE_SIZE);
    OtherField(h, v, w, AT_TABLE_SIZE);
    OtherField(h, v, w, AT_ENTRY_NUM);
    OtherField(h, v, w, AT_ENTRY_SIZE);
    OtherField(h, v, w, AT_BOOTCONFIG_SIZE);
  }

  lemma OtherField(h: seq<Byte>, v: Uint32, w: Uint32, from: nat)
    requires |h| >= HEADER_V4_SIZE && from + 4 <= HEADER_V4_SIZE
    requires from + 4 <= AT_RAMDISK_SIZE || AT_RAMDISK_SIZE + 4 <= from
    requires from + 4 <= AT_DTB_SIZE || AT_DTB_SIZE + 4 <= from
    ensures Get32(Put32(Put32(h, AT_RAMDISK_SIZE, v), AT_DTB_SIZE, w), from) == Get32(h, from)
  {
    GetPut(h, AT_RAMDISK_SIZE, v, from);
    GetPut(Put32(h, AT_RAMDISK_SIZE, v), AT_DTB_SIZE, w, from);
  }

  /** The later of two writes to a pair of fields wins. */
  lemma PutsAgain(h: seq<Byte>, at: nat, v: Uint32, v': Uint32, bt: nat, w: Uint32, w': Uint32)
    requires (at + 4 <= bt && bt + 4 <= |h|) || (bt + 4 <= at && at + 4 <= |h|)
    ensures Put32(Put32(Put32(Put32(h, at, v), bt, w), at, v'), bt, w') == Put32(Put32(h, at, v'), bt, w')
  {
    var g := Put32(h, at, v);
    if at < bt {
      PutsCommute(g, at, v', bt, w);
    } else {
      PutsCommute(g, bt, w, at, v');
    }
    assert Put32(Put32(g, bt, w), at, v') == Put32(Put32(g, at, v'), bt, w);
    PutPut(h, at, v, v');
    PutPut(Put32(g, at, v'), bt, w, w');
  }

  lemma FieldOfPrefix(b: seq<Byte>, n: nat, at: nat)
    requires at + 4 <= n <= |b|
    ensures Get32(b, at) == Get32(b[..n], at)
  {
    assert b[..n][at..at + 4] == b[at..at + 4];
  }

  /** A header that says what the image needs it to say. */
  predicate HeadReads(m: Image, h: seq<Byte>)
    requires Regular(m)
  {
    && HeaderOk(h) && BlankHeader(h) == m.header && PageOf(h) == PageOf(m.header)
    && Get32(h, AT_RAMDISK_SIZE) == Wrap32(RamdiskTotal(m)) && Get32(h, AT_DTB_SIZE) == m.dtbSize
    && Get32(h, AT_TABLE_SIZE) == Get32(m.header, AT_TABLE_SIZE) && Get32(h, AT_ENTRY_NUM) == |m.fragments|
    && Get32(h, AT_ENTRY_SIZE) == ENTRY_SIZE
    && Get32(h, AT_BOOTCONFIG_SIZE) == Get32(m.header, AT_BOOTCONFIG_SIZE)
  }

  lemma HeadFacts(m: Image)
    requires Regular(m)
    ensures HeadReads(m, Head(m))
  {
    SizesPut(m.header, Wrap32(RamdiskTotal(m)), m.dtbSize);
    PutsAgain(m.header, AT_RAMDISK_SIZE, Wrap32(RamdiskTotal(m)), 0, AT_DTB_SIZE, m.dtbSize, 0);
  }

  /** A table entry that says what the fragment needs it to say. */
  predicate EntryReads(fs: seq<Fragment>, i: nat, e: seq<Byte>)
    requires i < |fs|
  {
    && |e| == ENTRY_SIZE && Get32(e, AT_SIZE) == Wrap32(|fs[i].content|) && Get32(e, AT_OFFSET) == Wrap32(Total(fs, i))
    && BlankEntry(e) == fs[i].meta && |fs[i].meta| == ENTRY_SIZE && e[8..] == fs[i].meta[8..]
  }

  lemma EntryFacts(fs: seq<Fragment>, i: nat)
    requires EntriesOk(fs) && i < |fs|
    ensures EntryReads(fs, i, EntryOf(fs, i))
  {
    var v, w := Wrap32(Total(fs, i)), Wrap32(|fs[i].content|);
    var e := Put32(fs[i].meta, AT_OFFSET, v);
    GetPut(fs[i].meta, AT_OFFSET, v, AT_OFFSET);
    GetPut(e, AT_SIZE, w, AT_OFFSET);
    GetPut(e, AT_SIZE, w, AT_SIZE);
    PutsAgain(fs[i].meta, AT_OFFSET, v, 0, AT_SIZE, w, 0);
  }

  // ---- where the footer goes

  /** The two agree where `body` has bytes, except from lo to hi. */
  ghost predicate SameOutside(c: seq<Byte>, body: seq<Byte>, lo: nat, hi: nat) {
    |body| <= |c| && forall x :: 0 <= x < |body| && !(lo <= x < hi) ==> c[x] == body[x]
  }

  /** What the footer covers at byte k; behind the content and from lo to hi nothing that matters. */
  function CoveredAt(body: seq<Byte>, at: nat, footer: seq<Byte>, lo: nat, hi: nat, k: nat): Byte
    requires k < |footer|
  {
    if at + k >= |body| || lo <= at + k < hi then footer[k] else body[at + k]
  }

  function Covered(body: seq<Byte>, at: nat, footer: seq<Byte>, lo: nat, hi: nat): (r: seq<Byte>)
    ensures |r| == |footer| && forall k :: 0 <= k < |r| ==> r[k] == CoveredAt(body, at, footer, lo, hi, k)
  {
    seq(|footer|, k requires 0 <= k < |footer| => CoveredAt(body, at, footer, lo, hi, k))
  }

  lemma StampedAt(body: seq<Byte>, n: nat, footer: seq<Byte>)
    requires |body| <= n && n >= FOOTER_SIZE == |footer|
    ensures var (at, r) := (FooterAt(n), Stamped(body, n, footer));
            && at + FOOTER_SIZE <= |r| == n
            && (forall x :: 0 <= x < |body| && !(at <= x < at + FOOTER_SIZE) ==> r[x] == body[x])
            && (forall k :: 0 <= k < FOOTER_SIZE ==> r[at + k] == footer[k])
  {
  }

  /** Stamping a footer leaves the content, but for the gap, exactly if it covers nothing that differs. */
  lemma StampSpares(body: seq<Byte>, n: nat, footer: seq<Byte>, lo: nat, hi: nat)
    requires |body| <= n && n >= FOOTER_SIZE == |footer|
    ensures SameOutside(Stamped(body, n, footer), body, lo, hi) <==>
              Covered(body, FooterAt(n), footer, lo, hi) == footer
  {
    StampedAt(body, n, footer);
    CoveredSpares(body, Stamped(body, n, footer), FooterAt(n), footer, lo, hi);
  }

  lemma CoveredSpares(body: seq<Byte>, r: seq<Byte>, at: nat, footer: seq<Byte>, lo: nat, hi: nat)
    requires |footer| == FOOTER_SIZE && |body| <= |r| && at + FOOTER_SIZE <= |r|
    requires forall x :: 0 <= x < |body| && !(at <= x < at + FOOTER_SIZE) ==> r[x] == body[x]
    requires forall k :: 0 <= k < FOOTER_SIZE ==> r[at + k] == footer[k]
    ensures SameOutside(r, body, lo, hi) <==> Covered(body, at, footer, lo, hi) == footer
  {
    var under := Covered(body, at, footer, lo, hi);
    if under == footer {
      forall x | 0 <= x < |body| && !(lo <= x < hi)
        ensures r[x] == body[x]
      {
        if at <= x < at + FOOTER_SIZE {
          assert under[x - at] == CoveredAt(body, at, footer, lo, hi, x - at) && r[at + (x - at)] == footer[x - at];
        }
      }
    }
    if SameOutside(r, body, lo, hi) {
      forall k | 0 <= k < FOOTER_SIZE
        ensures under[k] == footer[k]
      {
        if at + k < |body| && !(lo <= at + k < hi) {
          assert r[at + k] == body[at + k];
        }
      }
    }
  }

  lemma StampedFooter(body: seq<Byte>, n: nat, footer: seq<Byte>)
    requires |body| <= n && n >= FOOTER_SIZE == |footer| && footer[..4] == FOOTER_MAGIC
    ensures FooterOf(Stamped(body, n, footer)) == footer
  {
    var at, r := FooterAt(n), Stamped(body, n, footer);
    assert r[at..at + FOOTER_SIZE] == footer;
    assert r[at..at + 4] == footer[..4];
  }

  /** Nothing passes for a footer that is none, and a footer spares the content but for the gap. */
  predicate Apart(body: seq<Byte>, n: nat, footer: seq<Byte>, lo: nat, hi: nat)
    requires |body| <= n
  {
    if footer == [] then FooterOf(Stamped(body, n, [])) == []
    else n >= FOOTER_SIZE && Covered(body, FooterAt(n), footer, lo, hi) == footer
  }

  /**
   * The image can be told from its bytes: no part of its content passes for a footer, and the footer, if there
   * is one, falls behind the content, on the padding of the ramdisk, or on bytes that are the same.
   */
  predicate Intact(m: Image)
    requires Regular(m) && Fits(m)
  {
    Apart(Body(m), m.length, m.footer, |m.header| + RamdiskTotal(m), |m.header| + RamdiskPages(m))
  }

  lemma Within(a: seq<Byte>, b: seq<Byte>, i: nat, j: nat)
    requires i <= j <= |a|
    ensures (a + b)[i..j] == a[i..j]
  {
  }

  lemma Nested(c: seq<Byte>, i: nat, j: nat, k: nat, l: nat)
    requires i <= j <= |c| && k <= l <= j - i
    ensures c[i..j][k..l] == c[i + k..i + l]
  {
    assert forall x :: 0 <= x < l - k ==> c[i..j][k..l][x] == c[i + k + x];
  }

  lemma Parts(c: seq<Byte>, head: seq<Byte>, ram: seq<Byte>, dtb: seq<Byte>, table: seq<Byte>, boot: seq<Byte>)
    requires var n := |head| + |ram| + |dtb| + |table| + |boot|; n <= |c| && c[..n] == head + ram + dtb + table + boot
    ensures c[..|head|] == head
    ensures c[|head|..|head| + |ram|] == ram
    ensures c[|head| + |ram|..|head| + |ram| + |dtb|] == dtb
    ensures c[|head| + |ram| + |dtb|..|head| + |ram| + |dtb| + |table|] == table
    ensures c[|head| + |ram| + |dtb| + |table|..|head| + |ram| + |dtb| + |table| + |boot|] == boot
  {
    var n := |head| + |ram| + |dtb| + |table| + |boot|;
    var x := c[..n];
    assert forall i, j :: 0 <= i <= j <= n ==> c[i..j] == x[i..j];
    SplitAt(head, ram);
    SplitAt(head + ram, dtb);
    SplitAt(head + ram + dtb, table);
    SplitAt(head + ram + dtb + table, boot);
  }

  lemma {:induction false} TableAt(fs: seq<Fragment>, i: nat, n: nat)
    requires EntriesOk(fs) && i < n <= |fs|
    ensures Table(fs, n)[ENTRY_SIZE * i..ENTRY_SIZE * i + ENTRY_SIZE] == EntryOf(fs, i)
  {
    if i < n - 1 {
      TableAt(fs, i, n - 1);
      Within(Table(fs, n - 1), EntryOf(fs, n - 1), ENTRY_SIZE * i, ENTRY_SIZE * i + ENTRY_SIZE);
    }
  }

  lemma {:induction false} TotalGrows(fs: seq<Fragment>, i: nat, n: nat)
    requires i <= n <= |fs|
    ensures Total(fs, i) <= Total(fs, n)
  {
    if i < n {
      TotalGrows(fs, i, n - 1);
    }
  }

  lemma {:induction false} ContentAt(fs: seq<Fragment>, i: nat, n: nat)
    requires i < n <= |fs|
    ensures Total(fs, i + 1) <= Total(fs, n) && Contents(fs, n)[Total(fs, i)..Total(fs, i + 1)] == fs[i].content
  {
    if i < n - 1 {
      ContentAt(fs, i, n - 1);
      Within(Contents(fs, n - 1), fs[n - 1].content, Total(fs, i), Total(fs, i + 1));
    }
  }

  /** A table and a ramdisk that say what the fragments are. */
  predicate Describes(t: seq<Byte>, ram: seq<Byte>, fs: seq<Fragment>) {
    && |t| == ENTRY_SIZE * |fs| && |ram| == Total(fs, |fs|) < TWO32
    && forall i :: 0 <= i < |fs| ==> DescribesAt(t, ram, fs, i)
  }

  predicate DescribesAt(t: seq<Byte>, ram: seq<Byte>, fs: seq<Fragment>, i: nat)
    requires i < |fs| && |t| == ENTRY_SIZE * |fs|
  {
    && EntryReads(fs, i, EntryIn(t, i))
    && Total(fs, i + 1) <= |ram| && ram[Total(fs, i)..Total(fs, i + 1)] == fs[i].content
  }

  lemma TableDescribes(fs: seq<Fragment>)
    requires EntriesOk(fs) && Total(fs, |fs|) < TWO32
    ensures Describes(Table(fs, |fs|), Contents(fs, |fs|), fs)
  {
    forall i | 0 <= i < |fs|
      ensures DescribesAt(Table(fs, |fs|), Contents(fs, |fs|), fs, i)
    {
      TableAt(fs, i, |fs|);
      EntryFacts(fs, i);
      ContentAt(fs, i, |fs|);
    }
  }

  lemma {:induction false} SizesReadBack(t: seq<Byte>, ram: seq<Byte>, fs: seq<Fragment>, n: nat)
    requires Describes(t, ram, fs) && n <= |fs|
    ensures SizesIn(t, n) == Total(fs, n) <= |ram|
  {
    TotalGrows(fs, n, |fs|);
    if n > 0 {
      SizesReadBack(t, ram, fs, n - 1);
      assert DescribesAt(t, ram, fs, n - 1);
    }
  }

  /** A table and its ramdisk give back the fragments they were made of. */
  lemma {:induction false} FragmentsReadBack(t: seq<Byte>, ram: seq<Byte>, fs: seq<Fragment>, n: nat)
    requires Describes(t, ram, fs) && n <= |fs|
    ensures SizesIn(t, n) == Total(fs, n) <= |ram| && FragmentsIn(t, ram, n) == fs[..n]
  {
    SizesReadBack(t, ram, fs, n);
    if n > 0 {
      FragmentsReadBack(t, ram, fs, n - 1);
      assert DescribesAt(t, ram, fs, n - 1);
      assert fs[..n] == fs[..n - 1] + [fs[n - 1]];
    }
  }

  // ---- the regions of an encoded image

  function ImageLayout(m: Image): Layout
    requires Regular(m)
  {
    Layout(|m.header|, RamdiskPages(m), |m.dtb|, ENTRY_SIZE * |m.fragments| + |m.tableRest|, |m.boot|,
           |m.fragments|, RamdiskTotal(m), m.dtbSize)
  }

  lemma HeaderLaysOut(m: Image, c: seq<Byte>)
    requires Regular(m) && Fits(m) && |c| == m.length && HeadReads(m, c[..|m.header|])
    ensures HeaderOk(c) && Get32(c, AT_ENTRY_SIZE) == ENTRY_SIZE && LayoutOf(c) == ImageLayout(m)
  {
    var n := |m.header|;
    assert c[..8] == c[..n][..8];
    FieldOfPrefix(c, n, AT_VERSION);
    FieldOfPrefix(c, n, AT_PAGE_SIZE);
    FieldOfPrefix(c, n, AT_RAMDISK_SIZE);
    FieldOfPrefix(c, n, AT_DTB_SIZE);
    FieldOfPrefix(c, n, AT_TABLE_SIZE);
    FieldOfPrefix(c, n, AT_ENTRY_NUM);
    FieldOfPrefix(c, n, AT_ENTRY_SIZE);
    FieldOfPrefix(c, n, AT_BOOTCONFIG_SIZE);
  }

  lemma TwoParts(c: seq<Byte>, i: nat, a: seq<Byte>, b: seq<Byte>)
    requires i + |a| + |b| <= |c| && c[i..i + |a| + |b|] == a + b
    ensures c[i..i + |a|] == a && c[i + |a|..i + |a| + |b|] == b
  {
    Nested(c, i, i + |a| + |b|, 0, |a|);
    Nested(c, i, i + |a| + |b|, |a|, |a| + |b|);
    SplitAt(a, b);
  }

  lemma SevenParts(c: seq<Byte>, h: seq<Byte>, ct: seq<Byte>, z: seq<Byte>, dtb: seq<Byte>, t: seq<Byte>,
                   rest: seq<Byte>,
                   boot: seq<Byte>, ram: nat, table: nat, end: nat)
    requires ram == |h| + |ct| + |z| && table == ram + |dtb| && end == table + |t| + |rest|
    requires end + |boot| <= |c| && c[..end + |boot|] == h + (ct + z) + dtb + (t + rest) + boot
    ensures c[..|h|] == h && c[|h|..|h| + |ct|] == ct && c[ram..table] == dtb && c[table..table + |t|] == t
    ensures c[table + |t|..end] == rest && c[end..end + |boot|] == boot
  {
    Parts(c, h, ct + z, dtb, t + rest, boot);
    TwoParts(c, |h|, ct, z);
    TwoParts(c, table, t, rest);
  }

  lemma CutIs(c: seq<Byte>, l: Layout, g: Regions, z: seq<Byte>)
    requires l.num * ENTRY_SIZE == |g.table| && l.ramdisk == |g.ramdisk| && HEADER_V4_SIZE <= l.o == |g.head|
    requires l.p == |g.ramdisk| + |z| && l.q == |g.dtb| && l.r == |g.table| + |g.rest| && l.s == |g.boot|
    requires l.o + l.p + l.q + l.r + l.s <= |c|
    requires c[..l.o + l.p + l.q + l.r + l.s] == g.head + (g.ramdisk + z) + g.dtb + (g.table + g.rest) + g.boot
    ensures CanCut(c, l) && Cut(c, l) == g
  {
    var table := l.o + l.p + l.q;
    SevenParts(c, g.head, g.ramdisk, z, g.dtb, g.table, g.rest, g.boot, l.o + l.p, table, table + l.r);
    assert TableOf(c, l) == g.table;
    assert g == Regions(g.head, g.ramdisk, g.dtb, g.table, g.rest, g.boot);
  }

  lemma BuildIs(m: Image, g: Regions)
    requires |g.head| >= HEADER_V4_SIZE && BlankHeader(g.head) == m.header && Describes(g.table, g.ramdisk, m.fragments)
    requires g.dtb == m.dtb && g.rest == m.tableRest && g.boot == m.boot
    ensures SizesIn(g.table, |m.fragments|) == |g.ramdisk|
    ensures Build(m.length, g, |m.fragments|, m.dtbSize, m.footer) == m
  {
    FragmentsReadBack(g.table, g.ramdisk, m.fragments, |m.fragments|);
    assert m.fragments[..|m.fragments|] == m.fragments;
  }

  /** Bytes whose regions are those of the image say what the image says. */
  lemma RegionsReadBack(m: Image, c: seq<Byte>, l: Layout, g: Regions, z: seq<Byte>)
    requires Describes(g.table, g.ramdisk, m.fragments) && l.num == |m.fragments| && l.ramdisk == |g.ramdisk|
    requires l.dtb == m.dtbSize
    requires g.dtb == m.dtb && g.rest == m.tableRest && g.boot == m.boot
    requires HEADER_V4_SIZE <= l.o == |g.head| && l.p == |g.ramdisk| + |z| && l.q == |m.dtb|
    requires l.r == |g.table| + |m.tableRest| && l.s == |m.boot|
    requires l.o + l.p + l.q + l.r < TWO32 && l.o + l.p + l.q + l.r + l.s <= |c|
    requires c[..l.o + l.p + l.q + l.r + l.s] == g.head + (g.ramdisk + z) + g.dtb + (g.table + g.rest) + g.boot
    requires |c| == m.length && FooterOf(c) == m.footer && BlankHeader(g.head) == m.header
    ensures SoundIn(c, l) && DecodeIn(c, l) == m && TableOf(c, l) == g.table
  {
    CutIs(c, l, g, z);
    BuildIs(m, g);
  }

  lemma LaysReadsBack(m: Image, c: seq<Byte>, h: seq<Byte>, ct: seq<Byte>, z: seq<Byte>, t: seq<Byte>)
    requires Regular(m) && Fits(m) && HeadReads(m, h) && |h| == |m.header|
    requires Describes(t, ct, m.fragments) && |ct| + |z| == RamdiskPages(m) && |c| == m.length
    requires FooterOf(c) == m.footer
    requires c[..ContentEnd(m)] == h + (ct + z) + m.dtb + (t + m.tableRest) + m.boot
    ensures Sound(c) && Decode(c) == m && TableOf(c, LayoutOf(c)) == t
  {
    var l := ImageLayout(m);
    Parts(c, h, ct + z, m.dtb, t + m.tableRest, m.boot);
    HeaderLaysOut(m, c);
    RegionsReadBack(m, c, l, Regions(h, ct, m.dtb, t, m.tableRest, m.boot), z);
  }

  lemma GapSplits(c: seq<Byte>, h: seq<Byte>, ct: seq<Byte>, z: seq<Byte>, dtb: seq<Byte>, t: seq<Byte>,
                  boot: seq<Byte>)
    requires SameOutside(c, h + (ct + z) + dtb + t + boot, |h| + |ct|, |h| + |ct| + |z|)
    ensures var (lo, n) := (|h| + |ct|, |h| + |ct| + |z| + |dtb| + |t| + |boot|);
            c[..n] == h + (ct + c[lo..lo + |z|]) + dtb + t + boot
  {
  }

  lemma SplitsGap(c: seq<Byte>, body: seq<Byte>, h: seq<Byte>, ct: seq<Byte>, z: seq<Byte>, z': seq<Byte>,
                  dtb: seq<Byte>, t: seq<Byte>, boot: seq<Byte>, lo: nat, hi: nat)
    requires body == h + (ct + z) + dtb + t + boot && |z'| == |z| && |body| <= |c| && lo == |h| + |ct| && hi == lo + |z|
    requires c[..|body|] == h + (ct + z') + dtb + t + boot
    ensures SameOutside(c, body, lo, hi)
  {
    var y := h + (ct + z') + dtb + t + boot;
    assert forall i :: 0 <= i < |body| && !(lo <= i < hi) ==> body[i] == y[i];
    assert forall i :: 0 <= i < |body| ==> c[i] == c[..|body|][i];
  }

  lemma StampAgrees(body: seq<Byte>, n: nat, footer: seq<Byte>, lo: nat, hi: nat)
    requires |body| <= n && (footer == [] || (n >= FOOTER_SIZE == |footer| && footer[..4] == FOOTER_MAGIC))
    requires Apart(body, n, footer, lo, hi)
    ensures FooterOf(Stamped(body, n, footer)) == footer && SameOutside(Stamped(body, n, footer), body, lo, hi)
  {
    if footer == [] {
      assert Stamped(body, n, footer) == body + Zeros(n - |body|);
    } else {
      StampedFooter(body, n, footer);
      StampSpares(body, n, footer, lo, hi);
    }
  }

  lemma StampedGap(body: seq<Byte>, h: seq<Byte>, ct: seq<Byte>, z: seq<Byte>, dtb: seq<Byte>, t: seq<Byte>,
                   boot: seq<Byte>,
                   n: nat, footer: seq<Byte>, lo: nat, hi: nat) returns (z': seq<Byte>)
    requires body == h + (ct + z) + dtb + t + boot && lo == |h| + |ct| && hi == lo + |z|
    requires |body| <= n && (footer == [] || (n >= FOOTER_SIZE == |footer| && footer[..4] == FOOTER_MAGIC))
    requires Apart(body, n, footer, lo, hi)
    ensures |z'| == |z| && FooterOf(Stamped(body, n, footer)) == footer
    ensures Stamped(body, n, footer)[..|body|] == h + (ct + z') + dtb + t + boot
  {
    StampAgrees(body, n, footer, lo, hi);
    GapSplits(Stamped(body, n, footer), h, ct, z, dtb, t, boot);
    z' := Stamped(body, n, footer)[lo..hi];
  }

  lemma BodyParts(m: Image)
    requires Regular(m) && Fits(m)
    ensures var (fs, pad) := (m.fragments, Zeros(RamdiskPages(m) - RamdiskTotal(m)));
            Body(m) == Head(m) + (Contents(fs, |fs|) + pad) + m.dtb + TableRegion(m) + m.boot
  {
  }

  lemma FooterShape(m: Image)
    requires Regular(m)
    ensures m.footer == [] || (m.length >= FOOTER_SIZE == |m.footer| && m.footer[..4] == FOOTER_MAGIC)
  {
  }

  /** Bytes that hold the image read back as the image. */
  lemma StampedReadsBack(m: Image, body: seq<Byte>, h: seq<Byte>, ct: seq<Byte>, pad: seq<Byte>, t: seq<Byte>, lo: nat,
                         hi: nat)
    requires Regular(m) && Fits(m) && HeadReads(m, h) && |h| == |m.header| && Describes(t, ct, m.fragments)
    requires body == h + (ct + pad) + m.dtb + (t + m.tableRest) + m.boot && |body| == ContentEnd(m) <= m.length
    requires lo == |h| + |ct| && hi == lo + |pad| && |ct| + |pad| == RamdiskPages(m)
    requires Apart(body, m.length, m.footer, lo, hi)
    requires m.footer == [] || (m.length >= FOOTER_SIZE == |m.footer| && m.footer[..4] == FOOTER_MAGIC)
    ensures var c := Stamped(body, m.length, m.footer);
            Sound(c) && Decode(c) == m && TableOf(c, LayoutOf(c)) == t
  {
    var z := StampedGap(body, h, ct, pad, m.dtb, t + m.tableRest, m.boot, m.length, m.footer, lo, hi);
    LaysReadsBack(m, Stamped(body, m.length, m.footer), h, ct, z, t);
  }

  /** Reading back the bytes of an image gives the image. */
  lemma DecodeEncode(m: Image)
    requires Regular(m) && Fits(m) && Intact(m)
    ensures Sound(Encode(m)) && Decode(Encode(m)) == m
    ensures TableOf(Encode(m), LayoutOf(Encode(m))) == Table(m.fragments, |m.fragments|)
  {
    var fs, lo, hi := m.fragments, |m.header| + RamdiskTotal(m), |m.header| + RamdiskPages(m);
    HeadFacts(m);
    TableDescribes(fs);
    BodyParts(m);
    FooterShape(m);
    StampedReadsBack(m, Body(m), Head(m), Contents(fs, |fs|), Zeros(RamdiskPages(m) - RamdiskTotal(m)),
                     Table(fs, |fs|), lo, hi);
  }

  // ---- what was read is regular

  lemma {:induction false} FragmentsInAt(t: seq<Byte>, ram: seq<Byte>, n: nat, i: nat)
    requires ENTRY_SIZE * n <= |t| && SizesIn(t, n) <= |ram| && i < n
    ensures SizesIn(t, i) <= SizesIn(t, i + 1) <= SizesIn(t, n)
    ensures FragmentsIn(t, ram, n)[i] == FragmentIn(t, ram, i)
  {
    if i < n - 1 {
      FragmentsInAt(t, ram, n - 1, i);
    }
  }

  lemma {:induction false} TotalOfDecoded(t: seq<Byte>, ram: seq<Byte>, n: nat, k: nat)
    requires ENTRY_SIZE * n <= |t| && SizesIn(t, n) <= |ram| && k <= n
    ensures Total(FragmentsIn(t, ram, n), k) == SizesIn(t, k)
  {
    if k > 0 {
      TotalOfDecoded(t, ram, n, k - 1);
      FragmentsInAt(t, ram, n, k - 1);
    }
  }

  lemma BlankEntryFacts(e: seq<Byte>)
    requires |e| == ENTRY_SIZE
    ensures BlankEntry(BlankEntry(e)) == BlankEntry(e) && BlankEntry(e)[8..] == e[8..]
  {
    PutsAgain(e, AT_OFFSET, 0, 0, AT_SIZE, 0, 0);
  }

  lemma EntriesOfDecoded(t: seq<Byte>, ram: seq<Byte>, n: nat)
    requires ENTRY_SIZE * n <= |t| && SizesIn(t, n) <= |ram|
    ensures EntriesOk(FragmentsIn(t, ram, n))
  {
    var fs := FragmentsIn(t, ram, n);
    forall i | 0 <= i < n
      ensures |fs[i].meta| == ENTRY_SIZE && fs[i].meta == BlankEntry(fs[i].meta)
    {
      FragmentsInAt(t, ram, n, i);
      BlankEntryFacts(EntryIn(t, i));
    }
  }

  lemma BuildIsRegular(length: nat, g: Regions, num: nat, dtbSize: Uint32, footer: seq<Byte>, page: Uint32)
    requires HeaderOk(g.head) && PageOf(g.head) == page && |g.head| == RoundUp(HEADER_V4_SIZE, page)
    requires |g.table| == ENTRY_SIZE * num && SizesIn(g.table, num) == |g.ramdisk|
    requires Get32(g.head, AT_ENTRY_NUM) == num && Get32(g.head, AT_ENTRY_SIZE) == ENTRY_SIZE
    requires |g.table| + |g.rest| == RoundUp(Get32(g.head, AT_TABLE_SIZE), page)
    requires |g.boot| == RoundUp(Get32(g.head, AT_BOOTCONFIG_SIZE), page)
    requires footer == [] || (length >= FOOTER_SIZE == |footer| && footer[..4] == FOOTER_MAGIC)
    ensures var m := Build(length, g, num, dtbSize, footer);
            Regular(m) && RamdiskTotal(m) == |g.ramdisk| && PageOf(m.header) == page
  {
    BlankHeaderFacts(g.head);
    EntriesOfDecoded(g.table, g.ramdisk, num);
    TotalOfDecoded(g.table, g.ramdisk, num, num);
  }

  lemma HeadOfBytes(b: seq<Byte>, n: nat)
    requires HeaderOk(b) && HEADER_V4_SIZE <= n <= |b|
    ensures HeaderOk(b[..n]) && PageOf(b[..n]) == PageOf(b)
    ensures Get32(b[..n], AT_ENTRY_NUM) == Get32(b, AT_ENTRY_NUM)
    ensures Get32(b[..n], AT_ENTRY_SIZE) == Get32(b, AT_ENTRY_SIZE)
    ensures Get32(b[..n], AT_TABLE_SIZE) == Get32(b, AT_TABLE_SIZE)
    ensures Get32(b[..n], AT_BOOTCONFIG_SIZE) == Get32(b, AT_BOOTCONFIG_SIZE)
  {
    assert b[..8] == b[..n][..8];
    FieldOfPrefix(b, n, AT_VERSION);
    FieldOfPrefix(b, n, AT_PAGE_SIZE);
    FieldOfPrefix(b, n, AT_TABLE_SIZE);
    FieldOfPrefix(b, n, AT_ENTRY_NUM);
    FieldOfPrefix(b, n, AT_ENTRY_SIZE);
    FieldOfPrefix(b, n, AT_BOOTCONFIG_SIZE);
  }

  /** What a sound image says can be written down again. */
  lemma DecodedIsRegular(b: seq<Byte>)
    requires Sound(b)
    ensures var m := Decode(b);
            Regular(m) && Fits(m) && RamdiskTotal(m) == Get32(b, AT_RAMDISK_SIZE) && PageOf(m.header) == PageOf(b)
  {
    var l := LayoutOf(b);
    HeadOfBytes(b, l.o);
    BuildIsRegular(|b|, Cut(b, l), l.num, l.dtb, FooterOf(b), PageOf(b));
  }

  // ---- replacing a fragment

  /** A name field holds a string up to a zero byte, or fills the field. */
  function CString(s: seq<Byte>): seq<Byte> {
    if s == [] || s[0] == 0 then [] else [s[0]] + CString(s[1..])
  }

  function NameOf(e: seq<Byte>): seq<Byte>
    requires |e| == ENTRY_SIZE
  {
    CString(e[AT_NAME..AT_NAME + NAME_SIZE])
  }

  /** Exactly one entry of the table has the name. */
  predicate UniqueIn(t: seq<Byte>, n: nat, name: seq<Byte>, i: nat)
    requires ENTRY_SIZE * n <= |t|
  {
    && i < n && NameOf(EntryIn(t, i)) == name
    && forall j :: 0 <= j < n && j != i ==> NameOf(EntryIn(t, j)) != name
  }

  predicate UniqueFragment(fs: seq<Fragment>, name: seq<Byte>, i: nat)
    requires EntriesOk(fs)
  {
    && i < |fs| && NameOf(fs[i].meta) == name
    && forall j :: 0 <= j < |fs| && j != i ==> NameOf(fs[j].meta) != name
  }

  lemma NameInDecoded(t: seq<Byte>, ram: seq<Byte>, n: nat, i: nat)
    requires ENTRY_SIZE * n <= |t| && SizesIn(t, n) <= |ram| && i < n
    ensures |FragmentsIn(t, ram, n)[i].meta| == ENTRY_SIZE
    ensures NameOf(FragmentsIn(t, ram, n)[i].meta) == NameOf(EntryIn(t, i))
  {
    FragmentsInAt(t, ram, n, i);
    var e := EntryIn(t, i);
    BlankEntryFacts(e);
    assert e[AT_NAME..AT_NAME + NAME_SIZE] == e[8..][AT_NAME - 8..AT_NAME - 8 + NAME_SIZE];
    assert BlankEntry(e)[AT_NAME..AT_NAME + NAME_SIZE] == BlankEntry(e)[8..][AT_NAME - 8..AT_NAME - 8 + NAME_SIZE];
  }

  lemma UniqueInDecoded(t: seq<Byte>, ram: seq<Byte>, n: nat, name: seq<Byte>, i: nat)
    requires ENTRY_SIZE * n <= |t| && SizesIn(t, n) <= |ram|
    ensures EntriesOk(FragmentsIn(t, ram, n))
    ensures UniqueIn(t, n, name, i) <==> UniqueFragment(FragmentsIn(t, ram, n), name, i)
  {
    EntriesOfDecoded(t, ram, n);
    forall j | 0 <= j < n
      ensures NameOf(FragmentsIn(t, ram, n)[j].meta) == NameOf(EntryIn(t, j))
    {
      NameInDecoded(t, ram, n, j);
    }
  }

  /** The part of a device tree that a 32-bit size covers. */
  function Sized(dtb: seq<Byte>): (d: seq<Byte>)
    ensures |d| < TWO32 && (|dtb| < TWO32 ==> d == dtb)
  {
    dtb[..Wrap32(|dtb|)]
  }

  /** A device tree on whole pages, if its size can be rounded up. */
  function OnPages(d: seq<Byte>, page: Uint32): seq<Byte>
    requires |d| < TWO32 && page > 0
  {
    if |d| <= RoundUp(|d|, page) then d + Zeros(RoundUp(|d|, page) - |d|) else d
  }

  /** The image with one fragment replaced, and the device tree if a new one is given. */
  function Update(m: Image, i: nat, ramdisk: seq<Byte>, dtb: seq<Byte>): Image
    requires Regular(m) && i < |m.fragments|
  {
    var fs := m.fragments[i := m.fragments[i].(content := ramdisk)];
    if dtb == [] then m.(fragments := fs)
    else m.(fragments := fs, dtbSize := |Sized(dtb)|, dtb := OnPages(Sized(dtb), PageOf(m.header)))
  }

  lemma UpdateIsRegular(m: Image, i: nat, ramdisk: seq<Byte>, dtb: seq<Byte>)
    requires Regular(m) && i < |m.fragments|
    ensures Regular(Update(m, i, ramdisk, dtb))
  {
  }

  /** When the named fragment can be replaced: it is there once, the sizes are consistent, and it all fits. */
  predicate Replaceable(m: Image, name: seq<Byte>, i: nat, ramdisk: seq<Byte>, dtb: seq<Byte>)
    requires Regular(m)
  {
    && UniqueFragment(m.fragments, name, i) && (dtb != [] ==> m.dtbSize <= |m.dtb|)
    && (UpdateIsRegular(m, i, ramdisk, dtb); Fits(Update(m, i, ramdisk, dtb)))
  }

  lemma SameNames(fs: seq<Fragment>, gs: seq<Fragment>, name: seq<Byte>, i: nat)
    requires EntriesOk(fs) && EntriesOk(gs) && |fs| == |gs| && forall j :: 0 <= j < |fs| ==> fs[j].meta == gs[j].meta
    ensures UniqueFragment(fs, name, i) <==> UniqueFragment(gs, name, i)
  {
  }

  /** The last of two updates of the same fragment is the one that counts. */
  lemma UpdateTwice(m: Image, name: seq<Byte>, i: nat, x: seq<Byte>, d1: seq<Byte>, y: seq<Byte>, d2: seq<Byte>)
    requires Regular(m) && Replaceable(m, name, i, x, d1) && (d1 == [] || d2 != [])
    ensures Regular(Update(m, i, x, d1)) && Update(Update(m, i, x, d1), i, y, d2) == Update(m, i, y, d2)
    ensures Replaceable(Update(m, i, x, d1), name, i, y, d2) <==> Replaceable(m, name, i, y, d2)
  {
    UpdateIsRegular(m, i, x, d1);
    var m1 := Update(m, i, x, d1);
    assert m1.fragments[i := m1.fragments[i].(content := y)] == m.fragments[i := m.fragments[i].(content := y)];
    assert Update(m1, i, y, d2) == Update(m, i, y, d2);
    SameNames(m1.fragments, m.fragments, name, i);
    assert d2 != [] ==> (m1.dtbSize <= |m1.dtb| <==> m.dtbSize <= |m.dtb|);
  }
}
