/**
 * What a smart socket makes of the bytes its client has sent: four hexadecimal digits and as many bytes of
 * request.  The request is not cut off behind its length, so that bytes which arrive with it take part.
 */
module SmartRequest {
  import opened Bytes
  import opened Framing
  import opened StreamProtocol
  import HostService

  // ---- numbers

  const NOT_HEX: nat := 0xffff_ffff

  function HexDigit(b: Byte): (r: Option<nat>)
    ensures r.Some? ==> r.value < 16
  {
    if '0' as int <= b <= '9' as int then Some(b - '0' as int)
    else if 'a' as int <= b <= 'f' as int then Some(b - 'a' as int + 10)
    else if 'A' as int <= b <= 'F' as int then Some(b - 'A' as int + 10)
    else None
  }

  /** The number that the digits stand for, if they are all digits. */
  function Hex(s: seq<Byte>): (r: Option<nat>) {
    if s == [] then Some(0) else
    var high, low := Hex(s[..|s| - 1]), HexDigit(s[|s| - 1]);
    if high.None? || low.None? then None else Some(16 * high.value + low.value)
  }

  lemma {:induction false} HexPrefix(s: seq<Byte>, k: nat)
    requires k <= |s| && Hex(s[..k]).None?
    ensures Hex(s).None?
    decreases |s|
  {
    if k < |s| {
      assert s[..|s| - 1][..k] == s[..k];
      HexPrefix(s[..|s| - 1], k);
    } else {
      assert s[..k] == s;
    }
  }

  /** unhex, which stops at the first character that is no digit. */
  method Unhex(s: seq<Byte>) returns (n: nat)
    ensures n == match Hex(s) case Some(v) => v case None => NOT_HEX
  {
    n := 0;
    for i := 0 to |s|
      invariant Hex(s[..i]) == Some(n)
    {
      assert s[..i + 1][..i] == s[..i];
      match HexDigit(s[i])
      case None =>
        HexPrefix(s, i + 1);
        return NOT_HEX;
      case Some(c) =>
        n := 16 * n + c;
    }
    assert s[..|s|] == s;
  }

  lemma HexStep(s: seq<Byte>, k: nat)
    requires k < |s| && Hex(s[..k + 1]).Some?
    ensures Hex(s[..k]).Some? && Hex(s[..k + 1]).value < 16 * (Hex(s[..k]).value + 1)
  {
    assert s[..k + 1][..k] == s[..k];
  }

  /** Four digits cannot say more than a payload holds. */
  lemma FourDigits(s: seq<Byte>)
    requires |s| == 4 && Hex(s).Some?
    ensures Hex(s).value < 0x1_0000 <= MAX_PAYLOAD
  {
    assert s[..4] == s && s[..0] == [];
    HexStep(s, 3);
    HexStep(s, 2);
    HexStep(s, 1);
    HexStep(s, 0);
  }

  const TWO64: nat := 0x1_0000_0000_0000_0000

  predicate IsDigit(c: char) {
    '0' <= c <= '9'
  }

  /** How many digits a string starts with, and the number they make. */
  function Digits(s: string): (n: nat)
    ensures n <= |s| && (forall i :: 0 <= i < n ==> IsDigit(s[i])) && (n < |s| ==> !IsDigit(s[n]))
  {
    if s == "" || !IsDigit(s[0]) then 0 else 1 + Digits(s[1..])
  }

  function Decimal(s: string): nat
    requires forall i :: 0 <= i < |s| ==> IsDigit(s[i])
  {
    if s == "" then 0 else
    assert IsDigit(s[|s| - 1]);
    10 * Decimal(s[..|s| - 1]) + (s[|s| - 1] as int - '0' as int)
  }

  /** ParseUint of a 64-bit number at the start of a string, and what follows it. */
  function ParseUint(s: string): Option<(nat, string)> {
    var n := Digits(s);
    if n == 0 || Decimal(s[..n]) >= TWO64 then None else Some((Decimal(s[..n]), s[n..]))
  }

  // ---- requests

  /** Which transports a host request is about. */
  datatype Selection = BySerial(serial: string) | ById(id: nat) | OnUsb | OnLocal | OnAny

  /** Service is for the host itself, Destination for the device behind the chosen transport. */
  datatype Request =
    | Partial
    | BadLength
    | BadSerial
    | BadTransportId
    | Service(name: string, selection: Selection)
    | Destination(name: string)

  const HOST_SERIAL := "host-serial:"
  const HOST_TRANSPORT_ID := "host-transport-id:"
  const HOST_USB := "host-usb:"
  const HOST_LOCAL := "host-local:"
  const HOST := "host:"

  /** A host request for nothing is passed on to the device as it is. */
  function ServiceOr(rest: string, selection: Selection, whole: string): Request {
    if rest == "" then Destination(whole) else Service(rest, selection)
  }

  function WithSerial(rest: string): Request {
    match HostService.Parse(rest, 0 as char)
    case None => BadSerial
    case Some((serial, command)) => Service(command, BySerial(serial))
  }

  function WithTransportId(rest: string, whole: string): Request {
    match ParseUint(rest)
    case None => BadTransportId
    case Some((id, after)) => if ":" <= after then ServiceOr(after[1..], ById(id), whole) else BadTransportId
  }

  function Classify(s: string): Request {
    if HOST_SERIAL <= s then WithSerial(s[|HOST_SERIAL|..])
    else if HOST_TRANSPORT_ID <= s then WithTransportId(s[|HOST_TRANSPORT_ID|..], s)
    else if HOST_USB <= s then ServiceOr(s[|HOST_USB|..], OnUsb, s)
    else if HOST_LOCAL <= s then ServiceOr(s[|HOST_LOCAL|..], OnLocal, s)
    else if HOST <= s then ServiceOr(s[|HOST|..], OnAny, s)
    else Destination(s)
  }

  function Text(b: seq<Byte>): (s: string)
    ensures |s| == |b| && forall i :: 0 <= i < |b| ==> s[i] == b[i] as char
  {
    seq(|b|, i requires 0 <= i < |b| => b[i] as char)
  }

  /** The length that the first four bytes state, if it is one. */
  function LengthOf(d: seq<Byte>): (r: Option<nat>)
    requires |d| >= 4
    ensures r.Some? ==> 0 < r.value <= MAX_PAYLOAD
  {
    var n := Hex(d[..4]);
    if n.None? || n.value == 0 || n.value > MAX_PAYLOAD then None else n
  }

  /** No length is too large to be stated in four digits. */
  lemma OnlyDigitsCount(d: seq<Byte>)
    requires |d| >= 4
    ensures LengthOf(d).None? <==> Hex(d[..4]) == None || Hex(d[..4]) == Some(0)
  {
    if Hex(d[..4]).Some? {
      FourDigits(d[..4]);
    }
  }

  /** The length is stated, and all the bytes it asks for are there. */
  predicate Whole(d: seq<Byte>) {
    |d| >= 4 && LengthOf(d).Some? && 4 + LengthOf(d).value <= |d|
  }

  /** The bytes once a zero was written behind the request. */
  function Marked(d: seq<Byte>): (r: seq<Byte>)
    requires Whole(d)
    ensures |r| == |d|
  {
    var end := 4 + LengthOf(d).value;
    if end == |d| then d else d[end := 0]
  }

  /** More bytes are needed. */
  predicate Waiting(d: seq<Byte>) {
    |d| < 4 || (LengthOf(d).Some? && !Whole(d))
  }

  function Recognize(d: seq<Byte>): (r: Request)
    ensures r.Partial? <==> Waiting(d)
    ensures r.BadLength? <==> |d| >= 4 && LengthOf(d).None?
  {
    if |d| < 4 then Partial
    else if LengthOf(d).None? then BadLength
    else if !Whole(d) then Partial
    else ClassifyDecides(Text(Marked(d)[4..])); Classify(Text(Marked(d)[4..]))
  }

  lemma ClassifyDecides(a: string)
    ensures !Classify(a).Partial? && !Classify(a).BadLength?
  {
  }

  /** What is left in the socket's buffer. */
  function Kept(d: seq<Byte>): seq<Byte> {
    if Whole(d) then Marked(d) else d
  }

  /** The part of smart_socket_enqueue that reads the request: what it is, and the bytes as they are then. */
  method Read(d: seq<Byte>) returns (r: Request, kept: seq<Byte>)
    ensures r == Recognize(d) && kept == Kept(d)
  {
    kept := d;
    if |d| < 4 {
      return Partial, kept;
    }
    OnlyDigitsCount(d);
    var len := Unhex(d[..4]);
    if len == 0 || len > MAX_PAYLOAD {
      return BadLength, kept;
    }
    if len + 4 > |d| {
      return Partial, kept;
    }
    if len + 4 < |d| {
      kept := kept[len + 4 := 0];
    }
    r := Classify(Text(kept[4..]));
  }

  // ---- malformed transport ids

  /** A number of 64 bits and a colon. */
  ghost predicate StartsWithId(s: string) {
    exists n :: 0 < n < |s| && IsNumber(s[..n]) && s[n] == ':'
  }

  predicate IsNumber(s: string) {
    (forall i :: 0 <= i < |s| ==> IsDigit(s[i])) && Decimal(s) < TWO64
  }

  lemma {:induction false} DigitsAre(s: string, n: nat)
    requires n <= |s| && (forall i :: 0 <= i < n ==> IsDigit(s[i])) && (n < |s| ==> !IsDigit(s[n]))
    ensures Digits(s) == n
  {
    if n > 0 {
      DigitsAre(s[1..], n - 1);
    }
  }

  lemma BadIdIff(rest: string, whole: string)
    ensures WithTransportId(rest, whole).BadTransportId? <==> !StartsWithId(rest)
  {
    var n := Digits(rest);
    if StartsWithId(rest) {
      var k :| 0 < k < |rest| && IsNumber(rest[..k]) && rest[k] == ':';
      assert forall i :: 0 <= i < k ==> IsDigit(rest[i]) by {
        forall i | 0 <= i < k ensures IsDigit(rest[i]) { assert rest[i] == rest[..k][i]; }
      }
      DigitsAre(rest, k);
      assert rest[k..][0] == ':';
    }
    if !WithTransportId(rest, whole).BadTransportId? {
      assert rest[n..][0] == ':';
      assert IsNumber(rest[..n]);
    }
  }

  // ---- bytes behind the request

  /** Something that starts with a zero. */
  predicate Behind(z: string) {
    z != "" && z[0] == 0 as char
  }

  predicate NoZero(s: string) {
    forall i :: 0 <= i < |s| ==> s[i] != 0 as char
  }

  lemma PrefixEndsBefore(prefix: string, a: string, z: string)
    requires Behind(z) && NoZero(prefix)
    ensures prefix <= a + z <==> prefix <= a
  {
    if |prefix| > |a| {
      assert (a + z)[|a|] == z[0] != prefix[|a|];
    }
  }

  lemma PrefixesEndBefore(a: string, z: string)
    requires Behind(z)
    ensures HOST_SERIAL <= a + z <==> HOST_SERIAL <= a
    ensures HOST_TRANSPORT_ID <= a + z <==> HOST_TRANSPORT_ID <= a
    ensures HOST_USB <= a + z <==> HOST_USB <= a
    ensures HOST_LOCAL <= a + z <==> HOST_LOCAL <= a
    ensures HOST <= a + z <==> HOST <= a
  {
    PrefixEndsBefore(HOST_SERIAL, a, z);
    PrefixEndsBefore(HOST_TRANSPORT_ID, a, z);
    PrefixEndsBefore(HOST_USB, a, z);
    PrefixEndsBefore(HOST_LOCAL, a, z);
    PrefixEndsBefore(HOST, a, z);
  }

  lemma DropsBefore(a: string, z: string, n: nat)
    requires n <= |a|
    ensures (a + z)[n..] == a[n..] + z
  {
  }

  /** How an outcome fares when something comes behind the request. */
  ghost predicate Fares(one: Request, two: Request) {
    && (one.BadTransportId? <==> two.BadTransportId?)
    && (one.Service? || one.Destination? ==> one != two)
  }

  lemma SerialAddsUp(rest: string)
    ensures var r := WithSerial(rest);
            r.BadSerial? || (r.Service? && r.selection.BySerial? && |rest| == |r.selection.serial| + 1 + |r.name|)
  {
  }

  lemma SerialFares(rest: string, z: string)
    requires Behind(z)
    ensures Fares(WithSerial(rest), WithSerial(rest + z))
  {
    SerialAddsUp(rest);
    SerialAddsUp(rest + z);
  }

  lemma TransportIdFares(rest: string, z: string, whole: string)
    requires Behind(z)
    ensures Fares(WithTransportId(rest, whole), WithTransportId(rest + z, whole + z))
  {
    var n := Digits(rest);
    DigitsAre(rest + z, n);
    assert (rest + z)[..n] == rest[..n];
    DropsBefore(rest, z, n);
    if n < |rest| {
      DropsBefore(rest[n..], z, 1);
    }
  }

  lemma ClassifyFares(a: string, z: string)
    requires Behind(z)
    ensures Fares(Classify(a), Classify(a + z))
  {
    PrefixesEndBefore(a, z);
    if HOST_SERIAL <= a {
      DropsBefore(a, z, |HOST_SERIAL|);
      SerialFares(a[|HOST_SERIAL|..], z);
    } else if HOST_TRANSPORT_ID <= a {
      DropsBefore(a, z, |HOST_TRANSPORT_ID|);
      TransportIdFares(a[|HOST_TRANSPORT_ID|..], z, a);
    } else {
      OthersFare(a, z);
    }
  }

  lemma OthersFare(a: string, z: string)
    requires Behind(z) && !(HOST_SERIAL <= a) && !(HOST_TRANSPORT_ID <= a)
    ensures Fares(Classify(a), Classify(a + z))
  {
    PrefixesEndBefore(a, z);
    if HOST_USB <= a {
      DropsBefore(a, z, |HOST_USB|);
    } else if HOST_LOCAL <= a {
      DropsBefore(a, z, |HOST_LOCAL|);
    } else if HOST <= a {
      DropsBefore(a, z, |HOST|);
    }
  }

  /** Where the request ends, what it says, and what a part of the bytes has behind it. */
  function End(d: seq<Byte>): nat
    requires |d| >= 4 && LengthOf(d).Some?
  {
    4 + LengthOf(d).value
  }

  function RequestText(d: seq<Byte>): string
    requires Whole(d)
  {
    Text(d[4..End(d)])
  }

  function Overhang(d: seq<Byte>, m: nat): (z: string)
    requires Whole(d) && End(d) <= m <= |d|
    ensures m > End(d) ==> Behind(z)
  {
    if m == End(d) then "" else [0 as char] + Text(d[End(d) + 1..m])
  }

  lemma TextConcat(a: seq<Byte>, b: seq<Byte>)
    ensures Text(a + b) == Text(a) + Text(b)
  {
  }

  lemma MarkedParts(d: seq<Byte>)
    requires Whole(d) && End(d) < |d|
    ensures Marked(d)[4..] == d[4..End(d)] + ([0] + d[End(d) + 1..])
  {
  }

  lemma RecognizeWhole(d: seq<Byte>)
    requires Whole(d)
    ensures Recognize(d) == Classify(RequestText(d) + Overhang(d, |d|))
  {
    if End(d) < |d| {
      MarkedParts(d);
      TextConcat(d[4..End(d)], [0] + d[End(d) + 1..]);
      TextConcat([0], d[End(d) + 1..]);
      assert Text([0]) == [0 as char];
      assert d[End(d) + 1..] == d[End(d) + 1..|d|];
    } else {
      assert d[4..] == d[4..End(d)];
      assert RequestText(d) + "" == RequestText(d);
    }
  }

  lemma PartIsWhole(d: seq<Byte>, m: nat)
    requires Whole(d) && End(d) <= m <= |d|
    ensures Whole(d[..m]) && End(d[..m]) == End(d) && RequestText(d[..m]) == RequestText(d)
    ensures Overhang(d[..m], m) == Overhang(d, m)
  {
    assert d[..m][..4] == d[..4];
    assert d[..m][4..End(d)] == d[4..End(d)];
    assert m > End(d) ==> d[..m][End(d) + 1..m] == d[End(d) + 1..m];
  }

  lemma RecognizePart(d: seq<Byte>, m: nat)
    requires Whole(d) && End(d) <= m <= |d|
    ensures Recognize(d[..m]) == Classify(RequestText(d) + Overhang(d, m))
  {
    PartIsWhole(d, m);
    RecognizeWhole(d[..m]);
  }

  /**
   * The request strays exactly if it asks for a transport id and gives no 64-bit number with a colon; what
   * comes behind the request has no say.
   */
  lemma StraysIff(d: seq<Byte>)
    ensures Recognize(d).BadTransportId? <==>
              && Whole(d) && HOST_TRANSPORT_ID <= RequestText(d)
              && !StartsWithId(RequestText(d)[|HOST_TRANSPORT_ID|..])
  {
    if Whole(d) {
      RecognizeWhole(d);
      ClassifyStrays(RequestText(d));
      if End(d) < |d| {
        ClassifyFares(RequestText(d), Overhang(d, |d|));
      } else {
        assert RequestText(d) + "" == RequestText(d);
      }
    }
  }

  lemma ClassifyStrays(a: string)
    ensures Classify(a).BadTransportId? <==>
              HOST_TRANSPORT_ID <= a && !StartsWithId(a[|HOST_TRANSPORT_ID|..])
  {
    if HOST_TRANSPORT_ID <= a {
      assert a[5] == HOST_TRANSPORT_ID[5] == 't';
      HostService.DifferentStart(HOST_SERIAL, a, 5);
      BadIdIff(a[|HOST_TRANSPORT_ID|..], a);
    }
  }

  lemma KeptGrows(d: seq<Byte>, x: seq<Byte>)
    requires Whole(d)
    ensures Whole(Kept(d) + x) && RequestText(Kept(d) + x) == RequestText(d)
  {
    var d' := Kept(d) + x;
    assert d'[..4] == d[..4];
    assert d'[4..End(d)] == d[4..End(d)];
  }

  /** Once a request has strayed, it strays again whatever else arrives. */
  lemma StrayStays(d: seq<Byte>, x: seq<Byte>)
    requires Recognize(d).BadTransportId?
    ensures Recognize(Kept(d) + x).BadTransportId?
  {
    StraysIff(d);
    KeptGrows(d, x);
    StraysIff(Kept(d) + x);
  }

  function BytesOf(s: string): (b: seq<Byte>)
    requires forall i :: 0 <= i < |s| ==> s[i] as int < 256
    ensures |b| == |s| && Text(b) == s
  {
    seq(|s|, i requires 0 <= i < |s| => s[i] as int)
  }

  const STRAY := "0013host-transport-id:x"

  function StrayBytes(): (b: seq<Byte>)
    ensures |b| == |STRAY| && Text(b) == STRAY
  {
    BytesOf(STRAY)
  }

  lemma StrayRequest()
    ensures Recognize(StrayBytes()) == BadTransportId
  {
    var d := StrayBytes();
    assert d[..4] == [48, 48, 49, 51];
    assert Hex([48]) == Some(0) && Hex([48, 48]) == Some(0);
    assert [48, 48, 49][..2] == [48, 48] && Hex([48, 48, 49]) == Some(1);
    assert [48, 48, 49, 51][..3] == [48, 48, 49] && Hex([48, 48, 49, 51]) == Some(19);
    assert RequestText(d) == STRAY[4..] == "host-transport-id:x";
    assert STRAY[4..][|HOST_TRANSPORT_ID|..] == "x";
    StraysIff(d);
  }

  // ---- requests in pieces

  /** What a fresh smart socket makes of blocks that arrive one after the other. */
  function Heard(stored: seq<Byte>, blocks: seq<seq<Byte>>): Request
    decreases |blocks|
  {
    if blocks == [] then Partial else
    var d := stored + blocks[0];
    if Recognize(d).Partial? then Heard(d, blocks[1..]) else Recognize(d)
  }

  /** How many bytes it takes to decide. */
  function Enough(w: seq<Byte>): (n: nat)
    requires !Waiting(w)
    ensures 4 <= n <= |w|
  {
    if LengthOf(w).None? then 4 else End(w)
  }

  lemma WaitingUntilEnough(w: seq<Byte>, m: nat)
    requires m <= |w|
    ensures Waiting(w) ==> Waiting(w[..m])
    ensures !Waiting(w) ==> (Waiting(w[..m]) <==> m < Enough(w))
  {
    if m >= 4 {
      assert w[..m][..4] == w[..4];
    }
  }

  /** A smart socket decides on a part of the bytes that is enough, as long as its last block makes it. */
  lemma {:induction false} HeardOnPart(stored: seq<Byte>, blocks: seq<seq<Byte>>, w: seq<Byte>) returns (m: nat)
    requires Waiting(stored) && w == stored + Flatten(blocks)
    ensures Heard(stored, blocks).Partial? <==> Waiting(w)
    ensures !Waiting(w) ==> Enough(w) <= m <= |w| && Heard(stored, blocks) == Recognize(w[..m])
    decreases |blocks|
  {
    m := 0;
    if blocks == [] {
      assert w == stored;
    } else {
      var d := stored + blocks[0];
      ConcatAssoc(stored, blocks[0], Flatten(blocks[1..]));
      assert w[..|d|] == d;
      WaitingUntilEnough(w, |d|);
      if Waiting(d) {
        m := HeardOnPart(d, blocks[1..], w);
      } else {
        m := |d|;
      }
    }
  }

  /** Every such part can be the one. */
  lemma PartCanBeHeard(w: seq<Byte>, m: nat)
    requires !Waiting(w) && Enough(w) <= m <= |w|
    ensures Flatten([w[..m]] + [w[m..]]) == w && Heard([], [w[..m]] + [w[m..]]) == Recognize(w[..m])
  {
    var blocks := [w[..m]] + [w[m..]];
    FlattenCons(w[..m], [w[m..]]);
    assert Flatten([w[m..]]) == w[m..];
    assert w[..m] + w[m..] == w && [] + blocks[0] == w[..m];
    WaitingUntilEnough(w, m);
  }

  /** Where the blocks of these bytes end makes no difference. */
  ghost predicate CutIsHarmless(w: seq<Byte>)
    requires !Waiting(w)
  {
    var r := Recognize(w[..Enough(w)]);
    || Enough(w) == |w| || r.BadLength? || r.BadTransportId?
    || (r.BadSerial? && forall m :: Enough(w) < m <= |w| ==> NoSerial(w, m))
  }

  /** With the bytes up to m there is still no serial with a command behind it. */
  predicate NoSerial(w: seq<Byte>, m: nat)
    requires !Waiting(w) && Enough(w) <= m <= |w|
  {
    && Whole(w) && HOST_SERIAL <= RequestText(w)
    && HostService.Parse(RequestText(w)[|HOST_SERIAL|..] + Overhang(w, m), 0 as char).None?
  }

  lemma LongerText(a: string, z: string)
    requires Behind(z)
    ensures var (one, two) := (Classify(a), Classify(a + z));
            && Fares(one, two) && (one.BadSerial? ==> HOST_SERIAL <= a)
            && (one.BadSerial? ==> (two == one <==> HostService.Parse(a[|HOST_SERIAL|..] + z, 0 as char).None?))
  {
    ClassifyFares(a, z);
    if Classify(a).BadSerial? {
      PrefixesEndBefore(a, z);
      DropsBefore(a, z, |HOST_SERIAL|);
    }
  }

  lemma ShortestPart(w: seq<Byte>)
    requires Whole(w)
    ensures Recognize(w[..End(w)]) == Classify(RequestText(w))
  {
    RecognizePart(w, End(w));
    assert RequestText(w) + "" == RequestText(w);
  }

  /** What a longer part is taken for. */
  lemma LongerPart(w: seq<Byte>, m: nat)
    requires !Waiting(w) && Enough(w) < m <= |w|
    ensures var (one, two) := (Recognize(w[..Enough(w)]), Recognize(w[..m]));
            && Fares(one, two) && (one.BadLength? ==> two.BadLength?)
            && (one.BadSerial? ==> (two == one <==> NoSerial(w, m)))
  {
    if Whole(w) {
      ShortestPart(w);
      RecognizePart(w, m);
      LongerText(RequestText(w), Overhang(w, m));
      ClassifyDecides(RequestText(w));
    } else {
      assert w[..m][..4] == w[..4] && w[..4][..4] == w[..4];
    }
  }

  ghost predicate NoCutMatters(w: seq<Byte>, r: Request) {
    forall blocks: seq<seq<Byte>> :: Flatten(blocks) == w ==> Heard([], blocks) == r
  }

  /**
   * However the bytes are cut into blocks, the smart socket takes them for what the request alone is, if and
   * only if nothing is behind the request, or it is refused whatever that is.
   */
  lemma CutMattersUnless(w: seq<Byte>)
    requires !Waiting(w)
    ensures NoCutMatters(w, Recognize(w[..Enough(w)])) <==> CutIsHarmless(w)
  {
    var r := Recognize(w[..Enough(w)]);
    if CutIsHarmless(w) {
      forall blocks: seq<seq<Byte>> | Flatten(blocks) == w
        ensures Heard([], blocks) == r
      {
        HarmlessBlocks(w, blocks);
      }
    } else {
      var m := HarmfulPart(w);
      PartCanBeHeard(w, m);
      assert Flatten([w[..m]] + [w[m..]]) == w;
    }
  }

  lemma HarmlessBlocks(w: seq<Byte>, blocks: seq<seq<Byte>>)
    requires !Waiting(w) && CutIsHarmless(w) && Flatten(blocks) == w
    ensures Heard([], blocks) == Recognize(w[..Enough(w)])
  {
    assert [] + Flatten(blocks) == w;
    var m := HeardOnPart([], blocks, w);
    HarmlessPart(w, m);
  }

  lemma HarmlessPart(w: seq<Byte>, m: nat)
    requires !Waiting(w) && CutIsHarmless(w) && Enough(w) <= m <= |w|
    ensures Recognize(w[..m]) == Recognize(w[..Enough(w)])
  {
    if m > Enough(w) {
      LongerPart(w, m);
    }
  }

  lemma HarmfulPart(w: seq<Byte>) returns (m: nat)
    requires !Waiting(w) && !CutIsHarmless(w)
    ensures Enough(w) < m <= |w| && Recognize(w[..m]) != Recognize(w[..Enough(w)])
  {
    m := |w|;
    WaitingUntilEnough(w, Enough(w));
    if Recognize(w[..Enough(w)]).BadSerial? {
      m :| Enough(w) < m <= |w| && !NoSerial(w, m);
    }
    LongerPart(w, m);
  }
}
