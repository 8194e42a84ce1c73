/** Splitting a host service string into the serial of a transport and the command for it. */
module HostService {
  import opened StreamProtocol
  import opened Strings

  type SerialAndCommand = (string, string)

  const PREFIXES: seq<string> := ["usb:", "product:", "model:", "device:", "localfilesystem:"]

  /** The first position at or after `pos` that holds c. */
  function Find(s: string, pos: nat, c: char): (r: Option<nat>)
    requires pos <= |s|
    ensures r.Some? ==> pos <= r.value < |s| && s[r.value] == c && c !in s[pos..r.value]
    ensures r.None? ==> c !in s[pos..]
  {
    var rest := s[pos..];
    var i := FirstOf(rest, [c]);
    assert rest[..i] == s[pos..pos + i];
    if i == |rest| then assert rest[..i] == rest; None else Some(pos + i)
  }

  lemma FindIs(s: string, pos: nat, c: char, at: nat)
    requires pos <= at < |s| && s[at] == c && c !in s[pos..at]
    ensures Find(s, pos, c) == Some(at)
  {
    assert s[pos..][..at - pos] == s[pos..at];
    FirstOfIs(s[pos..], [c], at - pos);
  }

  /**
   * The end of the parse: what is consumed up to `pos` is the serial and a colon, the rest is the command.
   * That the last character consumed is a colon is what the code checks there.
   */
  function Finish(full: string, pos: nat): (r: Option<SerialAndCommand>)
    requires pos <= |full| && (0 < pos < |full| ==> full[pos - 1] == ':')
    ensures r.Some? ==> full == r.value.0 + ":" + r.value.1 && r.value.1 != ""
    ensures r.Some? <==> 0 < pos < |full|
  {
    if pos == 0 || pos == |full| then None else
    assert full == full[..pos - 1] + ":" + full[pos..];
    Some((full[..pos - 1], full[pos..]))
  }

  /** The prefix that a serial starts with, if it is one of the fixed ones. */
  function PrefixOf(s: string, k: nat): (r: Option<string>)
    requires k <= |PREFIXES|
    ensures r.Some? <==> exists i :: k <= i < |PREFIXES| && PREFIXES[i] <= s
    ensures r.Some? ==> r.value in PREFIXES && r.value <= s
    decreases |PREFIXES| - k
  {
    if k == |PREFIXES| then None else if PREFIXES[k] <= s then Some(PREFIXES[k]) else PrefixOf(s, k + 1)
  }

  predicate IsDigits(s: string) {
    forall c :: c in s ==> '0' <= c <= '9'
  }

  /** Past the next colon. */
  function PastColon(full: string, pos: nat): (r: Option<nat>)
    requires pos <= |full|
    ensures r.Some? ==> pos < r.value <= |full| && full[r.value - 1] == ':'
  {
    match Find(full, pos, ':') case None => None case Some(at) => Some(at + 1)
  }

  /** Past the address and its colon; an address in brackets may hold colons. */
  function PastAddress(full: string, pos: nat, beyond: char): (r: Option<nat>)
    requires pos <= |full|
    ensures r.Some? ==> pos < r.value <= |full| && full[r.value - 1] == ':'
  {
    var first := if pos < |full| then full[pos] else beyond;
    if first != '[' then PastColon(full, pos) else
    match Find(full, pos, ']')
    case None => PastColon(full, pos)
    case Some(end) => if end + 1 == |full| || full[end + 1] != ':' then None else Some(end + 2)
  }

  /** Past a port and its colon, if there is one: anything up to a colon that is all digits. */
  function PastPort(full: string, pos: nat): (r: nat)
    requires 0 < pos <= |full| && full[pos - 1] == ':'
    ensures pos <= r <= |full| && full[r - 1] == ':'
  {
    match Find(full, pos, ':')
    case None => pos
    case Some(at) => if IsDigits(full[pos..at]) then at + 1 else pos
  }

  /** Past a protocol and the marker of a vsock address. */
  function PastProtocol(full: string): (pos: nat)
    ensures pos <= |full|
  {
    if "tcp:" <= full || "udp:" <= full then 4 else 0
  }

  function PastVsock(full: string, pos: nat): (r: nat)
    requires pos <= |full|
    ensures pos <= r <= |full|
  {
    if "vsock:" <= full[pos..] then assert |full[pos..]| >= 6; pos + 6 else pos
  }

  /** An address, perhaps with a port, from `start` on. */
  function ParseFrom(full: string, start: nat, beyond: char): (r: Option<SerialAndCommand>)
    requires start <= |full|
    ensures r.Some? ==> full == r.value.0 + ":" + r.value.1 && r.value.1 != ""
  {
    match PastAddress(full, start, beyond)
    case None => None
    case Some(port) => Finish(full, PastPort(full, port))
  }

  /** A serial without one of the fixed prefixes: an address, perhaps with a protocol and a port. */
  function ParseAddress(full: string, beyond: char): (r: Option<SerialAndCommand>)
    ensures r.Some? ==> full == r.value.0 + ":" + r.value.1 && r.value.1 != ""
  {
    var pos := PastProtocol(full);
    if pos == |full| then None else ParseFrom(full, PastVsock(full, pos), beyond)
  }

  /** A serial with a fixed prefix ends at the next colon. */
  function ParsePrefixed(full: string, prefix: string): (r: Option<SerialAndCommand>)
    requires prefix <= full
    ensures r.Some? ==> full == r.value.0 + ":" + r.value.1 && r.value.1 != ""
  {
    match PastColon(full, |prefix|)
    case None => None
    case Some(pos) => Finish(full, pos)
  }

  /**
   * parse_host_service.  `beyond` stands for what the code reads when it looks at the first character of
   * an empty rest.  Whenever it succeeds the two parts and the colon between them are the whole input.
   */
  function Parse(full: string, beyond: char): (r: Option<SerialAndCommand>)
    ensures r.Some? ==> full == r.value.0 + ":" + r.value.1 && r.value.1 != ""
  {
    match PrefixOf(full, 0)
    case Some(prefix) => ParsePrefixed(full, prefix)
    case None => ParseAddress(full, beyond)
  }

  /** What lies beyond the input makes no difference. */
  lemma BeyondIsIrrelevant(full: string, x: char, y: char)
    ensures Parse(full, x) == Parse(full, y)
  {
    var pos := PastVsock(full, PastProtocol(full));
    if pos == |full| {
      assert Find(full, pos, ']') == None;
    }
  }

  /** The parse comes to the test for a bracket with nothing left, and looks at its first character. */
  predicate ReadsBeyond(full: string) {
    && PrefixOf(full, 0).None? && PastProtocol(full) < |full|
    && PastVsock(full, PastProtocol(full)) == |full|
  }

  /** That happens for exactly three inputs: a bare `vsock:`, alone or behind a protocol. */
  lemma ReadsBeyondIff(full: string)
    ensures ReadsBeyond(full) <==> full == "vsock:" || full == "tcp:" + "vsock:" || full == "udp:" + "vsock:"
  {
    if ReadsBeyond(full) {
      OnlyVsockIsLeft(full);
    }
    BareVsock("");
    BareVsock("tcp:");
    BareVsock("udp:");
    assert "" + "vsock:" == "vsock:";
  }

  lemma OnlyVsockIsLeft(full: string)
    requires ReadsBeyond(full)
    ensures full == "vsock:" || full == "tcp:" + "vsock:" || full == "udp:" + "vsock:"
  {
    var pos := PastProtocol(full);
    assert full == full[..pos] + full[pos..] && full[pos..] == "vsock:";
    assert pos == 4 ==> full[..pos] == "tcp:" || full[..pos] == "udp:";
  }

  lemma BareVsock(proto: string)
    requires proto in ["", "tcp:", "udp:"]
    ensures ReadsBeyond(proto + "vsock:")
  {
    var full := proto + "vsock:";
    NoPrefix(full);
    DifferentStart("tcp:", "vsock:", 0);
    DifferentStart("udp:", "vsock:", 0);
    assert "" + "vsock:" == "vsock:";
    assert PastProtocol(full) == |proto|;
    assert full[|proto|..] == "vsock:";
  }

  // ---- the forms

  /** A host name that is not taken for something else. */
  predicate Plain(host: string) {
    && ':' !in host && (host != "" ==> host[0] != '[')
    && host !in ["usb", "product", "model", "device", "localfilesystem", "tcp", "udp", "vsock"]
  }

  lemma StartsWith(word: string, host: string, rest: string)
    requires ':' !in word && ':' !in host
    ensures word + ":" <= host + ":" + rest <==> word == host
  {
    var s := host + ":" + rest;
    if word + ":" <= s {
      assert s[|word|] == (word + ":")[|word|] == ':';
      assert forall i :: 0 <= i < |word| ==> s[i] == (word + ":")[i] == word[i];
      assert s[|host|] == ':';
      assert word == s[..|word|] && host == s[..|host|];
    }
  }

  lemma PlainHasNoPrefix(host: string, rest: string)
    requires Plain(host)
    ensures var full := host + ":" + rest;
            PrefixOf(full, 0) == None && PastVsock(full, PastProtocol(full)) == 0 && PastProtocol(full) == 0
  {
    var full := host + ":" + rest;
    StartsWith("usb", host, rest);
    StartsWith("product", host, rest);
    StartsWith("model", host, rest);
    StartsWith("device", host, rest);
    StartsWith("localfilesystem", host, rest);
    StartsWith("tcp", host, rest);
    StartsWith("udp", host, rest);
    StartsWith("vsock", host, rest);
    assert full[0..] == full;
    assert "usb" + ":" == "usb:" && "product" + ":" == "product:" && "model" + ":" == "model:";
    assert "device" + ":" == "device:";
    assert "localfilesystem" + ":" == "localfilesystem:" && "tcp" + ":" == "tcp:" && "udp" + ":" == "udp:";
    assert "vsock" + ":" == "vsock:";
  }

  lemma ColonAfter(a: string, b: string)
    requires ':' !in a
    ensures Find(a + ":" + b, 0, ':') == Some(|a|)
  {
    var s := a + ":" + b;
    assert s[0..|a|] == a;
    FindIs(s, 0, ':', |a|);
  }

  /** After a plain host only the port is in question. */
  lemma PlainParse(host: string, rest: string, beyond: char)
    requires Plain(host)
    ensures var full := host + ":" + rest;
            full[|host|] == ':' && Parse(full, beyond) == Finish(full, PastPort(full, |host| + 1))
  {
    PlainHasNoPrefix(host, rest);
    ColonAfter(host, rest);
  }

  /** The length of a port and its colon, if there is one. */
  function PortLength(rest: string): (n: nat)
    ensures n <= |rest| && (n > 0 ==> IsDigits(rest[..n - 1]) && rest[n - 1] == ':')
  {
    match Find(rest, 0, ':')
    case Some(at) => if IsDigits(rest[..at]) then at + 1 else 0
    case None => 0
  }

  /** What is behind the colon of an address: a port and a command, or all of it is the command. */
  function Ending(serial: string, rest: string): (r: Option<SerialAndCommand>) {
    var n := PortLength(rest);
    if n == |rest| then None else Some((if n == 0 then serial else serial + ":" + rest[..n - 1], rest[n..]))
  }

  lemma FindBehind(serial: string, rest: string, full: string)
    requires full == serial + ":" + rest
    ensures var (r, at) := (Find(rest, 0, ':'), |serial| + 1);
            Find(full, at, ':') == if r.None? then None else Some(at + r.value)
  {
    var at := |serial| + 1;
    assert full[at..] == rest == rest[0..];
  }

  /** Where a colon behind the serial cuts the input. */
  lemma CutsAt(serial: string, rest: string, full: string, c: nat)
    requires full == serial + ":" + rest && c < |rest|
    ensures var at := |serial| + 1;
            && full[at..at + c] == rest[..c] && full[..at + c] == serial + ":" + rest[..c]
            && full[at + c + 1..] == rest[c + 1..]
  {
  }

  lemma CutsBefore(serial: string, rest: string, full: string)
    requires full == serial + ":" + rest
    ensures full[|serial| + 1..] == rest && full[..|serial|] == serial
  {
  }

  lemma PortIs(serial: string, rest: string, full: string)
    requires full == serial + ":" + rest
    ensures PastPort(full, |serial| + 1) == |serial| + 1 + PortLength(rest)
  {
    var r := Find(rest, 0, ':');
    FindBehind(serial, rest, full);
    if r.Some? {
      CutsAt(serial, rest, full, r.value);
    }
  }

  lemma FinishIsEnding(serial: string, rest: string, full: string)
    requires full == serial + ":" + rest
    ensures Finish(full, PastPort(full, |serial| + 1)) == Ending(serial, rest)
  {
    PortIs(serial, rest, full);
    if PortLength(rest) == 0 {
      CutsBefore(serial, rest, full);
    } else {
      CutsAt(serial, rest, full, PortLength(rest) - 1);
    }
  }

  /** The part before the first colon, if there is one, is not all digits. */
  predicate StartsWithoutPort(command: string) {
    match Find(command, 0, ':') case None => true case Some(at) => !IsDigits(command[..at])
  }

  /** Digits up to a colon are a port and belong to the serial; anything else is the command. */
  lemma Endings(serial: string, port: string, command: string)
    requires command != ""
    ensures IsDigits(port) ==> Ending(serial, port + ":" + command) == Some((serial + ":" + port, command))
    ensures StartsWithoutPort(command) ==> Ending(serial, command) == Some((serial, command))
  {
    if IsDigits(port) {
      var rest := port + ":" + command;
      assert rest[0..|port|] == port == rest[..|port|] && rest[|port| + 1..] == command;
      FindIs(rest, 0, ':', |port|);
    }
  }

  /** A plain host, a port and a command are found again. */
  lemma HostAndPort(host: string, port: string, command: string, beyond: char)
    requires Plain(host) && IsDigits(port) && command != ""
    ensures Parse(host + ":" + (port + ":" + command), beyond) == Some((host + ":" + port, command))
  {
    PlainParse(host, port + ":" + command, beyond);
    FinishIsEnding(host, port + ":" + command, host + ":" + (port + ":" + command));
    Endings(host, port, command);
  }

  /** Without a port everything after the host's colon is the command. */
  lemma HostAlone(host: string, command: string, beyond: char)
    requires Plain(host) && command != "" && StartsWithoutPort(command)
    ensures Parse(host + ":" + command, beyond) == Some((host, command))
  {
    PlainParse(host, command, beyond);
    FinishIsEnding(host, command, host + ":" + command);
    Endings(host, "", command);
  }

  lemma PrefixParse(full: string, prefix: string, pos: nat, beyond: char)
    requires PrefixOf(full, 0) == Some(prefix) && PastColon(full, |prefix|) == Some(pos)
    ensures Parse(full, beyond) == Finish(full, pos)
  {
  }

  /** With one of the fixed prefixes the serial ends at the second colon, digits or not. */
  lemma PrefixedSerial(prefix: string, name: string, command: string, full: string, beyond: char)
    requires prefix in PREFIXES && ':' !in name && command != "" && full == prefix + name + ":" + command
    ensures Parse(full, beyond) == Some((prefix + name, command))
  {
    assert prefix <= full;
    WhichPrefix(prefix, full);
    FinishAfterName(prefix, name, command, full);
    PrefixParse(full, prefix, |prefix| + |name| + 1, beyond);
  }

  lemma FinishAfterName(prefix: string, name: string, command: string, full: string)
    requires full == prefix + name + ":" + command && ':' !in name && command != ""
    ensures var at := |prefix| + |name|;
            PastColon(full, |prefix|) == Some(at + 1) && Finish(full, at + 1) == Some((prefix + name, command))
  {
    var at := |prefix| + |name|;
    assert full[|prefix|..at] == name && full[at] == ':';
    FindIs(full, |prefix|, ':', at);
    assert full[..at] == prefix + name && full[at + 1..] == command;
  }

  lemma WhichPrefix(prefix: string, full: string)
    requires prefix in PREFIXES && prefix <= full
    ensures PrefixOf(full, 0) == Some(prefix)
  {
    var i :| 0 <= i < |PREFIXES| && PREFIXES[i] == prefix;
    SamePrefix(PrefixOf(full, 0).value, prefix, full);
  }

  lemma SamePrefix(p: string, q: string, full: string)
    requires p in PREFIXES && q in PREFIXES && p <= full && q <= full
    ensures p == q
  {
    assert full[0] == p[0] == q[0];
    assert PREFIXES[0][0] == 'u' && PREFIXES[1][0] == 'p' && PREFIXES[2][0] == 'm' && PREFIXES[3][0] == 'd';
    assert PREFIXES[4][0] == 'l';
  }

  // ---- addresses

  /** A host name or number without colons, or anything in brackets. */
  predicate IsAddress(addr: string) {
    || (':' !in addr && (addr != "" ==> addr[0] != '['))
    || (|addr| >= 2 && addr[0] == '[' && addr[|addr| - 1] == ']' && ']' !in addr[..|addr| - 1])
  }

  lemma PastAnAddress(full: string, start: nat, addr: string, rest: string, beyond: char)
    requires start <= |full| && full[start..] == addr + ":" + rest && IsAddress(addr)
    ensures PastAddress(full, start, beyond) == Some(start + |addr| + 1)
  {
    var end := start + |addr|;
    assert full[start..][..|addr|] == addr && full[start..][|addr|] == ':';
    assert full[start..end] == addr && full[end] == ':';
    if ':' !in addr && (addr != "" ==> addr[0] != '[') {
      assert full[start] == full[start..][0];
      FindIs(full, start, ':', end);
    } else {
      assert full[start] == addr[0] && full[end - 1] == full[start..end][|addr| - 1] == ']';
      assert full[start..end - 1] == addr[..|addr| - 1];
      FindIs(full, start, ']', end - 1);
    }
  }

  lemma ParseStarts(full: string, start: nat, beyond: char)
    requires PrefixOf(full, 0) == None && PastVsock(full, PastProtocol(full)) == start < |full|
    ensures Parse(full, beyond) == ParseFrom(full, start, beyond)
  {
  }

  lemma FromPort(full: string, start: nat, port: nat, beyond: char)
    requires start <= |full| && PastAddress(full, start, beyond) == Some(port)
    ensures ParseFrom(full, start, beyond) == Finish(full, PastPort(full, port))
  {
  }

  lemma AddressEnds(full: string, before: string, addr: string, serial: string, rest: string, beyond: char)
    requires full == before + (addr + ":" + rest) && IsAddress(addr) && serial == before + addr
    ensures PastAddress(full, |before|, beyond) == Some(|serial| + 1) && full == serial + ":" + rest
  {
    assert full[|before|..] == addr + ":" + rest;
    PastAnAddress(full, |before|, addr, rest, beyond);
  }

  /** Whatever comes before the address, the address belongs to the serial, and so does a port behind it. */
  lemma AddressParses(full: string, before: string, addr: string, serial: string, rest: string, beyond: char)
    requires full == before + (addr + ":" + rest) && IsAddress(addr) && serial == before + addr
    requires PrefixOf(full, 0) == None && PastVsock(full, PastProtocol(full)) == |before|
    ensures Parse(full, beyond) == Ending(serial, rest)
  {
    AddressEnds(full, before, addr, serial, rest, beyond);
    FromAddress(full, |before|, serial, rest, beyond);
    ParseStarts(full, |before|, beyond);
  }

  lemma FromAddress(full: string, start: nat, serial: string, rest: string, beyond: char)
    requires start <= |full| && PastAddress(full, start, beyond) == Some(|serial| + 1) && full == serial + ":" + rest
    ensures ParseFrom(full, start, beyond) == Ending(serial, rest)
  {
    FinishIsEnding(serial, rest, full);
    FromPort(full, start, |serial| + 1, beyond);
  }

  /** A protocol in front stays with the serial. */
  lemma TcpOrUdp(proto: string, addr: string, rest: string, full: string, beyond: char)
    requires proto in ["tcp:", "udp:"] && addr != "vsock" && IsAddress(addr)
    requires full == proto + (addr + ":" + rest)
    ensures Parse(full, beyond) == Ending(proto + addr, rest)
  {
    assert full[0] == proto[0] && full[1] == proto[1];
    NoPrefix(full);
    assert full[4..] == addr + ":" + rest;
    VsockOnlyIfNamed(addr, rest);
    AddressParses(full, proto, addr, proto + addr, rest, beyond);
  }

  lemma DifferentStart(prefix: string, full: string, k: nat)
    requires k < |prefix| && k < |full| && prefix[k] != full[k]
    ensures !(prefix <= full)
  {
  }

  /** The two first characters tell that no fixed prefix is there. */
  lemma NoPrefix(full: string)
    requires |full| >= 2 && full[0] !in "pmdl" && !(full[0] == 'u' && full[1] == 's')
    ensures PrefixOf(full, 0) == None
  {
    DifferentStart("usb:", full, if full[0] == 'u' then 1 else 0);
    DifferentStart("product:", full, 0);
    DifferentStart("model:", full, 0);
    DifferentStart("device:", full, 0);
    DifferentStart("localfilesystem:", full, 0);
  }

  lemma VsockOnlyIfNamed(addr: string, rest: string)
    requires IsAddress(addr) && addr != "vsock"
    ensures !("vsock:" <= addr + ":" + rest)
  {
    if ':' !in addr {
      StartsWith("vsock", addr, rest);
      assert "vsock" + ":" == "vsock:";
    } else {
      assert (addr + ":" + rest)[0] == '[';
    }
  }

  /** A vsock serial has a colon more than others. */
  lemma Vsock(cid: string, rest: string, full: string, beyond: char)
    requires IsAddress(cid) && full == "vsock:" + (cid + ":" + rest)
    ensures Parse(full, beyond) == Ending("vsock:" + cid, rest)
  {
    NoPrefix(full);
    assert full[0..] == full && "vsock:" <= full;
    AddressParses(full, "vsock:", cid, "vsock:" + cid, rest, beyond);
  }

  /** An address in brackets may hold colons. */
  lemma Bracketed(inner: string, rest: string, full: string, beyond: char)
    requires ']' !in inner && full == "[" + inner + "]" + ":" + rest
    ensures Parse(full, beyond) == Ending("[" + inner + "]", rest)
  {
    var addr := "[" + inner + "]";
    assert addr[..|addr| - 1] == "[" + inner;
    NoPrefix(full);
    assert full[0..] == full && full == "" + (addr + ":" + rest);
    assert addr == "" + addr;
    AddressParses(full, "", addr, addr, rest, beyond);
  }
}
