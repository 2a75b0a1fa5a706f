/** DeviceAddress.cpp: setDeviceAddress, which tells the notifier where the
    Google Home device is.

    A dotted address cached in the flash file /ip.txt is tried first: the
    device at that address is asked for /setup/eureka_info on port 8008, and
    if the first line of the answer mentions "200" the cached address is
    parsed and configured. Otherwise the device is looked up by name, the
    address found is written to /ip.txt and the board restarts.

    The flash file, the network, millis() and the notifier are inputs (an
    `Environment`); what the function does to them is an output (a
    `Resolution`). */
module DeviceAddress {
  import opened CStrings
  import SplitArray

  newtype uint8 = x: int | 0 <= x < 0x100
  newtype uint32 = x: int | 0 <= x < 0x1_0000_0000

  const FileName: string := "/ip.txt"
  const InfoPort: int := 8008
  const TimeoutMs: int := 5000
  const Language: string := "ja"
  /** Size of the ipAddr buffer; one byte less is read from the file. */
  const BufferSize: nat := 16
  /** A cached text must be longer than this to be tried. */
  const MinLength: nat := 8

  datatype IPAddress = IPAddress(a: uint8, b: uint8, c: uint8, d: uint8)

  /** One pass of the busy-wait: whether available() reported data, and what
      millis() read. */
  datatype Poll = Poll(available: bool, now: uint32)

  /** The network as the probe sees it: whether connect() succeeds, millis()
      when the request has been sent, the passes of the busy-wait, and the
      lines readStringUntil('\n') returns while data is available. */
  datatype Network = Network(connects: bool, start: uint32, polls: seq<Poll>, lines: seq<string>)

  /** stored: the content of /ip.txt, None when it cannot be opened.
      found: the notifier's address once device() has run.
      foundText: what getIPAddress().toString() returns for it; the text
      comes from the notifier and is taken as given.
      notifierOk: what ip() or device() returns. */
  datatype Environment = Environment(stored: Option<string>, network: Network, found: IPAddress, foundText: string, notifierOk: bool)

  /** A probe of the cached address: the host and port connect() was given,
      the request printed (None when connect() failed), and whether the wait
      for an answer timed out and stopped the client. */
  datatype Exchange = Exchange(host: string, port: int, request: Option<string>, timedOut: bool)

  datatype NotifierCall = SetIp(addr: IPAddress, language: string) | Discover(name: string, language: string)

  datatype FileWrite = FileWrite(path: string, content: string)

  datatype Ending = Returned(result: bool) | Restarted

  datatype Resolution = Resolution(exchange: Option<Exchange>, call: NotifierCall, write: Option<FileWrite>, ending: Ending)

  function Min(x: int, y: int): int {
    if x <= y then x else y
  }

  /** The first n characters of s, or all of s when it is shorter. */
  function Truncate(s: string, n: nat): (r: string)
    ensures r <= s && |r| == Min(|s|, n)
  {
    if |s| <= n then s else s[..n]
  }

  // ---------------------------------------------------------------------------
  // Loading the cached address (lines 57-63)

  /** The ipAddr buffer after memset and fp.read(ipAddr, 15): the first bytes
      of the file, at most 15 of them, then zeros. */
  function LoadedBuffer(stored: Option<string>): (r: seq<char>)
    ensures |r| == BufferSize
    ensures forall k :: 0 <= k < BufferSize ==>
      r[k] == if stored.Some? && k < |stored.value| && k < BufferSize - 1 then stored.value[k] else NUL
  {
    var content := if stored.Some? then Truncate(stored.value, BufferSize - 1) else [];
    content + seq(BufferSize - |content|, _ => NUL)
  }

  /** The cached address as a C string: what (char*)ipAddr reads. */
  ghost function Loaded(stored: Option<string>): (r: string)
  {
    CStr(LoadedBuffer(stored))
  }

  /** The loaded address is the file's text up to its first NUL, cut to 15
      characters; an absent file gives the empty string. */
  lemma LoadedText(stored: Option<string>)
    ensures stored.None? ==> Loaded(stored) == []
    ensures stored.Some? ==> Loaded(stored) == Truncate(CStr(stored.value), BufferSize - 1)
    ensures |Loaded(stored)| < BufferSize && IsCString(Loaded(stored))
  {
    var buf := LoadedBuffer(stored);
    assert buf[0..] == buf;
    if stored.None? {
      assert buf[0] == NUL;
      CStrAt(buf, 0, 0);
    } else {
      var s := stored.value;
      var c := CStr(s);
      var w := Min(|c|, BufferSize - 1);
      assert buf[..w] == c[..w] by {
        assert forall k :: 0 <= k < w ==> buf[k] == s[k] == c[k];
      }
      assert buf[w] == NUL;
      CStrAt(buf, 0, w);
    }
  }

  /** A C string of at most 15 characters, once written, loads back unchanged. */
  lemma LoadWritten(t: string)
    requires IsCString(t) && |t| < BufferSize
    ensures Loaded(Some(t)) == t
  {
    LoadedText(Some(t));
    CStrWhole(t);
  }

  /** memset(ipAddr, 0, 16) and, when the file opens, fp.read(ipAddr, 15). */
  method ReadStored(stored: Option<string>, ipAddr: array<char>)
    requires ipAddr.Length == BufferSize
    modifies ipAddr
    ensures ipAddr[..] == LoadedBuffer(stored)
  {
    for k := 0 to ipAddr.Length
      invariant forall j :: 0 <= j < k ==> ipAddr[j] == NUL
    {
      ipAddr[k] := NUL;
    }
    if stored.Some? {
      var content := stored.value;
      var n := Min(|content|, BufferSize - 1);
      for k := 0 to n
        invariant forall j :: 0 <= j < k ==> ipAddr[j] == content[j]
        invariant forall j :: k <= j < BufferSize ==> ipAddr[j] == NUL
      {
        ipAddr[k] := content[k];
      }
    }
    assert forall k :: 0 <= k < BufferSize ==> ipAddr[..][k] == LoadedBuffer(stored)[k];
  }

  /** The plausibility gate of line 66. */
  predicate Plausible(addr: string) {
    |addr| > MinLength
  }

  // ---------------------------------------------------------------------------
  // Probing the cached address (lines 67-98)

  /** The request of lines 73-75: a request line for /setup/eureka_info, a Host
      header naming the address, and Connection: close. */
  function Request(host: string): string {
    "GET /setup/eureka_info HTTP/1.1\r\n" + "Host: " + host + "\r\n" + "Connection: close\r\n\r\n"
  }

  /** The request is an HTTP/1.1 request line for the path, then the header
      block ending in an empty line, with the host readable at a fixed offset. */
  lemma RequestShape(host: string)
    ensures Request(host)[..33] == "GET /setup/eureka_info HTTP/1.1\r\n"
    ensures Request(host)[33..39] == "Host: "
    ensures Request(host)[39..39 + |host|] == host
    ensures Request(host)[39 + |host|..] == "\r\n" + "Connection: close\r\n\r\n"
  {
    Parts("GET /setup/eureka_info HTTP/1.1\r\n", "Host: ", host, "\r\n", "Connection: close\r\n\r\n");
  }

  /** The parts of a + b + x + c + d, read back by position. */
  lemma Parts<T>(a: seq<T>, b: seq<T>, x: seq<T>, c: seq<T>, d: seq<T>)
    ensures (a + b + x + c + d)[..|a|] == a
    ensures (a + b + x + c + d)[|a|..|a| + |b|] == b
    ensures (a + b + x + c + d)[|a| + |b|..|a| + |b| + |x|] == x
    ensures (a + b + x + c + d)[|a| + |b| + |x|..] == c + d
  {
  }

  /** Different hosts give different requests. */
  lemma RequestInjective(h1: string, h2: string)
    requires Request(h1) == Request(h2)
    ensures h1 == h2
  {
    RequestShape(h1);
    RequestShape(h2);
    assert |h1| == |h2|;
  }

  /** millis() - timeout on unsigned long: the difference modulo 2^32. */
  function Elapsed(start: uint32, now: uint32): (r: int)
    ensures 0 <= r < 0x1_0000_0000
    ensures (start as int + r) % 0x1_0000_0000 == now as int
  {
    (now as int - start as int) % 0x1_0000_0000
  }

  /** The 32-bit subtraction measures the time since `start` correctly even
      when millis() has wrapped around in between. */
  lemma ElapsedAcrossWrap(start: uint32, d: nat)
    requires d < 0x1_0000_0000
    ensures Elapsed(start, ((start as int + d) % 0x1_0000_0000) as uint32) == d
  {
    var now := (start as int + d) % 0x1_0000_0000;
    if start as int + d < 0x1_0000_0000 {
      assert now == start as int + d;
    } else {
      assert now == start as int + d - 0x1_0000_0000;
    }
  }

  /** A pass that ends the busy-wait: data is available, or more than 5000 ms
      have passed. */
  predicate Ends(start: uint32, p: Poll) {
    p.available || Elapsed(start, p.now) > TimeoutMs
  }

  /** The environment eventually ends the busy-wait. */
  predicate WaitEnds(start: uint32, polls: seq<Poll>) {
    exists k :: 0 <= k < |polls| && Ends(start, polls[k])
  }

  /** Whether the busy-wait of lines 79-85 gives up: it reaches a pass with no
      data after more than 5000 ms before any pass with data. */
  function TimesOut(start: uint32, polls: seq<Poll>): bool {
    if polls == [] then false
    else if polls[0].available then false
    else if Elapsed(start, polls[0].now) > TimeoutMs then true
    else TimesOut(start, polls[1..])
  }

  /** A pass with no data after more than 5000 ms, with no pass before it
      that ends the wait. */
  predicate TimeoutAt(start: uint32, polls: seq<Poll>, k: int) {
    0 <= k < |polls| && !polls[k].available && Elapsed(start, polls[k].now) > TimeoutMs &&
    forall j :: 0 <= j < k ==> !Ends(start, polls[j])
  }

  /** The wait times out exactly when the first pass that ends it saw no data. */
  lemma TimesOutExactly(start: uint32, polls: seq<Poll>)
    ensures TimesOut(start, polls) <==> exists k :: TimeoutAt(start, polls, k)
  {
    if TimesOut(start, polls) {
      TimedOutSomewhere(start, polls);
    } else if k :| TimeoutAt(start, polls, k) {
      TimeoutAtTimesOut(start, polls, k);
    }
  }

  lemma {:induction false} TimedOutSomewhere(start: uint32, polls: seq<Poll>)
    requires TimesOut(start, polls)
    ensures exists k :: TimeoutAt(start, polls, k)
  {
    if !Ends(start, polls[0]) {
      var t := polls[1..];
      TimedOutSomewhere(start, t);
      var k :| TimeoutAt(start, t, k);
      assert forall j :: 1 <= j < k + 1 ==> polls[j] == t[j - 1];
      assert TimeoutAt(start, polls, k + 1);
    } else {
      assert TimeoutAt(start, polls, 0);
    }
  }

  lemma {:induction false} TimeoutAtTimesOut(start: uint32, polls: seq<Poll>, k: nat)
    requires TimeoutAt(start, polls, k)
    ensures TimesOut(start, polls)
  {
    if k > 0 {
      var t := polls[1..];
      assert !Ends(start, polls[0]);
      assert forall j :: 0 <= j < k - 1 ==> t[j] == polls[j + 1];
      TimeoutAtTimesOut(start, t, k - 1);
    }
  }

  /** The busy-wait of lines 78-85: returns whether it timed out. */
  method Await(start: uint32, polls: seq<Poll>) returns (timedOut: bool)
    requires WaitEnds(start, polls)
    ensures timedOut == TimesOut(start, polls)
  {
    ghost var e :| 0 <= e < |polls| && Ends(start, polls[e]);
    var k := 0;
    while !polls[k].available
      invariant k <= e
      invariant forall j :: 0 <= j < k ==> !Ends(start, polls[j])
      invariant TimesOut(start, polls) == TimesOut(start, polls[k..])
      decreases e - k
    {
      if Elapsed(start, polls[k].now) > TimeoutMs {
        // wifiClient.stop()
        return true;
      }
      assert polls[k..][1..] == polls[k + 1..];
      k := k + 1;
    }
    timedOut := false;
  }

  /** line.indexOf("200") != -1: the text of the line up to any NUL contains "200". */
  ghost predicate Contains200(line: string) {
    IndexOf(CStr(line), "200", 0) != -1
  }

  /** "200" is found exactly when it occurs somewhere in the line's text. */
  lemma Contains200Occurs(line: string)
    ensures Contains200(line) <==> exists k :: OccursAt(CStr(line), "200", k)
  {
    var r := IndexOf(CStr(line), "200", 0);
    if r != -1 {
      assert OccursAt(CStr(line), "200", r);
    }
  }

  /** The answer passes when its first line contains "200". */
  ghost predicate FirstLineOk(lines: seq<string>) {
    |lines| > 0 && Contains200(lines[0])
  }

  /** Whatever follows the first line has no bearing on the check. */
  lemma LaterLinesIgnored(first: string, rest1: seq<string>, rest2: seq<string>)
    ensures FirstLineOk([first] + rest1) == FirstLineOk([first] + rest2) == Contains200(first)
  {
    assert ([first] + rest1)[0] == first && ([first] + rest2)[0] == first;
  }

  /** line.indexOf("200") != -1 on an Arduino String, whose search stops at a NUL. */
  method Has200(line: string) returns (b: bool)
    ensures b == Contains200(line)
  {
    var buf := line + [NUL];
    assert buf == line + [NUL] + [];
    CStrPadded(line, []);
    assert buf[0..] == buf;
    var n := StrLen(buf, 0);
    b := IndexOf(buf[..n], "200", 0) != -1;
  }

  /** The read loop of lines 86-97: `success` is set from the first line only. */
  method CheckResponse(lines: seq<string>) returns (success: bool)
    ensures success == FirstLineOk(lines)
  {
    success := false;
    var first := true;
    var i := 0;
    while i < |lines|
      invariant 0 <= i <= |lines|
      invariant first <==> i == 0
      invariant success == (i > 0 && Contains200(lines[0]))
    {
      var line := lines[i];
      if first {
        var found := Has200(line);
        if found {
          success := true;
        }
        first := false;
      }
      i := i + 1;
    }
  }

  /** Whether the cached address answered: it passed the gate, connect() to
      port 8008 succeeded, the wait did not time out, and the first line
      contains "200". */
  ghost predicate Verified(addr: string, net: Network) {
    Plausible(addr) && net.connects && !TimesOut(net.start, net.polls) && FirstLineOk(net.lines)
  }

  /** What the probe of a plausible address does on the network. */
  function ExchangeOf(host: string, net: Network): Exchange {
    if !net.connects then Exchange(host, InfoPort, None, false)
    else Exchange(host, InfoPort, Some(Request(host)), TimesOut(net.start, net.polls))
  }

  /** Lines 67-98: connect, send the request, wait for data, read the lines. */
  method Probe(host: string, net: Network) returns (ex: Exchange, success: bool)
    requires net.connects ==> WaitEnds(net.start, net.polls)
    ensures ex == ExchangeOf(host, net)
    ensures success <==> net.connects && !TimesOut(net.start, net.polls) && FirstLineOk(net.lines)
  {
    if !net.connects {
      return Exchange(host, InfoPort, None, false), false;
    }
    var req := "GET /setup/eureka_info HTTP/1.1\r\n" + "Host: " + host + "\r\n" + "Connection: close\r\n\r\n";
    var timedOut := Await(net.start, net.polls);
    // a stopped client has nothing available
    var lines := if timedOut then [] else net.lines;
    success := CheckResponse(lines);
    ex := Exchange(host, InfoPort, Some(req), timedOut);
  }

  // ---------------------------------------------------------------------------
  // Using the cached address (lines 101-112)

  /** ip[k] = atoi(ar[k]): the value stored into a uint8_t, modulo 256. */
  function Octet(field: string): uint8 {
    (Atoi(field) % 0x100) as uint8
  }

  /** The first four slots of the split exist and are not NULL, so that
      atoi(ar[0]) to atoi(ar[3]) are defined. */
  predicate FourFields(slots: SplitArray.Slots) {
    |slots| > 3 && slots[0].Some? && slots[1].Some? && slots[2].Some? && slots[3].Some?
  }

  /** The address configured from the first four fields. */
  function Octets(slots: SplitArray.Slots): IPAddress
    requires FourFields(slots)
  {
    IPAddress(Octet(slots[0].value), Octet(slots[1].value), Octet(slots[2].value), Octet(slots[3].value))
  }

  /** IPAddress::toString(): the four octets in decimal, joined by dots. */
  function Text(ip: IPAddress): (r: string)
    ensures 7 <= |r| < BufferSize
  {
    Decimal(ip.a as nat) + "." + Decimal(ip.b as nat) + "." + Decimal(ip.c as nat) + "." + Decimal(ip.d as nat)
  }

  /** The fields of an address text. */
  function Fields(ip: IPAddress): seq<string> {
    [Decimal(ip.a as nat), Decimal(ip.b as nat), Decimal(ip.c as nat), Decimal(ip.d as nat)]
  }

  /** An address text is between 7 and 15 characters long, has no NUL, and is
      its four decimal fields joined by dots. */
  lemma TextShape(ip: IPAddress)
    ensures 7 <= |Text(ip)| < BufferSize && IsCString(Text(ip))
    ensures SplitArray.Join(Fields(ip), '.') == Text(ip)
    ensures forall k :: 0 <= k < 4 ==> '.' !in Fields(ip)[k] && Fields(ip)[k] != []
  {
    var fs := Fields(ip);
    forall k | 0 <= k < 4 ensures '.' !in fs[k] && NUL !in fs[k] {
      NoDot(fs[k]);
    }
    JoinFour(fs[0], fs[1], fs[2], fs[3]);
    assert NUL !in ".";
  }

  /** Four pieces joined by dots. */
  lemma JoinFour(w: string, x: string, y: string, z: string)
    ensures SplitArray.Join([w, x, y, z], '.') == w + "." + x + "." + y + "." + z
  {
    var fs := [w, x, y, z];
    assert fs[1..] == [x, y, z] && fs[2..] == [y, z] && fs[3..] == [z];
    assert SplitArray.Join([z], '.') == z;
    assert SplitArray.Join([y, z], '.') == y + "." + z;
    assert SplitArray.Join([x, y, z], '.') == x + "." + y + "." + z;
  }

  lemma NoDot(s: string)
    requires forall i :: 0 <= i < |s| ==> IsDigit(s[i])
    ensures '.' !in s && NUL !in s
  {
    assert forall i :: 0 <= i < |s| ==> s[i] != '.' && s[i] != NUL;
  }

  /** Splitting an address text on '.' gives four non-NULL fields, and
      converting them with atoi gives the address back. */
  lemma ParseText(ip: IPAddress)
    ensures SplitArray.Split(Text(ip), '.').Some?
    ensures FourFields(SplitArray.Split(Text(ip), '.').value)
    ensures Octets(SplitArray.Split(Text(ip), '.').value) == ip
  {
    var fs := Fields(ip);
    TextShape(ip);
    SplitArray.FragmentsJoin(fs, '.');
    SplitArray.SplitElements(fs);
    assert SplitArray.FirstEmpty(fs) == 4;
    var slots := SplitArray.SplitSlots(fs);
    assert SplitArray.Elements(slots) == fs;
    assert slots[0] == Some(fs[0]) && slots[1] == Some(fs[1]);
    assert slots[2] == Some(fs[2]) && slots[3] == Some(fs[3]);
    OctetDecimal(ip.a);
    OctetDecimal(ip.b);
    OctetDecimal(ip.c);
    OctetDecimal(ip.d);
  }

  /** atoi of the decimal text of an octet, stored in a uint8_t, is that octet. */
  lemma OctetDecimal(x: uint8)
    ensures Octet(Decimal(x as nat)) == x
  {
    AtoiDecimal(x as nat);
  }

  // ---------------------------------------------------------------------------
  // Discovering and saving the address (lines 113-131)

  /** snprintf(ipAddr, 16, "%s", text) followed by fp.print((char*)ipAddr):
      the text up to any NUL, cut to 15 characters. */
  ghost function Written(text: string): (r: string)
    ensures |r| < BufferSize && IsCString(r)
  {
    Truncate(CStr(text), BufferSize - 1)
  }

  /** snprintf(ipAddr, sizeof(ipAddr), "%s", text): copies at most 15
      characters, stopping at a NUL, and terminates them. */
  method Snprintf(ipAddr: array<char>, text: string) returns (n: nat)
    requires ipAddr.Length == BufferSize
    modifies ipAddr
    ensures n < BufferSize && ipAddr[..n] == Written(text) && ipAddr[n] == NUL
    ensures forall k :: n < k < BufferSize ==> ipAddr[k] == old(ipAddr[k])
  {
    n := 0;
    while n < BufferSize - 1 && n < |text| && text[n] != NUL
      invariant n <= BufferSize - 1 && n <= |text|
      invariant NUL !in text[..n]
      invariant ipAddr[..n] == text[..n]
      invariant forall k :: n <= k < BufferSize ==> ipAddr[k] == old(ipAddr[k])
    {
      ipAddr[n] := text[n];
      assert text[..n + 1] == text[..n] + [text[n]];
      n := n + 1;
    }
    ipAddr[n] := NUL;
    WrittenPrefix(text, n);
  }

  /** Where the copy of snprintf stops, the text copied is what Written says. */
  lemma WrittenPrefix(text: string, n: nat)
    requires n <= BufferSize - 1 && n <= |text| && NUL !in text[..n]
    requires n == BufferSize - 1 || n == |text| || text[n] == NUL
    ensures Written(text) == text[..n]
  {
    var c := CStr(text);
    if n < |text| && text[n] == NUL {
      assert text[0..] == text;
      CStrAt(text, 0, n);
    } else if n == |text| {
      assert text[..n] == text;
      CStrWhole(text);
    } else {
      CStrCovers(text, n - 1);
      assert c[..n] == text[..n];
    }
  }

  /** What is written is a prefix of the text: all of a C string shorter than
      the buffer, and exactly 15 characters of a longer one. */
  lemma WrittenCut(text: string)
    ensures Written(text) <= text
    ensures IsCString(text) && |text| < BufferSize ==> Written(text) == text
    ensures IsCString(text) && |text| >= BufferSize - 1 ==> |Written(text)| == BufferSize - 1
  {
    var c := CStr(text);
    if IsCString(text) {
      CStrWhole(text);
    }
    assert Written(text) <= c;
  }

  /** An address text is written whole. */
  lemma WrittenText(ip: IPAddress)
    ensures Written(Text(ip)) == Text(ip)
  {
    TextShape(ip);
    CStrWhole(Text(ip));
  }

  // ---------------------------------------------------------------------------
  // The whole decision

  /** What the environment must provide for setDeviceAddress to be defined:
      the busy-wait ends, and a verified cached address has four fields. */
  ghost predicate Defined(env: Environment) {
    var addr := Loaded(env.stored);
    (Plausible(addr) && env.network.connects ==> WaitEnds(env.network.start, env.network.polls)) &&
    (Verified(addr, env.network) ==> FourFields(SplitArray.Split(addr, '.').value))
  }

  /** setDeviceAddress(ghn, name) as a function of its environment. */
  ghost function Resolve(env: Environment, name: string): Resolution
    requires Defined(env)
  {
    var addr := Loaded(env.stored);
    var exchange := if Plausible(addr) then Some(ExchangeOf(addr, env.network)) else None;
    if Verified(addr, env.network) then
      Resolution(exchange, SetIp(Octets(SplitArray.Split(addr, '.').value), Language), None, Returned(true))
    else
      Resolution(exchange, Discover(name, Language), Some(FileWrite(FileName, Written(env.foundText))), Restarted)
  }

  /** Whenever the cached address is not verified, the device is looked up by
      name, /ip.txt is overwritten with at most 15 characters of the text the
      notifier gives for its address (all of it when it is a dotted quad),
      and the board restarts. */
  lemma DiscoveryPath(env: Environment, name: string)
    requires Defined(env) && !Verified(Loaded(env.stored), env.network)
    ensures Resolve(env, name).call == Discover(name, Language)
    ensures Resolve(env, name).write.Some? && Resolve(env, name).write.value.path == FileName
    ensures var content := Resolve(env, name).write.value.content;
      content <= env.foundText && |content| < BufferSize && IsCString(content)
    ensures IsCString(env.foundText) && |env.foundText| < BufferSize ==>
      Resolve(env, name).write.value.content == env.foundText
    ensures env.foundText == Text(env.found) ==>
      Resolve(env, name).write == Some(FileWrite(FileName, Text(env.found)))
    ensures Resolve(env, name).ending == Restarted
  {
    WrittenCut(env.foundText);
    if env.foundText == Text(env.found) {
      WrittenText(env.found);
    }
  }

  /** A verified cached address is configured from its first four fields,
      nothing is written, and the function returns true. */
  lemma CachePath(env: Environment, name: string)
    requires Defined(env) && Verified(Loaded(env.stored), env.network)
    ensures Resolve(env, name).call == SetIp(Octets(SplitArray.Split(Loaded(env.stored), '.').value), Language)
    ensures Resolve(env, name).write == None
    ensures Resolve(env, name).ending == Returned(true)
  {
  }

  /** A cached text of 8 characters or fewer is never probed. */
  lemma ShortTextSkipsProbe(env: Environment, name: string)
    requires Defined(env) && |Loaded(env.stored)| <= MinLength
    ensures Resolve(env, name).exchange == None
    ensures Resolve(env, name).call == Discover(name, Language)
    ensures Resolve(env, name).ending == Restarted
  {
  }

  /** An absent file leads to discovery without a probe. */
  lemma AbsentFileDiscovers(env: Environment, name: string)
    requires env.stored.None?
    ensures Defined(env)
    ensures Resolve(env, name).exchange == None
    ensures Resolve(env, name).call == Discover(name, Language)
  {
    LoadedText(env.stored);
  }

  /** A failed connect to port 8008 sends nothing and leads to discovery. */
  lemma ConnectFailureDiscovers(env: Environment, name: string)
    requires Defined(env) && Plausible(Loaded(env.stored)) && !env.network.connects
    ensures Resolve(env, name).exchange == Some(Exchange(Loaded(env.stored), InfoPort, None, false))
    ensures Resolve(env, name).call == Discover(name, Language)
  {
  }

  /** A wait that times out, after the request was sent, leads to discovery. */
  lemma TimeoutDiscovers(env: Environment, name: string)
    requires Defined(env) && Plausible(Loaded(env.stored)) && env.network.connects
    requires TimesOut(env.network.start, env.network.polls)
    ensures Resolve(env, name).exchange ==
      Some(Exchange(Loaded(env.stored), InfoPort, Some(Request(Loaded(env.stored))), true))
    ensures Resolve(env, name).call == Discover(name, Language)
  {
  }

  /** Once an answer arrives, the cached address is used exactly when the
      first line contains "200". */
  lemma CacheIffFirstLine(env: Environment, name: string)
    requires Defined(env) && Plausible(Loaded(env.stored)) && env.network.connects
    requires !TimesOut(env.network.start, env.network.polls)
    ensures Resolve(env, name).exchange ==
      Some(Exchange(Loaded(env.stored), InfoPort, Some(Request(Loaded(env.stored))), false))
    ensures Resolve(env, name).call.SetIp? <==> FirstLineOk(env.network.lines)
  {
  }

  /** Replacing every line after the first changes nothing. */
  lemma ResolveIgnoresLaterLines(env: Environment, name: string, rest: seq<string>)
    requires Defined(env) && |env.network.lines| > 0
    ensures var env' := env.(network := env.network.(lines := [env.network.lines[0]] + rest));
      Defined(env') && Resolve(env', name) == Resolve(env, name)
  {
    var first := env.network.lines[0];
    LaterLinesIgnored(first, rest, env.network.lines[1..]);
    assert env.network.lines == [first] + env.network.lines[1..];
  }

  /** What ip() or device() returns never changes what happens. */
  lemma NotifierResultIgnored(env: Environment, name: string, ok: bool)
    requires Defined(env)
    ensures Defined(env.(notifierOk := ok)) && Resolve(env.(notifierOk := ok), name) == Resolve(env, name)
  {
  }

  /** What a discovery writes loads back unchanged on the next boot; when the
      notifier's text is the dotted quad of the address it found and the device
      then answers, exactly that address is configured. */
  lemma ReloadAfterDiscovery(env1: Environment, name1: string, env2: Environment, name2: string)
    requires Defined(env1) && !Verified(Loaded(env1.stored), env1.network)
    requires env2.stored.Some? && Resolve(env1, name1).write == Some(FileWrite(FileName, env2.stored.value))
    requires env2.network.connects ==> WaitEnds(env2.network.start, env2.network.polls)
    ensures Loaded(env2.stored) == Written(env1.foundText)
    ensures env1.foundText == Text(env1.found) ==> Defined(env2)
    ensures env1.foundText == Text(env1.found) && Verified(Loaded(env2.stored), env2.network) ==>
      Resolve(env2, name2).call == SetIp(env1.found, Language) && Resolve(env2, name2).ending == Returned(true)
  {
    LoadWritten(Written(env1.foundText));
    if env1.foundText == Text(env1.found) {
      DiscoveryPath(env1, name1);
      ParseText(env1.found);
    }
  }

  /** A written text of 8 characters or fewer, such as 10.0.0.5 or an empty
      text, is never probed: every boot that finds it discovers, writes the
      same text and restarts again. */
  lemma ShortAddressRestartsAgain(env1: Environment, name1: string, env2: Environment, name2: string)
    requires Defined(env1) && !Verified(Loaded(env1.stored), env1.network)
    requires env2.stored.Some? && Resolve(env1, name1).write == Some(FileWrite(FileName, env2.stored.value))
    requires |env2.stored.value| <= MinLength && env2.foundText == env1.foundText
    ensures Defined(env2)
    ensures Resolve(env2, name2).exchange == None
    ensures Resolve(env2, name2).write == Resolve(env1, name1).write
    ensures Resolve(env2, name2).ending == Restarted
  {
    LoadWritten(Written(env1.foundText));
  }

  /** 10.0.0.5 is such an address: the dotted quad of it has 8 characters. */
  lemma ShortAddressExample()
    ensures Text(IPAddress(10, 0, 0, 5)) == "10.0.0.5"
  {
    assert Decimal(1) == "1";
    assert Decimal(10) == "10";
    assert Decimal(0) == "0";
    assert Decimal(5) == "5";
  }

  /** setDeviceAddress, lines 34-134. */
  method SetDeviceAddress(env: Environment, name: string) returns (res: Resolution)
    requires Defined(env)
    ensures res == Resolve(env, name)
  {
    var ipAddr, n := LoadAddress(env.stored);
    ghost var addr := Loaded(env.stored);
    var success := false;
    var exchange: Option<Exchange> := None;
    if n > MinLength {
      var ex;
      ex, success := Probe(ipAddr[..n], env.network);
      exchange := Some(ex);
    }
    if success {
      var ip := ParseAddress(ipAddr[..n]);
      if !env.notifierOk {
        // ghn->ip(addr, "ja") failed: the error is only logged
      }
      res := Resolution(exchange, SetIp(ip, Language), None, Returned(true));
    } else {
      if !env.notifierOk {
        // ghn->device(name, "ja") failed: the error is only logged
      }
      var text := env.foundText;
      var m := Snprintf(ipAddr, text);
      // fp.print((char*)ipAddr), then ESP.restart()
      res := Resolution(exchange, Discover(name, Language), Some(FileWrite(FileName, ipAddr[..m])), Restarted);
    }
  }

  /** Lines 57-66: the zeroed buffer filled from the file, and the length of
      the C string it holds. */
  method LoadAddress(stored: Option<string>) returns (ipAddr: array<char>, n: nat)
    ensures fresh(ipAddr) && ipAddr.Length == BufferSize
    ensures n < BufferSize && ipAddr[..n] == Loaded(stored)
  {
    ipAddr := new char[BufferSize];
    ReadStored(stored, ipAddr);
    assert ipAddr[..][0..] == ipAddr[..] && ipAddr[..][BufferSize - 1] == NUL;
    n := StrLen(ipAddr[..], 0);
    CStrAt(ipAddr[..], 0, n);
  }

  /** Lines 103-107: split the address on '.', atoi the first four fields
      into a uint8_t each, and release the split. */
  method ParseAddress(addr: string) returns (ip: IPAddress)
    requires IsCString(addr) && addr != [] && FourFields(SplitArray.Split(addr, '.').value)
    ensures ip == Octets(SplitArray.Split(addr, '.').value)
  {
    var ar := SplitArray.CreateSplitArray(addr, '.');
    var arr := ar.value;
    ip := IPAddress(Octet(arr[0].value), Octet(arr[1].value), Octet(arr[2].value), Octet(arr[3].value));
    SplitArray.SplitHasSentinel(addr, '.');
    var released := SplitArray.DeleteSplitArray(ar);
  }
}
