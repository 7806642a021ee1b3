/** The server name in a TLS ClientHello, read straight off the wire. */
module TlsSni {
  import opened Bytes
  import opened Utf8
  import opened Wrappers

  // ---- Reading ------------------------------------------------------------------------------

  function U16(hi: byte, lo: byte): (n: nat)
    ensures n < 0x1_0000
  {
    hi as int * 256 + lo as int
  }

  function Utf8OrNone(s: seq<byte>): Option<seq<byte>>
  {
    if IsUtf8(s) then Some(s) else None
  }

  // The first host_name at or after `pos`, in a list that ends at `end`.
  function NameFrom(data: seq<byte>, pos: nat, end: nat): Option<seq<byte>>
    requires end <= |data|
    decreases end - pos
  {
    if pos + 3 > end then None
    else
      var from := pos + 3;
      var to := from + U16(data[pos + 1], data[pos + 2]);
      if to > |data| then None
      else if data[pos] == 0 then Utf8OrNone(data[from..to])
      else NameFrom(data, to, end)
  }

  function SniExtension(data: seq<byte>): Option<seq<byte>>
  {
    if |data| < 5 then None
    else
      var end := 2 + U16(data[0], data[1]);
      if end > |data| then None else NameFrom(data, 2, end)
  }

  function ExtensionsFrom(body: seq<byte>, pos: nat, end: nat): Option<seq<byte>>
    requires end <= |body|
    decreases end - pos
  {
    if pos + 4 > end then None
    else
      var from := pos + 4;
      var to := from + U16(body[pos + 2], body[pos + 3]);
      if to > end then None
      else
        var host := if U16(body[pos], body[pos + 1]) == 0 then SniExtension(body[from..to]) else None;
        if host.Some? then host else ExtensionsFrom(body, to, end)
  }

  // A host, none, or the read past the end that the length guard lets through.
  datatype Reading = Host(name: seq<byte>) | NoHost | OutOfBounds

  function ReadingOf(host: Option<seq<byte>>): Reading
  {
    match host
    case Some(name) => Host(name)
    case None => NoHost
  }

  // The three length-prefixed fields before the extensions: where the next field starts.
  function SkipShort(body: seq<byte>, pos: nat): Option<nat>
    requires pos < |body|
  {
    var next := pos + 1 + body[pos] as int;
    if next > |body| then None else Some(next)
  }

  function SkipLong(body: seq<byte>, pos: nat): Option<nat>
  {
    if pos + 2 > |body| then None
    else
      var next := pos + 2 + U16(body[pos], body[pos + 1]);
      if next > |body| then None else Some(next)
  }

  function HelloBody(body: seq<byte>): Reading
  {
    if |body| < 34 then NoHost
    else if |body| == 34 then OutOfBounds
    else
      var suites := SkipShort(body, 34);
      if suites.None? then NoHost else
      var methods := SkipLong(body, suites.value);
      if methods.None? || methods.value >= |body| then NoHost else
      var extensions := SkipShort(body, methods.value);
      if extensions.None? then NoHost else
      var end := SkipLong(body, extensions.value);
      if end.None? then NoHost else ReadingOf(ExtensionsFrom(body, extensions.value + 2, end.value))
  }

  function ClientHello(payload: seq<byte>): Reading
  {
    if |payload| < 4 || payload[0] != 1 then NoHost
    else
      var len := payload[1] as int * 0x1_0000 + U16(payload[2], payload[3]);
      if len + 4 > |payload| then NoHost else HelloBody(payload[4..4 + len])
  }

  function RecordsFrom(data: seq<byte>, off: nat): Reading
    decreases |data| - off
  {
    if off + 5 > |data| then NoHost
    else if data[off] != 0x16 || data[off + 1] != 0x03 then RecordsFrom(data, off + 1)
    else
      var next := off + 5 + U16(data[off + 3], data[off + 4]);
      if next < off + 9 || next > |data| then NoHost
      else
        var r := ClientHello(data[off + 5..next]);
        if r != NoHost then r else RecordsFrom(data, next)
  }

  // ---- The loops ------------------------------------------------------------------------------

  method ParseSniExtension(data: seq<byte>) returns (host: Option<seq<byte>>)
    ensures host == SniExtension(data)
  {
    if |data| < 5 {
      return None;
    }
    var listLen := U16(data[0], data[1]);
    if listLen + 2 > |data| {
      return None;
    }
    var pos := 2;
    while pos + 3 <= 2 + listLen
      invariant NameFrom(data, pos, 2 + listLen) == SniExtension(data)
      decreases 2 + listLen - pos
    {
      var nameType := data[pos];
      var nameLen := U16(data[pos + 1], data[pos + 2]);
      pos := pos + 3;
      if pos + nameLen > |data| {
        return None;
      }
      if nameType == 0 {
        return if IsUtf8(data[pos..pos + nameLen]) then Some(data[pos..pos + nameLen]) else None;
      }
      pos := pos + nameLen;
    }
    return None;
  }

  method ScanExtensions(body: seq<byte>, start: nat, extEnd: nat) returns (host: Option<seq<byte>>)
    requires extEnd <= |body|
    ensures host == ExtensionsFrom(body, start, extEnd)
  {
    hide SniExtension;
    var pos := start;
    while pos + 4 <= extEnd
      invariant ExtensionsFrom(body, pos, extEnd) == ExtensionsFrom(body, start, extEnd)
      decreases extEnd - pos
    {
      var extType := U16(body[pos], body[pos + 1]);
      var extDataLen := U16(body[pos + 2], body[pos + 3]);
      pos := pos + 4;
      if pos + extDataLen > extEnd {
        return None;
      }
      if extType == 0 {
        host := ParseSniExtension(body[pos..pos + extDataLen]);
        if host.Some? {
          return host;
        }
      }
      pos := pos + extDataLen;
    }
    return None;
  }

  method SniFromClientHello(payload: seq<byte>) returns (r: Reading)
    ensures r == ClientHello(payload)
  {
    hide ExtensionsFrom, SniExtension;
    if |payload| < 4 || payload[0] != 0x01 {
      return NoHost;
    }
    var hsLen := payload[1] as int * 0x1_0000 + payload[2] as int * 0x100 + payload[3] as int;
    if hsLen + 4 > |payload| {
      return NoHost;
    }
    var body := payload[4..4 + hsLen];
    if |body| < 34 {
      return NoHost;
    }
    var pos := 34;
    if pos >= |body| {
      return OutOfBounds;
    }
    pos := pos + 1 + body[pos] as int;
    if pos > |body| || pos + 2 > |body| {
      return NoHost;
    }
    pos := pos + 2 + U16(body[pos], body[pos + 1]);
    if pos >= |body| {
      return NoHost;
    }
    pos := pos + 1 + body[pos] as int;
    if pos > |body| || pos + 2 > |body| {
      return NoHost;
    }
    var extLen := U16(body[pos], body[pos + 1]);
    pos := pos + 2;
    if pos + extLen > |body| {
      return NoHost;
    }
    var host := ScanExtensions(body, pos, pos + extLen);
    return ReadingOf(host);
  }

  method ParseTlsClientHelloSni(data: seq<byte>) returns (r: Reading)
    ensures r == RecordsFrom(data, 0)
  {
    hide ClientHello;
    var off := 0;
    while off + 5 <= |data|
      invariant RecordsFrom(data, off) == RecordsFrom(data, 0)
      decreases |data| - off
    {
      if data[off] != 0x16 {
        off := off + 1;
        continue;
      }
      if data[off + 1] != 0x03 {
        off := off + 1;
        continue;
      }
      var recLen := U16(data[off + 3], data[off + 4]);
      if recLen < 4 || off + 5 + recLen > |data| {
        break;
      }
      r := SniFromClientHello(data[off + 5..off + 5 + recLen]);
      if r != NoHost {
        return r;
      }
      off := off + 5 + recLen;
    }
    return NoHost;
  }

  // ---- Building (section 3 of RFC 6066, section 7.4.1.2 of RFC 5246) ----------------------------

  function Put16(n: nat): (s: seq<byte>)
    requires n < 0x1_0000
    ensures |s| == 2 && U16(s[0], s[1]) == n
  {
    [n / 256, n % 256]
  }

  datatype ServerName = ServerName(nameType: byte, name: seq<byte>)

  datatype Extension = Extension(extType: nat, data: seq<byte>)

  datatype Hello = Hello(head: seq<byte>, sessionId: seq<byte>, suites: seq<byte>, methods: seq<byte>,
                         extensions: seq<Extension>)

  predicate NamesFit(names: seq<ServerName>)
  {
    forall n | n in names :: |n.name| < 0x1_0000
  }

  function NameHead(n: ServerName): (s: seq<byte>)
    requires |n.name| < 0x1_0000
    ensures |s| == 3 && s[0] == n.nameType && U16(s[1], s[2]) == |n.name|
  {
    [n.nameType] + Put16(|n.name|)
  }

  function EncodeNames(names: seq<ServerName>): seq<byte>
    requires NamesFit(names)
  {
    if names == [] then []
    else (NameHead(names[0]) + names[0].name) + EncodeNames(names[1..])
  }

  function EncodeServerNames(names: seq<ServerName>): seq<byte>
    requires NamesFit(names) && |EncodeNames(names)| < 0x1_0000
  {
    Put16(|EncodeNames(names)|) + EncodeNames(names)
  }

  predicate ExtensionsFit(es: seq<Extension>)
  {
    forall e | e in es :: e.extType < 0x1_0000 && |e.data| < 0x1_0000
  }

  function ExtensionHead(e: Extension): (s: seq<byte>)
    requires e.extType < 0x1_0000 && |e.data| < 0x1_0000
    ensures |s| == 4 && U16(s[0], s[1]) == e.extType && U16(s[2], s[3]) == |e.data|
  {
    Put16(e.extType) + Put16(|e.data|)
  }

  function EncodeExtensions(es: seq<Extension>): seq<byte>
    requires ExtensionsFit(es)
  {
    if es == [] then []
    else (ExtensionHead(es[0]) + es[0].data) + EncodeExtensions(es[1..])
  }

  // `head` is the version and the random.
  predicate WellFormed(h: Hello)
  {
    && |h.head| == 34 && |h.sessionId| < 0x100 && |h.suites| < 0x1_0000 && 0 < |h.methods| < 0x100
    && ExtensionsFit(h.extensions) && |EncodeExtensions(h.extensions)| < 0x1_0000
  }

  function EncodeBody(h: Hello): seq<byte>
    requires WellFormed(h)
  {
    h.head + ([|h.sessionId|] + h.sessionId) + (Put16(|h.suites|) + h.suites) + ([|h.methods|] + h.methods)
    + (Put16(|EncodeExtensions(h.extensions)|) + EncodeExtensions(h.extensions))
  }

  function EncodeHello(h: Hello): seq<byte>
    requires WellFormed(h) && |EncodeBody(h)| < 0x1_0000
  {
    ([1, 0] + Put16(|EncodeBody(h)|)) + EncodeBody(h)
  }

  function EncodeRecord(minor: byte, payload: seq<byte>): seq<byte>
    requires |payload| < 0x1_0000
  {
    ([0x16, 0x03, minor] + Put16(|payload|)) + payload
  }

  // ---- What the parser must answer, on the structure alone ---------------------------------

  // The first host_name of the list, if it is UTF-8.
  function FirstHost(names: seq<ServerName>): Option<seq<byte>>
  {
    if names == [] then None
    else if names[0].nameType == 0 then Utf8OrNone(names[0].name)
    else FirstHost(names[1..])
  }

  // The first server_name extension that yields a host.
  function HostOf(es: seq<Extension>): Option<seq<byte>>
  {
    if es == [] then None
    else
      var host := if es[0].extType == 0 then SniExtension(es[0].data) else None;
      if host.Some? then host else HostOf(es[1..])
  }

  // ---- Reading inverts building -----------------------------------------------------------------

  // `part` stands at `pos` in `data`.
  predicate At<T(==)>(data: seq<T>, pos: nat, part: seq<T>)
  {
    pos + |part| <= |data| && data[pos..pos + |part|] == part
  }

  lemma AtBoth<T>(data: seq<T>, pos: nat, a: seq<T>, b: seq<T>)
    requires At(data, pos, a + b)
    ensures At(data, pos, a) && At(data, pos + |a|, b)
  {
    assert data[pos..pos + |a|] == data[pos..pos + |a + b|][..|a|] == (a + b)[..|a|] == a;
    assert data[pos + |a|..pos + |a| + |b|] == data[pos..pos + |a + b|][|a|..] == (a + b)[|a|..] == b;
  }

  lemma AtIndex<T>(data: seq<T>, pos: nat, part: seq<T>, i: nat)
    requires At(data, pos, part) && i < |part|
    ensures data[pos + i] == part[i]
  {
    assert data[pos + i] == data[pos..pos + |part|][i];
  }

  lemma NameRead(data: seq<byte>, pos: nat, n: ServerName, end: nat)
    requires |n.name| < 0x1_0000 && At(data, pos, NameHead(n) + n.name)
    requires pos + 3 + |n.name| <= end <= |data|
    ensures NameFrom(data, pos, end) ==
            if n.nameType == 0 then Utf8OrNone(n.name) else NameFrom(data, pos + 3 + |n.name|, end)
  {
    AtBoth(data, pos, NameHead(n), n.name);
    AtIndex(data, pos, NameHead(n), 0);
    AtIndex(data, pos, NameHead(n), 1);
    AtIndex(data, pos, NameHead(n), 2);
  }

  lemma NoNames(data: seq<byte>, pos: nat)
    requires At(data, pos, [])
    ensures NameFrom(data, pos, pos).None?
  {
  }

  lemma AtEnd<T>(data: seq<T>, pos: nat, part: seq<T>)
    requires At(data, pos, part)
    ensures pos + |part| <= |data|
  {
  }

  lemma {:induction false} NamesRead(data: seq<byte>, pos: nat, names: seq<ServerName>)
    requires NamesFit(names) && At(data, pos, EncodeNames(names))
    ensures NameFrom(data, pos, pos + |EncodeNames(names)|) == FirstHost(names)
    decreases |names|
  {
    hide At, NameFrom, NameHead, Utf8OrNone;
    if names == [] {
      NoNames(data, pos);
    } else {
      var first := NameHead(names[0]) + names[0].name;
      AtEnd(data, pos, EncodeNames(names));
      AtBoth(data, pos, first, EncodeNames(names[1..]));
      NameRead(data, pos, names[0], pos + |EncodeNames(names)|);
      NamesRead(data, pos + |first|, names[1..]);
    }
  }

  // The server_name extension a client builds reads back as its first host_name.
  lemma ServerNamesRead(names: seq<ServerName>)
    requires NamesFit(names) && 3 <= |EncodeNames(names)| < 0x1_0000
    ensures SniExtension(EncodeServerNames(names)) == FirstHost(names)
  {
    hide EncodeNames, NameFrom;
    var data := EncodeServerNames(names);
    AtBoth([] + data, 0, Put16(|EncodeNames(names)|), EncodeNames(names));
    NamesRead(data, 2, names);
  }

  lemma ExtensionRead(body: seq<byte>, pos: nat, e: Extension, end: nat)
    requires e.extType < 0x1_0000 && |e.data| < 0x1_0000 && At(body, pos, ExtensionHead(e) + e.data)
    requires pos + 4 + |e.data| <= end <= |body|
    ensures var host := if e.extType == 0 then SniExtension(e.data) else None;
            ExtensionsFrom(body, pos, end) ==
            if host.Some? then host else ExtensionsFrom(body, pos + 4 + |e.data|, end)
  {
    hide SniExtension, Put16;
    AtBoth(body, pos, ExtensionHead(e), e.data);
    AtIndex(body, pos, ExtensionHead(e), 0);
    AtIndex(body, pos, ExtensionHead(e), 1);
    AtIndex(body, pos, ExtensionHead(e), 2);
    AtIndex(body, pos, ExtensionHead(e), 3);
    assert body[pos + 4..pos + 4 + |e.data|] == e.data;
    hide At, ExtensionHead;
  }

  lemma NoExtensions(body: seq<byte>, pos: nat)
    requires At(body, pos, [])
    ensures ExtensionsFrom(body, pos, pos).None?
  {
  }

  lemma {:induction false} ExtensionsRead(body: seq<byte>, pos: nat, es: seq<Extension>)
    requires ExtensionsFit(es) && At(body, pos, EncodeExtensions(es))
    ensures ExtensionsFrom(body, pos, pos + |EncodeExtensions(es)|) == HostOf(es)
    decreases |es|
  {
    hide SniExtension, At, ExtensionsFrom, ExtensionHead;
    if es == [] {
      NoExtensions(body, pos);
    } else {
      var first := ExtensionHead(es[0]) + es[0].data;
      AtEnd(body, pos, EncodeExtensions(es));
      AtBoth(body, pos, first, EncodeExtensions(es[1..]));
      ExtensionRead(body, pos, es[0], pos + |EncodeExtensions(es)|);
      ExtensionsRead(body, pos + |first|, es[1..]);
    }
  }

  lemma ShortSkipped(body: seq<byte>, pos: nat, field: seq<byte>)
    requires |field| < 0x100 && At(body, pos, [|field|] + field)
    ensures SkipShort(body, pos) == Some(pos + 1 + |field|)
  {
    AtIndex(body, pos, [|field|] + field, 0);
  }

  lemma LongSkipped(body: seq<byte>, pos: nat, field: seq<byte>)
    requires |field| < 0x1_0000 && At(body, pos, Put16(|field|) + field)
    ensures SkipLong(body, pos) == Some(pos + 2 + |field|)
  {
    AtIndex(body, pos, Put16(|field|) + field, 0);
    AtIndex(body, pos, Put16(|field|) + field, 1);
  }

  lemma BodyReads(h: Hello)
    requires WellFormed(h)
    ensures HelloBody(EncodeBody(h)) == ReadingOf(HostOf(h.extensions))
  {
    hide EncodeExtensions, SniExtension, ExtensionsFrom, HostOf, SkipShort, SkipLong, Put16;
    var es := EncodeExtensions(h.extensions);
    var sid, suites, methods, exts :=
      [|h.sessionId|] + h.sessionId, Put16(|h.suites|) + h.suites, [|h.methods|] + h.methods, Put16(|es|) + es;
    var body := EncodeBody(h);
    assert body == h.head + sid + suites + methods + exts;
    assert At(body, 0, h.head + sid + suites + methods + exts);
    AtBoth(body, 0, h.head + sid + suites + methods, exts);
    AtBoth(body, 0, h.head + sid + suites, methods);
    AtBoth(body, 0, h.head + sid, suites);
    AtBoth(body, 0, h.head, sid);
    var p1 := 34 + |sid|;
    var p2 := p1 + |suites|;
    var p3 := p2 + |methods|;
    AtBoth(body, p3, Put16(|es|), es);
    ShortSkipped(body, 34, h.sessionId);
    LongSkipped(body, p1, h.suites);
    ShortSkipped(body, p2, h.methods);
    LongSkipped(body, p3, es);
    ExtensionsRead(body, p3 + 2, h.extensions);
  }

  lemma HelloReads(h: Hello, more: seq<byte>)
    requires WellFormed(h) && |EncodeBody(h)| < 0x1_0000
    ensures ClientHello(EncodeHello(h) + more) == ReadingOf(HostOf(h.extensions))
  {
    BodyReads(h);
    var body := EncodeBody(h);
    hide EncodeBody, HelloBody, HostOf, WellFormed;
    var payload := EncodeHello(h) + more;
    assert payload == ([1, 0] + Put16(|body|)) + body + more;
    assert payload[0] == 1 && payload[1] == 0;
    assert payload[2] == Put16(|body|)[0] && payload[3] == Put16(|body|)[1];
    assert payload[4..4 + |body|] == body;
  }

  // A record at the head of the stream is read whole, whatever follows its hello in the
  // record and whatever follows the record.
  lemma RecordReads(minor: byte, h: Hello, more: seq<byte>, rest: seq<byte>)
    requires WellFormed(h) && |EncodeBody(h)| + 4 + |more| < 0x1_0000
    requires HostOf(h.extensions).Some?
    ensures RecordsFrom(EncodeRecord(minor, EncodeHello(h) + more) + rest, 0) == Host(HostOf(h.extensions).value)
  {
    HelloReads(h, more);
    var payload := EncodeHello(h) + more;
    assert |payload| >= 4;
    hide EncodeBody, EncodeHello, ClientHello, HostOf, WellFormed, RecordsFrom;
    RecordHolds(minor, payload, rest);
    RecordAnswers(EncodeRecord(minor, payload) + rest, payload);
  }

  lemma RecordHolds(minor: byte, payload: seq<byte>, rest: seq<byte>)
    requires |payload| < 0x1_0000
    ensures var data := EncodeRecord(minor, payload) + rest;
            && |data| >= 5 + |payload| && data[0] == 0x16 && data[1] == 0x03
            && U16(data[3], data[4]) == |payload| && data[5..5 + |payload|] == payload
  {
    var data := EncodeRecord(minor, payload) + rest;
    var head := [0x16, 0x03, minor] + Put16(|payload|);
    assert At(data, 0, head + payload);
    AtBoth(data, 0, head, payload);
    AtIndex(data, 0, head, 0);
    AtIndex(data, 0, head, 1);
    AtIndex(data, 0, head, 3);
    AtIndex(data, 0, head, 4);
  }

  lemma RecordAnswers(data: seq<byte>, payload: seq<byte>)
    requires |data| >= 5 + |payload| && data[0] == 0x16 && data[1] == 0x03 && |payload| >= 4
    requires U16(data[3], data[4]) == |payload| && data[5..5 + |payload|] == payload
    requires ClientHello(payload) != NoHost
    ensures RecordsFrom(data, 0) == ClientHello(payload)
  {
    hide ClientHello;
  }

  lemma {:induction false} HostAfter(before: seq<Extension>, es: seq<Extension>)
    requires forall e | e in before :: e.extType != 0
    ensures HostOf(before + es) == HostOf(es)
    decreases |before|
  {
    if before == [] {
      assert before + es == es;
    } else {
      assert (before + es)[1..] == before[1..] + es;
      HostAfter(before[1..], es);
    }
  }

  lemma {:induction false} FirstHostAfter(before: seq<ServerName>, names: seq<ServerName>)
    requires forall n | n in before :: n.nameType != 0
    ensures FirstHost(before + names) == FirstHost(names)
    decreases |before|
  {
    if before == [] {
      assert before + names == names;
    } else {
      assert (before + names)[1..] == before[1..] + names;
      FirstHostAfter(before[1..], names);
    }
  }

  // Whatever the session id, cipher suites, compression methods and extensions around it,
  // the parser returns exactly the first host_name of the server_name extension.
  lemma SniInvertsConstruction(minor: byte, h: Hello, before: seq<Extension>, after: seq<Extension>,
                               names: seq<ServerName>, others: seq<ServerName>, host: seq<byte>,
                               later: seq<ServerName>, more: seq<byte>, rest: seq<byte>)
    requires names == others + ([ServerName(0, host)] + later)
    requires IsUtf8(host) && forall n | n in others :: n.nameType != 0
    requires NamesFit(names) && |EncodeNames(names)| < 0x1_0000 - 2
    requires h.extensions == before + ([Extension(0, EncodeServerNames(names))] + after)
    requires forall e | e in before :: e.extType != 0
    requires WellFormed(h) && |EncodeBody(h)| + 4 + |more| < 0x1_0000
    ensures RecordsFrom(EncodeRecord(minor, EncodeHello(h) + more) + rest, 0) == Host(host)
  {
    hide RecordsFrom, EncodeRecord, EncodeHello, EncodeBody, SniExtension, WellFormed, NameFrom, IsUtf8;
    FirstHostAfter(others, [ServerName(0, host)] + later);
    assert FirstHost(names) == Some(host);
    NamesTakeRoom(names);
    ServerNamesRead(names);
    HostAfter(before, [Extension(0, EncodeServerNames(names))] + after);
    hide EncodeNames, EncodeServerNames;
    assert HostOf(h.extensions) == Some(host);
    RecordReads(minor, h, more, rest);
  }

  lemma NamesTakeRoom(names: seq<ServerName>)
    requires NamesFit(names) && names != []
    ensures |EncodeNames(names)| >= 3
  {
  }

  // A hello whose declared length is 34, with that much behind it.
  predicate LetThrough(payload: seq<byte>)
  {
    |payload| >= 38 && payload[0] == 1 && payload[1] == 0 && payload[2] == 0 && payload[3] == 34
  }

  // The length guard lets exactly one body through that is too short for its first field:
  // a declared length of 34.
  lemma GuardLetsOneThrough(payload: seq<byte>)
    ensures ClientHello(payload) == OutOfBounds <==> LetThrough(payload)
  {
    hide SniExtension, ExtensionsFrom;
  }

  // The records a search from `off` on comes by, if none of them answers it: each where the
  // one before it ended, or at the first record head behind that.
  function RecordsIn(data: seq<byte>, off: nat): seq<seq<byte>>
    decreases |data| - off
  {
    if off + 5 > |data| then []
    else if data[off] != 0x16 || data[off + 1] != 0x03 then RecordsIn(data, off + 1)
    else
      var next := off + 5 + U16(data[off + 3], data[off + 4]);
      if next < off + 9 || next > |data| then [] else [data[off + 5..next]] + RecordsIn(data, next)
  }

  ghost predicate AnswersFirst(rs: seq<seq<byte>>, k: nat, r: Reading)
  {
    k < |rs| && ClientHello(rs[k]) == r && forall j | 0 <= j < k :: ClientHello(rs[j]) == NoHost
  }

  ghost predicate Answers(rs: seq<seq<byte>>, r: Reading)
  {
    exists k: nat :: AnswersFirst(rs, k, r)
  }

  // What the search answers is what the first record that is not silent answers.
  lemma {:induction false} FirstAnswer(data: seq<byte>, off: nat, r: Reading)
    requires r != NoHost
    ensures RecordsFrom(data, off) == r <==> Answers(RecordsIn(data, off), r)
    decreases |data| - off
  {
    hide ClientHello, Answers;
    var rs := RecordsIn(data, off);
    if rs == [] {
      NoneAnswers(r);
    }
    if off + 5 <= |data| {
      if data[off] != 0x16 || data[off + 1] != 0x03 {
        assert rs == RecordsIn(data, off + 1);
        FirstAnswer(data, off + 1, r);
      } else {
        var next := off + 5 + U16(data[off + 3], data[off + 4]);
        if off + 9 <= next <= |data| {
          FirstAnswer(data, next, r);
          var first := data[off + 5..next];
          assert rs == [first] + RecordsIn(data, next);
          assert RecordsFrom(data, off)
                 == if ClientHello(first) != NoHost then ClientHello(first) else RecordsFrom(data, next);
          FirstOf(first, RecordsIn(data, next), r);
        }
      }
    }
  }

  lemma NoneAnswers(r: Reading)
    ensures !Answers([], r)
  {
  }

  lemma FirstOf(first: seq<byte>, rest: seq<seq<byte>>, r: Reading)
    requires r != NoHost
    ensures Answers([first] + rest, r) <==>
            if ClientHello(first) == NoHost then Answers(rest, r) else ClientHello(first) == r
  {
    hide ClientHello;
    var all := [first] + rest;
    assert all[0] == first && forall j | 0 <= j < |rest| :: all[j + 1] == rest[j];
    if k: nat :| AnswersFirst(all, k, r) {
      if ClientHello(first) == NoHost {
        assert AnswersFirst(rest, k - 1, r) by {
          assert forall j | 0 <= j < k - 1 :: all[j + 1] == rest[j];
        }
      }
    }
    if ClientHello(first) == NoHost {
      if k: nat :| AnswersFirst(rest, k, r) {
        forall j | 0 <= j < k + 1 ensures ClientHello(all[j]) == NoHost {
          assert j > 0 ==> all[j] == rest[j - 1];
        }
        assert AnswersFirst(all, k + 1, r);
      }
    } else if ClientHello(first) == r {
      assert AnswersFirst(all, 0, r);
    }
  }

  // Over a whole stream: the read past the end happens if and only if the first record that
  // is not silent is a hello of declared length 34; so never where there is no such record.
  lemma RecordsReadPastEnd(data: seq<byte>)
    ensures RecordsFrom(data, 0) == OutOfBounds <==>
            exists k: nat :: k < |RecordsIn(data, 0)| && LetThrough(RecordsIn(data, 0)[k])
                             && forall j | 0 <= j < k :: ClientHello(RecordsIn(data, 0)[j]) == NoHost
  {
    hide RecordsFrom, RecordsIn, ClientHello, LetThrough;
    FirstAnswer(data, 0, OutOfBounds);
    var rs := RecordsIn(data, 0);
    forall k | 0 <= k < |rs| ensures ClientHello(rs[k]) == OutOfBounds <==> LetThrough(rs[k]) {
      GuardLetsOneThrough(rs[k]);
    }
    if k: nat :| AnswersFirst(rs, k, OutOfBounds) {
      assert LetThrough(rs[k]);
    }
    if k: nat :| k < |rs| && LetThrough(rs[k]) && forall j | 0 <= j < k :: ClientHello(rs[j]) == NoHost {
      assert AnswersFirst(rs, k, OutOfBounds);
    }
  }

  // The first name is bounded by the data alone: a name that runs past the end of the list
  // that holds it is read as it stands.
  lemma NameMayOutrunList(listLen: nat, name: seq<byte>, more: seq<byte>)
    requires |name| < 0x1_0000 && 3 <= listLen <= 3 + |name| + |more| && listLen < 0x1_0000
    ensures var data := [listLen / 256, listLen % 256, 0, |name| / 256, |name| % 256] + name + more;
            SniExtension(data) == if IsUtf8(name) then Some(name) else None
  {
    hide IsUtf8;
    var data := [listLen / 256, listLen % 256, 0, |name| / 256, |name| % 256] + name + more;
    assert data[5..5 + |name|] == name;
  }
}
