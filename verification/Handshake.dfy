/** Finding the handshake at the head of a client stream, and handing on what follows it. */
module Handshake {
  import opened Bytes
  import ContentLength
  import opened Ctr
  import HttpHost
  import opened Mtproto
  import opened Seqs
  import opened Wrappers

  const INIT_READ_MAX: nat := 4096

  function Least(a: nat, b: nat): nat
  {
    if a < b then a else b
  }

  predicate Parses(aes: BlockCipher, s: seq<byte>, off: nat)
  {
    off + HANDSHAKE_LEN <= |s| && ParseDirectHandshake(aes, s[off..off + HANDSHAKE_LEN]).Ok?
  }

  // The first offset at or after `from` whose 64-byte window parses.
  function FindFrom(aes: BlockCipher, s: seq<byte>, from: nat): (r: Option<nat>)
    ensures r.Some? ==> from <= r.value && Parses(aes, s, r.value)
    ensures forall off | from <= off && Parses(aes, s, off) :: r.Some? && r.value <= off
    decreases |s| - from
  {
    if from + HANDSHAKE_LEN > |s| then None
    else if Parses(aes, s, from) then Some(from)
    else FindFrom(aes, s, from + 1)
  }

  function FindHandshakeOffset(aes: BlockCipher, s: seq<byte>): (r: Option<nat>)
    ensures r.Some? ==> Parses(aes, s, r.value)
    ensures forall off | Parses(aes, s, off) :: r.Some? && r.value <= off
  {
    if |s| < HANDSHAKE_LEN then None else FindFrom(aes, s, 0)
  }

  // More bytes never move the offset, and a prefix finds it as soon as it holds the window.
  lemma OffsetIsStable(aes: BlockCipher, s: seq<byte>, n: nat)
    requires n <= |s|
    ensures FindHandshakeOffset(aes, s[..n]) ==
            match FindHandshakeOffset(aes, s)
            case Some(off) => if off + HANDSHAKE_LEN <= n then Some(off) else None
            case None => None
  {
    hide ParseDirectHandshake;
    forall off: nat ensures Parses(aes, s[..n], off) <==> Parses(aes, s, off) && off + HANDSHAKE_LEN <= n {
      if off + HANDSHAKE_LEN <= n {
        assert s[..n][off..off + HANDSHAKE_LEN] == s[off..off + HANDSHAKE_LEN];
      }
    }
    var whole, part := FindHandshakeOffset(aes, s), FindHandshakeOffset(aes, s[..n]);
    if part.Some? {
      assert Parses(aes, s, part.value);
    }
    if whole.Some? && whole.value + HANDSHAKE_LEN <= n {
      assert Parses(aes, s[..n], whole.value);
    }
  }

  // ---- What the first bytes look like ----------------------------------------------------

  const POST: seq<byte> := [0x50, 0x4F, 0x53, 0x54]
  const GET: seq<byte> := [0x47, 0x45, 0x54]
  const HEAD: seq<byte> := [0x48, 0x45, 0x41, 0x44]
  const OPTIONS: seq<byte> := [0x4F, 0x50, 0x54, 0x49, 0x4F, 0x4E, 0x53]
  const BLANK_LINE: seq<byte> := [0x0D, 0x0A, 0x0D, 0x0A]

  predicate IsHttpTransport(s: seq<byte>)
  {
    |s| >= 4 && (POST <= s || GET <= s || HEAD <= s || OPTIONS <= s)
  }

  // The blank line holds no letters, so letter case makes no difference.
  predicate HasCompleteHttpHeaders(s: seq<byte>)
  {
    HttpHost.Find(s, BLANK_LINE).Some?
  }

  predicate LooksLikeTlsStream(s: seq<byte>)
  {
    |s| >= 2 && s[1] == 0x03 && (s[0] == 0x16 || s[0] == 0x17)
  }

  // ---- The client's socket -------------------------------------------------------------------

  class Socket {
    const sent: seq<byte>
    var taken: nat

    ghost predicate Valid()
      reads this
    {
      taken <= |sent|
    }

    function Rest(): seq<byte>
      reads this
      requires Valid()
    {
      sent[taken..]
    }

    constructor (sent: seq<byte>)
      ensures Valid() && this.sent == sent && taken == 0
    {
      this.sent, taken := sent, 0;
    }

    // One read into `space` bytes, of which `arrived` are there; nothing is the end.
    method Read(space: nat, arrived: nat) returns (data: seq<byte>)
      requires Valid()
      modifies this
      ensures Valid() && data + Rest() == old(Rest())
      ensures |data| == Least(Least(space, arrived), |old(Rest())|)
    {
      var n := Least(Least(space, arrived), |sent| - taken);
      data := sent[taken..taken + n];
      taken := taken + n;
    }
  }

  // What was read so far and what the socket still holds are the client's stream.
  ghost predicate Reads(stream: Socket, buf: seq<byte>, s: seq<byte>)
    reads stream
  {
    stream.Valid() && buf + stream.Rest() == s
  }

  // What each wait for the client brings. A schedule that ends is the deadline passing.
  datatype Arrival = Got(n: nat) | TimedOut | Failed

  datatype Init = Parsed(info: HandshakeInfo, stream: PrefixedStream)
                | Http(buf: seq<byte>) | Tls(buf: seq<byte>)
                | ReadError(buf: seq<byte>) | Unrecognised(buf: seq<byte>)

  // How many bytes a schedule from `i` on brings to a buffer of `n` that wants `cap`, of a
  // stream of `total`.
  function Supplied(cap: nat, total: nat, n: nat, schedule: seq<Arrival>, i: nat): (m: nat)
    requires n <= total && i <= |schedule|
    ensures n <= m <= total && (n < cap ==> m <= cap) && (cap <= n ==> m == n)
    decreases |schedule| - i
  {
    if n >= cap || i == |schedule| || !schedule[i].Got? then n
    else
      var k := Least(Least(cap - n, schedule[i].n), total - n);
      if k == 0 then n else Supplied(cap, total, n + k, schedule, i + 1)
  }

  // The lengths of the buffer after each read that brought something.
  function Lengths(cap: nat, total: nat, n: nat, schedule: seq<Arrival>, i: nat): (lens: seq<nat>)
    requires n <= total && i <= |schedule|
    ensures forall j | 0 <= j < |lens| :: n < lens[j] <= total
    decreases |schedule| - i
  {
    if n >= cap || i == |schedule| || !schedule[i].Got? then []
    else
      var k := Least(Least(cap - n, schedule[i].n), total - n);
      if k == 0 then [] else [n + k] + Lengths(cap, total, n + k, schedule, i + 1)
  }

  // The reads end with an error, not by themselves, with a timeout or with a full buffer.
  predicate Fails(cap: nat, total: nat, n: nat, schedule: seq<Arrival>, i: nat)
    requires n <= total && i <= |schedule|
    decreases |schedule| - i
  {
    n < cap && i < |schedule| &&
    match schedule[i]
    case Failed => true
    case TimedOut => false
    case Got(arrived) =>
      var k := Least(Least(cap - n, arrived), total - n);
      k > 0 && Fails(cap, total, n + k, schedule, i + 1)
  }

  /** Bytes read past the handshake come before whatever the socket still holds. */
  class PrefixedStream {
    const inner: Socket
    const prefix: seq<byte>
    var off: nat

    ghost predicate Valid()
      reads this, inner
    {
      inner.Valid() && off <= |prefix|
    }

    function Contents(): seq<byte>
      reads this, inner
      requires Valid()
    {
      prefix[off..] + inner.Rest()
    }

    constructor (inner: Socket, prefix: seq<byte>)
      requires inner.Valid()
      ensures Valid() && this.inner == inner && this.prefix == prefix && off == 0
    {
      this.inner, this.prefix, off := inner, prefix, 0;
    }

    method PollRead(space: nat, arrived: nat) returns (data: seq<byte>)
      requires Valid()
      modifies this, inner
      ensures Valid() && data + Contents() == old(Contents())
      ensures |data| == if old(off) < |prefix| then Least(space, |prefix| - old(off))
                        else Least(Least(space, arrived), |old(inner.Rest())|)
      ensures old(off) < |prefix| ==> inner.Rest() == old(inner.Rest())
    {
      if off < |prefix| {
        var n := Least(space, |prefix| - off);
        data := prefix[off..off + n];
        off := off + n;
        assert data + prefix[off..] == old(prefix[off..]);
      } else {
        data := inner.Read(space, arrived);
      }
    }

    method IntoParts() returns (stream: Socket, extra: seq<byte>)
      requires Valid()
      ensures stream == inner && extra + stream.Rest() == Contents()
    {
      return inner, if off < |prefix| then prefix[off..] else [];
    }
  }

  // ---- Reading the init ------------------------------------------------------------------------

  lemma PrefixLooks(s: seq<byte>, n: nat)
    requires n <= |s|
    ensures IsHttpTransport(s[..n]) ==> IsHttpTransport(s)
    ensures LooksLikeTlsStream(s[..n]) ==> LooksLikeTlsStream(s)
  {
  }

  // The handshake `info` heads the stream `s` at its least offset, and what the prefixed
  // stream holds is everything after it.
  ghost predicate TakesOver(aes: BlockCipher, s: seq<byte>, info: HandshakeInfo, rest: seq<byte>)
  {
    var off := FindHandshakeOffset(aes, s);
    && off.Some?
    && Ok(info) == ParseDirectHandshake(aes, s[off.value..off.value + HANDSHAKE_LEN])
    && info.handshake + rest == s[off.value..]
  }

  predicate FoundWithin(aes: BlockCipher, s: seq<byte>, n: nat)
  {
    var off := FindHandshakeOffset(aes, s);
    off.Some? && off.value + HANDSHAKE_LEN <= n
  }

  // The window that parses in what has been read is the client's handshake.
  method TakeOver(aes: BlockCipher, stream: Socket, buf: seq<byte>, off: nat, ghost s: seq<byte>)
    returns (info: HandshakeInfo, out: PrefixedStream)
    requires Reads(stream, buf, s) && FindHandshakeOffset(aes, buf) == Some(off)
    ensures fresh(out) && out.inner == stream && out.Valid() && TakesOver(aes, s, info, out.Contents())
    ensures FoundWithin(aes, s, |buf|)
  {
    hide ParseDirectHandshake, FindHandshakeOffset;
    FoundInPrefix(aes, s, buf, off);
    var window := buf[off..off + HANDSHAKE_LEN];
    info := ParseDirectHandshake(aes, window).value;
    ParsedIsWhole(aes, window);
    out := new PrefixedStream(stream, buf[off + HANDSHAKE_LEN..]);
    CutWindow(buf, stream.Rest(), off, HANDSHAKE_LEN);
    assert out.Contents() == buf[off + HANDSHAKE_LEN..] + stream.Rest();
  }

  lemma FoundInPrefix(aes: BlockCipher, s: seq<byte>, buf: seq<byte>, off: nat)
    requires buf <= s && FindHandshakeOffset(aes, buf) == Some(off)
    ensures Parses(aes, buf, off) && FindHandshakeOffset(aes, s) == Some(off) && FoundWithin(aes, s, |buf|)
  {
    assert buf == s[..|buf|];
    OffsetIsStable(aes, s, |buf|);
  }

  lemma ParsedIsWhole(aes: BlockCipher, hs: seq<byte>)
    requires ParseDirectHandshake(aes, hs).Ok?
    ensures ParseDirectHandshake(aes, hs).value.handshake == hs
  {
    hide Crypt, KeystreamOf;
  }

  lemma CutWindow<T>(buf: seq<T>, rest: seq<T>, off: nat, k: nat)
    requires off + k <= |buf|
    ensures buf[off..off + k] == (buf + rest)[off..off + k]
    ensures buf[off..off + k] + (buf[off + k..] + rest) == (buf + rest)[off..]
  {
  }

  // Nothing more comes.
  lemma ComesToAnEnd(cap: nat, total: nat, n: nat, schedule: seq<Arrival>, i: nat)
    requires n <= total && i <= |schedule| && (n >= cap || i == |schedule| || !schedule[i].Got?)
    ensures Supplied(cap, total, n, schedule, i) == n && Lengths(cap, total, n, schedule, i) == []
    ensures Fails(cap, total, n, schedule, i) <==> n < cap && i < |schedule| && schedule[i].Failed?
  {
  }

  // One more read, or the end of the stream.
  lemma OneMoreRead(cap: nat, total: nat, n: nat, schedule: seq<Arrival>, i: nat)
    requires n <= total && i < |schedule| && n < cap && schedule[i].Got?
    ensures var k := Least(Least(cap - n, schedule[i].n), total - n);
            if k == 0 then
              && Supplied(cap, total, n, schedule, i) == n && Lengths(cap, total, n, schedule, i) == []
              && !Fails(cap, total, n, schedule, i)
            else
              && Supplied(cap, total, n, schedule, i) == Supplied(cap, total, n + k, schedule, i + 1)
              && Lengths(cap, total, n, schedule, i) == [n + k] + Lengths(cap, total, n + k, schedule, i + 1)
              && (Fails(cap, total, n, schedule, i) <==> Fails(cap, total, n + k, schedule, i + 1))
  {
  }

  // One read of what has arrived, into the room there is.
  method ReadMore(stream: Socket, cap: nat, buf: seq<byte>, schedule: seq<Arrival>, i: nat, ghost s: seq<byte>)
    returns (data: seq<byte>)
    requires Reads(stream, buf, s) && |buf| <= |s| && |buf| < cap && i < |schedule| && schedule[i].Got?
    modifies stream
    ensures Reads(stream, buf + data, s) && |buf + data| <= cap && |buf + data| <= |s|
    ensures var n, m := |buf|, |buf + data|;
            if data == [] then
              && Supplied(cap, |s|, n, schedule, i) == n && Lengths(cap, |s|, n, schedule, i) == []
              && !Fails(cap, |s|, n, schedule, i)
            else
              && Supplied(cap, |s|, n, schedule, i) == Supplied(cap, |s|, m, schedule, i + 1)
              && Lengths(cap, |s|, n, schedule, i) == [m] + Lengths(cap, |s|, m, schedule, i + 1)
              && (Fails(cap, |s|, n, schedule, i) <==> Fails(cap, |s|, m, schedule, i + 1))
  {
    OneMoreRead(cap, |s|, |buf|, schedule, i);
    hide Supplied, Lengths, Fails, Least;
    data := stream.Read(cap - |buf|, schedule[i].n);
    LeastWithin(cap - |buf|, schedule[i].n, |s| - |buf|);
    ConcatAssociates(buf, data, stream.Rest());
  }

  lemma LeastWithin(a: nat, b: nat, c: nat)
    ensures Least(Least(a, b), c) <= a && Least(Least(a, b), c) <= c
  {
  }

  // What the bytes read so far amount to: HTTP goes before TLS, and both before a handshake.
  datatype Kind = HttpRequest | TlsRecord | Direct | Undecided

  function KindOf(aes: BlockCipher, head: seq<byte>): Kind
  {
    if IsHttpTransport(head) && HasCompleteHttpHeaders(head) then HttpRequest
    else if LooksLikeTlsStream(head) then TlsRecord
    else if FindHandshakeOffset(aes, head).Some? then Direct
    else Undecided
  }

  // None asks for more.
  method Classify(aes: BlockCipher, stream: Socket, buf: seq<byte>, ghost s: seq<byte>) returns (r: Option<Init>)
    requires Reads(stream, buf, s)
    ensures match KindOf(aes, buf)
            case HttpRequest => r == Some(Http(buf))
            case TlsRecord => r == Some(Tls(buf))
            case Direct =>
              && r.Some? && r.value.Parsed? && fresh(r.value.stream) && r.value.stream.inner == stream
              && r.value.stream.Valid() && TakesOver(aes, s, r.value.info, r.value.stream.Contents())
            case Undecided => r == None
  {
    hide FindHandshakeOffset, TakesOver, FoundWithin, ParseDirectHandshake, IsHttpTransport, LooksLikeTlsStream,
         HasCompleteHttpHeaders;
    if IsHttpTransport(buf) && HasCompleteHttpHeaders(buf) {
      return Some(Http(buf));
    }
    if LooksLikeTlsStream(buf) {
      return Some(Tls(buf));
    }
    var found := FindHandshakeOffset(aes, buf);
    if found.Some? {
      var info, out := TakeOver(aes, stream, buf, found.value, s);
      return Some(Parsed(info, out));
    }
    return None;
  }

  // The first `n` bytes do not decide.
  predicate OpenAt(aes: BlockCipher, s: seq<byte>, n: nat)
    requires n <= |s|
  {
    KindOf(aes, s[..n]).Undecided?
  }

  // The first of these lengths at which the stream is decided.
  function FirstDecided(aes: BlockCipher, s: seq<byte>, lens: seq<nat>): (r: Option<nat>)
    requires forall j | 0 <= j < |lens| :: lens[j] <= |s|
    ensures r.None? <==> forall j | 0 <= j < |lens| :: OpenAt(aes, s, lens[j])
    ensures r.Some? ==> exists j | 0 <= j < |lens| ::
              && r.value == lens[j] && !OpenAt(aes, s, lens[j])
              && forall i | 0 <= i < j :: OpenAt(aes, s, lens[i])
  {
    if lens == [] then None
    else if !OpenAt(aes, s, lens[0]) then Some(lens[0])
    else FirstDecided(aes, s, lens[1..])
  }

  lemma FoundStays(aes: BlockCipher, s: seq<byte>, n: nat, m: nat)
    requires FoundWithin(aes, s, n) && n <= m
    ensures FoundWithin(aes, s, m)
  {
    hide FindHandshakeOffset;
  }

  // ---- The rest of an HTTP request -------------------------------------------------------

  // How much of the stream its request takes, as far as the buffer may grow; zero when the
  // headers state no length.
  function Wanted(s: seq<byte>, limit: nat): nat
  {
    match HttpHost.Find(s, BLANK_LINE)
    case None => 0
    case Some(i) =>
      match ContentLength.Stated(s[..i + 4], limit)
      case None => 0
      case Some(n) => Least(i + 4 + n, INIT_READ_MAX)
  }

  // Once the headers are there, more bytes do not change it.
  lemma WantedIsStable(s: seq<byte>, n: nat, limit: nat)
    requires n <= |s| && HasCompleteHttpHeaders(s[..n])
    ensures Wanted(s[..n], limit) == Wanted(s, limit)
  {
    hide HttpHost.Find, HttpHost.MatchAt, ContentLength.Stated;
    HttpHost.FindInHead(s, BLANK_LINE, n);
    var i := HttpHost.Find(s, BLANK_LINE).value;
    assert s[..n][..i + 4] == s[..i + 4];
  }

  method ReadFullHttpRequest(stream: Socket, head: seq<byte>, schedule: seq<Arrival>, limit: nat)
    returns (buf: seq<byte>, failed: bool)
    requires stream.Valid()
    modifies stream
    ensures stream.Valid() && head <= buf && buf + stream.Rest() == head + old(stream.Rest())
    ensures |buf| == Supplied(Wanted(head, limit), |head + old(stream.Rest())|, |head|, schedule, 0)
    ensures failed <==> Fails(Wanted(head, limit), |head + old(stream.Rest())|, |head|, schedule, 0)
  {
    hide HttpHost.Find, ContentLength.Stated, Supplied, Fails, Lengths, Least;
    ghost var s := head + stream.Rest();
    buf, failed := head, false;
    var end := HttpHost.Find(head, BLANK_LINE);
    if end.None? {
      ComesToAnEnd(0, |s|, |head|, schedule, 0);
      return;
    }
    var length := ContentLength.ParseContentLength(head[..end.value + 4], limit);
    if length.None? {
      ComesToAnEnd(0, |s|, |head|, schedule, 0);
      return;
    }
    var total := Least(end.value + 4 + length.value, INIT_READ_MAX);
    assert total == Wanted(head, limit);
    var i := 0;
    while |buf| < total && i < |schedule|
      invariant i <= |schedule| && stream.Valid() && head <= buf
      invariant buf + stream.Rest() == s
      invariant Supplied(total, |s|, |buf|, schedule, i) == Supplied(total, |s|, |head|, schedule, 0)
      invariant Fails(total, |s|, |buf|, schedule, i) <==> Fails(total, |s|, |head|, schedule, 0)
    {
      if !schedule[i].Got? {
        ComesToAnEnd(total, |s|, |buf|, schedule, i);
      }
      if schedule[i].TimedOut? {
        break;
      }
      if schedule[i].Failed? {
        return buf, true;
      }
      var data := ReadMore(stream, total, buf, schedule, i, s);
      if data == [] {
        break;
      }
      buf := buf + data;
      i := i + 1;
    }
    if |buf| >= total || i == |schedule| {
      ComesToAnEnd(total, |s|, |buf|, schedule, i);
    }
  }

  lemma {:induction false} SuppliedAll(cap: nat, total: nat, n: nat, schedule: seq<Arrival>, i: nat)
    requires n <= total && i <= |schedule| && cap <= n + |schedule| - i
    requires forall j | i <= j < |schedule| :: schedule[j].Got? && schedule[j].n > 0
    ensures Supplied(cap, total, n, schedule, i) == if cap <= n then n else Least(cap, total)
    decreases |schedule| - i
  {
    if n < cap {
      var k := Least(Least(cap - n, schedule[i].n), total - n);
      if k > 0 {
        SuppliedAll(cap, total, n + k, schedule, i + 1);
      }
    }
  }

  // ---- The whole reading -------------------------------------------------------------------

  // What decides among the reads from `i` on, with `n` bytes read before them.
  ghost function Decides(aes: BlockCipher, s: seq<byte>, schedule: seq<Arrival>, n: nat, i: nat): Option<nat>
    requires n <= |s| && i <= |schedule|
  {
    FirstDecided(aes, s, Lengths(INIT_READ_MAX, |s|, n, schedule, i))
  }

  // The request is read on from the bytes in hand.
  ghost predicate ReadsOn(s: seq<byte>, n: nat, body: seq<Arrival>, limit: nat, r: Init)
    requires n <= |s|
  {
    var wanted := Wanted(s[..n], limit);
    var request := s[..Supplied(wanted, |s|, n, body, 0)];
    if Fails(wanted, |s|, n, body, 0) then r == ReadError(request) else r == Http(request)
  }

  ghost predicate AnswersAt(aes: BlockCipher, s: seq<byte>, n: nat, body: seq<Arrival>, limit: nat, r: Init)
    requires n <= |s|
  {
    match KindOf(aes, s[..n])
    case HttpRequest => ReadsOn(s, n, body, limit, r)
    case TlsRecord => r == Tls(s[..n])
    case Direct => r.Parsed?
    case Undecided => false
  }

  ghost predicate AnswersNothing(s: seq<byte>, schedule: seq<Arrival>, r: Init)
  {
    var all := s[..Supplied(INIT_READ_MAX, |s|, 0, schedule, 0)];
    if Fails(INIT_READ_MAX, |s|, 0, schedule, 0) then r == ReadError(all) else r == Unrecognised(all)
  }

  // What the schedule makes of the stream. The first read that decides, decides; a request is
  // read on from there.
  ghost predicate Answers(aes: BlockCipher, s: seq<byte>, schedule: seq<Arrival>, body: seq<Arrival>, limit: nat,
                          r: Init)
  {
    match Decides(aes, s, schedule, 0, 0)
    case None => AnswersNothing(s, schedule, r)
    case Some(n) => n <= |s| && AnswersAt(aes, s, n, body, limit, r)
  }

  // Nothing is decided by the first `i` reads, which brought `n` bytes.
  ghost predicate StillOpen(aes: BlockCipher, s: seq<byte>, schedule: seq<Arrival>, n: nat, i: nat)
    requires n <= |s| && i <= |schedule|
  {
    && Decides(aes, s, schedule, 0, 0) == Decides(aes, s, schedule, n, i)
    && Supplied(INIT_READ_MAX, |s|, 0, schedule, 0) == Supplied(INIT_READ_MAX, |s|, n, schedule, i)
    && (Fails(INIT_READ_MAX, |s|, 0, schedule, 0) <==> Fails(INIT_READ_MAX, |s|, n, schedule, i))
  }

  lemma HeadOf(stream: Socket, buf: seq<byte>, s: seq<byte>)
    requires Reads(stream, buf, s)
    ensures |buf| <= |s| && buf == s[..|buf|]
  {
  }

  lemma OpenOrDecided(aes: BlockCipher, s: seq<byte>, schedule: seq<Arrival>, n: nat, m: nat, i: nat)
    requires n < m <= |s| && i < |schedule| && StillOpen(aes, s, schedule, n, i)
    requires Supplied(INIT_READ_MAX, |s|, n, schedule, i) == Supplied(INIT_READ_MAX, |s|, m, schedule, i + 1)
    requires Lengths(INIT_READ_MAX, |s|, n, schedule, i) == [m] + Lengths(INIT_READ_MAX, |s|, m, schedule, i + 1)
    requires Fails(INIT_READ_MAX, |s|, n, schedule, i) <==> Fails(INIT_READ_MAX, |s|, m, schedule, i + 1)
    ensures if KindOf(aes, s[..m]).Undecided? then StillOpen(aes, s, schedule, m, i + 1)
            else Decides(aes, s, schedule, 0, 0) == Some(m)
  {
    hide KindOf, Lengths, Supplied, Fails;
    assert ([m] + Lengths(INIT_READ_MAX, |s|, m, schedule, i + 1))[1..]
        == Lengths(INIT_READ_MAX, |s|, m, schedule, i + 1);
  }

  lemma DecidedAnswers(aes: BlockCipher, s: seq<byte>, schedule: seq<Arrival>, body: seq<Arrival>, limit: nat, n: nat,
                       r: Init)
    requires n <= |s| && Decides(aes, s, schedule, 0, 0) == Some(n) && AnswersAt(aes, s, n, body, limit, r)
    ensures Answers(aes, s, schedule, body, limit, r)
  {
    hide Decides, AnswersAt;
  }

  // The reads are over and nothing is decided.
  lemma NothingDecided(aes: BlockCipher, s: seq<byte>, schedule: seq<Arrival>, n: nat, i: nat, body: seq<Arrival>,
                       limit: nat)
    requires n <= |s| && i <= |schedule| && StillOpen(aes, s, schedule, n, i)
    requires Lengths(INIT_READ_MAX, |s|, n, schedule, i) == [] && Supplied(INIT_READ_MAX, |s|, n, schedule, i) == n
    ensures Answers(aes, s, schedule, body, limit,
                    if Fails(INIT_READ_MAX, |s|, n, schedule, i) then ReadError(s[..n]) else Unrecognised(s[..n]))
  {
    hide Lengths, Supplied, Fails, KindOf;
  }

  // What is read of a request after its headers.
  method FinishRequest(stream: Socket, head: seq<byte>, body: seq<Arrival>, limit: nat, ghost s: seq<byte>)
    returns (r: Init)
    requires Reads(stream, head, s)
    modifies stream
    ensures |head| <= |s| && ReadsOn(s, |head|, body, limit, r)
    ensures !r.Parsed? && Reads(stream, r.buf, s)
  {
    hide Wanted, Supplied, Fails;
    HeadOf(stream, head, s);
    var buf, failed := ReadFullHttpRequest(stream, head, body, limit);
    assert buf == s[..|buf|];
    return if failed then ReadError(buf) else Http(buf);
  }

  method ReadInitBuffer(aes: BlockCipher, stream: Socket, schedule: seq<Arrival>, body: seq<Arrival>, limit: nat)
    returns (r: Init)
    requires stream.Valid()
    modifies stream
    ensures Answers(aes, old(stream.Rest()), schedule, body, limit, r)
    ensures if r.Parsed? then
              && fresh(r.stream) && r.stream.inner == stream && r.stream.Valid()
              && TakesOver(aes, old(stream.Rest()), r.info, r.stream.Contents())
            else Reads(stream, r.buf, old(stream.Rest()))
  {
    ghost var s := stream.Rest();
    var buf: seq<byte> := [];
    var i := 0;
    assert Reads(stream, buf, s);
    assert StillOpen(aes, s, schedule, 0, 0);
    hide *;
    while |buf| < INIT_READ_MAX && i < |schedule|
      invariant i <= |schedule| && |buf| <= |s| && Reads(stream, buf, s)
      invariant StillOpen(aes, s, schedule, |buf|, i)
      decreases |schedule| - i
    {
      hide *;
      HeadOf(stream, buf, s);
      if schedule[i].TimedOut? {
        break;
      }
      if schedule[i].Failed? {
        ComesToAnEnd(INIT_READ_MAX, |s|, |buf|, schedule, i);
        NothingDecided(aes, s, schedule, |buf|, i, body, limit);
        return ReadError(buf);
      }
      var data := ReadMore(stream, INIT_READ_MAX, buf, schedule, i, s);
      if data == [] {
        NothingDecided(aes, s, schedule, |buf|, i, body, limit);
        assert buf + data == buf;
        return Unrecognised(buf);
      }
      OpenOrDecided(aes, s, schedule, |buf|, |buf + data|, i);
      buf := buf + data;
      i := i + 1;
      HeadOf(stream, buf, s);
      var init := Classify(aes, stream, buf, s);
      if init.Some? {
        r := init.value;
        if r.Http? {
          r := FinishRequest(stream, buf, body, limit, s);
        }
        KindDecides(aes, s, |buf|, body, limit, r);
        DecidedAnswers(aes, s, schedule, body, limit, |buf|, r);
        return;
      }
    }
    hide *;
    HeadOf(stream, buf, s);
    ComesToAnEnd(INIT_READ_MAX, |s|, |buf|, schedule, i);
    NothingDecided(aes, s, schedule, |buf|, i, body, limit);
    return Unrecognised(buf);
  }

  lemma KindDecides(aes: BlockCipher, s: seq<byte>, n: nat, body: seq<Arrival>, limit: nat, r: Init)
    requires n <= |s|
    requires match KindOf(aes, s[..n])
             case HttpRequest => ReadsOn(s, n, body, limit, r)
             case TlsRecord => r == Tls(s[..n])
             case Direct => r.Parsed?
             case Undecided => false
    ensures AnswersAt(aes, s, n, body, limit, r)
  {
    hide KindOf, ReadsOn;
  }

  // Reads of any sizes, one after another.
  method ReadOn(stream: PrefixedStream, sizes: seq<(nat, nat)>) returns (delivered: seq<byte>)
    requires stream.Valid()
    modifies stream, stream.inner
    ensures stream.Valid() && delivered + stream.Contents() == old(stream.Contents())
  {
    delivered := [];
    for i := 0 to |sizes|
      invariant stream.Valid() && delivered + stream.Contents() == old(stream.Contents())
    {
      var data := stream.PollRead(sizes[i].0, sizes[i].1);
      ConcatAssociates(delivered, data, stream.Contents());
      delivered := delivered + data;
    }
  }

  // Reading with room until a read delivers nothing: what every caller takes for the end.
  // While bytes of the socket are there when they are asked for, it is the end of them all.
  method ReadToEnd(stream: PrefixedStream, room: nat -> nat, arrivals: nat -> nat) returns (delivered: seq<byte>)
    requires stream.Valid() && forall i :: room(i) > 0 && arrivals(i) > 0
    modifies stream, stream.inner
    ensures stream.Valid() && delivered == old(stream.Contents()) && stream.Contents() == []
  {
    delivered := [];
    var i, more := 0, true;
    while more
      invariant stream.Valid() && delivered + stream.Contents() == old(stream.Contents())
      invariant !more ==> stream.Contents() == []
      decreases |stream.Contents()|, more
    {
      var data := stream.PollRead(room(i), arrivals(i));
      ConcatAssociates(delivered, data, stream.Contents());
      delivered := delivered + data;
      more := data != [];
      i := i + 1;
    }
  }

  // No byte lost or repeated: the handshake, what the relay then read in pieces of any size,
  // what it hands back at the end and what the socket still holds are the client's stream
  // from the handshake on.
  method ServeClient(aes: BlockCipher, stream: Socket, schedule: seq<Arrival>, body: seq<Arrival>, limit: nat,
                     sizes: seq<(nat, nat)>)
    returns (init: Init, delivered: seq<byte>, extra: seq<byte>)
    requires stream.Valid()
    modifies stream
    ensures stream.Valid() && Answers(aes, old(stream.Rest()), schedule, body, limit, init)
    ensures var s := old(stream.Rest());
            init.Parsed? ==>
              && FindHandshakeOffset(aes, s).Some?
              && init.info.handshake + (delivered + (extra + stream.Rest()))
                 == s[FindHandshakeOffset(aes, s).value..]
  {
    hide FindFrom, ParseDirectHandshake, FindHandshakeOffset, Answers;
    init := ReadInitBuffer(aes, stream, schedule, body, limit);
    delivered, extra := [], [];
    if init.Parsed? {
      delivered := ReadOn(init.stream, sizes);
      var inner;
      inner, extra := init.stream.IntoParts();
    }
  }

  // ---- What the reading comes to -----------------------------------------------------------

  // The recognisers look at the very start, and for a blank line anywhere.
  lemma LooksExactly(s: seq<byte>)
    ensures IsHttpTransport(s) <==> HttpText(s)
    ensures LooksLikeTlsStream(s) <==> TlsBytes(s)
    ensures HasCompleteHttpHeaders(s) <==> BlankLineIn(s)
  {
    StartsExactly(s);
    hide IsHttpTransport, HttpHost.MatchAt, HoldsAt;
    if HasCompleteHttpHeaders(s) {
      BlankLineAt(s, HttpHost.Find(s, BLANK_LINE).value);
    }
    if k: nat :| HoldsAt(s, "\r\n\r\n", k) {
      BlankLineAt(s, k);
    }
  }

  predicate HttpText(s: seq<byte>)
  {
    || StartsWith(s, "POST") || StartsWith(s, "HEAD") || StartsWith(s, "OPTIONS")
    || (StartsWith(s, "GET") && |s| > 3)
  }

  ghost predicate BlankLineIn(s: seq<byte>)
  {
    exists k: nat :: HoldsAt(s, "\r\n\r\n", k)
  }

  predicate TlsBytes(s: seq<byte>)
  {
    |s| >= 2 && (s[..2] == [22, 3] || s[..2] == [23, 3])
  }

  // What decides, told by the bytes: a request line and a blank line, else the head of a TLS
  // record, else a window that parses.
  lemma KindExactly(aes: BlockCipher, s: seq<byte>)
    ensures KindOf(aes, s).HttpRequest? <==> HttpText(s) && BlankLineIn(s)
    ensures KindOf(aes, s).TlsRecord? <==> !(HttpText(s) && BlankLineIn(s)) && TlsBytes(s)
    ensures KindOf(aes, s).Direct? <==>
            !(HttpText(s) && BlankLineIn(s)) && !TlsBytes(s) && exists off: nat :: Parses(aes, s, off)
  {
    LooksExactly(s);
    hide IsHttpTransport, HasCompleteHttpHeaders, LooksLikeTlsStream, Parses, HttpText, BlankLineIn, TlsBytes;
    var found := FindHandshakeOffset(aes, s);
    if found.Some? {
      assert Parses(aes, s, found.value);
    }
  }

  predicate HoldsAt(s: seq<byte>, text: string, k: nat)
  {
    k <= |s| && StartsWith(s[k..], text)
  }

  lemma BlankLineAt(s: seq<byte>, k: nat)
    ensures HttpHost.MatchAt(s, BLANK_LINE, k) <==> HoldsAt(s, "\r\n\r\n", k)
  {
    var text := "\r\n\r\n";
    assert |text| == 4;
    if k + 4 <= |s| {
      var t := s[k..];
      assert forall j | 0 <= j < 4 :: t[j] == s[k + j];
      assert t[0] == s[k + 0] && t[1] == s[k + 1] && t[2] == s[k + 2] && t[3] == s[k + 3];
      assert text[0] as int == BLANK_LINE[0] && text[1] as int == BLANK_LINE[1]
          && text[2] as int == BLANK_LINE[2] && text[3] as int == BLANK_LINE[3];
    }
  }

  lemma StartsExactly(s: seq<byte>)
    ensures IsHttpTransport(s) <==> HttpText(s)
  {
    assert POST <= s <==> StartsWith(s, "POST");
    assert HEAD <= s <==> StartsWith(s, "HEAD");
    assert OPTIONS <= s <==> StartsWith(s, "OPTIONS");
    assert GET <= s <==> StartsWith(s, "GET");
  }

  lemma {:induction false} LengthsWithin(cap: nat, total: nat, n: nat, schedule: seq<Arrival>, i: nat)
    requires n <= total && i <= |schedule|
    ensures var lens := Lengths(cap, total, n, schedule, i);
            && (forall j | 0 <= j < |lens| :: lens[j] <= Supplied(cap, total, n, schedule, i))
            && Supplied(cap, total, n, schedule, i) == if lens == [] then n else lens[|lens| - 1]
    decreases |schedule| - i
  {
    hide Least;
    if n < cap && i < |schedule| && schedule[i].Got? {
      var k := Least(Least(cap - n, schedule[i].n), total - n);
      LeastWithin(cap - n, schedule[i].n, total - n);
      if k > 0 {
        LengthsWithin(cap, total, n + k, schedule, i + 1);
      }
    }
  }

  function SumOf(schedule: seq<Arrival>, i: nat, j: nat): nat
    requires i <= j <= |schedule|
    decreases j - i
  {
    if i == j then 0 else (if schedule[i].Got? then schedule[i].n else 0) + SumOf(schedule, i + 1, j)
  }

  // After each read the buffer holds the sum of what came, as far as there is room and as the
  // stream goes.
  lemma {:induction false} ReadsExactly(cap: nat, total: nat, n: nat, schedule: seq<Arrival>, i: nat, j: nat)
    requires n <= total && n <= cap && i <= |schedule| && j < |Lengths(cap, total, n, schedule, i)|
    ensures i + j < |schedule| && schedule[i + j].Got? && schedule[i + j].n > 0
    ensures Lengths(cap, total, n, schedule, i)[j] == Least(Least(cap, total), n + SumOf(schedule, i, i + j + 1))
    decreases j
  {
    assert n < cap && i < |schedule| && schedule[i].Got?;
    var k := Least(Least(cap - n, schedule[i].n), total - n);
    OneMoreRead(cap, total, n, schedule, i);
    hide Lengths;
    if j == 0 {
      SumSplits(schedule, i, i + 1);
      assert SumOf(schedule, i + 1, i + 1) == 0;
    } else {
      ReadsExactly(cap, total, n + k, schedule, i + 1, j - 1);
      RoomLeft(cap, total, n + k, schedule, i + 1);
      SumSplits(schedule, i, i + j + 1);
      hide SumOf;
    }
  }

  lemma RoomLeft(cap: nat, total: nat, n: nat, schedule: seq<Arrival>, i: nat)
    requires n <= total && n <= cap && i <= |schedule| && Lengths(cap, total, n, schedule, i) != []
    ensures n < Least(cap, total)
  {
  }

  lemma SumSplits(schedule: seq<Arrival>, i: nat, j: nat)
    requires i < j <= |schedule| && schedule[i].Got?
    ensures SumOf(schedule, i, j) == schedule[i].n + SumOf(schedule, i + 1, j)
  {
  }

  // The reads stop when the buffer is full, when the stream is over, and at the first wait
  // that brings nothing.
  lemma {:induction false} ReadsEnd(cap: nat, total: nat, n: nat, schedule: seq<Arrival>, i: nat)
    requires n <= total && n <= cap && i <= |schedule|
    ensures var stop := i + |Lengths(cap, total, n, schedule, i)|;
            && stop <= |schedule|
            && (Supplied(cap, total, n, schedule, i) < Least(cap, total) && stop < |schedule| ==>
                  !schedule[stop].Got? || schedule[stop].n == 0)
    ensures Fails(cap, total, n, schedule, i) <==>
            var stop := i + |Lengths(cap, total, n, schedule, i)|;
            Supplied(cap, total, n, schedule, i) < cap && stop < |schedule| && schedule[stop].Failed?
    decreases |schedule| - i
  {
    if n < cap && i < |schedule| && schedule[i].Got? {
      var k := Least(Least(cap - n, schedule[i].n), total - n);
      if k > 0 {
        ReadsEnd(cap, total, n + k, schedule, i + 1);
      }
    }
  }

  // A stream that starts neither like HTTP nor like TLS is taken over exactly when the bytes
  // that come hold its handshake.
  lemma FoundExactly(aes: BlockCipher, s: seq<byte>, schedule: seq<Arrival>, body: seq<Arrival>, limit: nat, r: Init)
    requires Answers(aes, s, schedule, body, limit, r) && !IsHttpTransport(s) && !LooksLikeTlsStream(s)
    ensures r.Parsed? <==> FoundWithin(aes, s, Supplied(INIT_READ_MAX, |s|, 0, schedule, 0))
  {
    hide FindHandshakeOffset, IsHttpTransport, LooksLikeTlsStream, HasCompleteHttpHeaders, Lengths, Supplied, Fails,
         Wanted, FoundWithin;
    var lens, m := Lengths(INIT_READ_MAX, |s|, 0, schedule, 0), Supplied(INIT_READ_MAX, |s|, 0, schedule, 0);
    LengthsWithin(INIT_READ_MAX, |s|, 0, schedule, 0);
    match Decides(aes, s, schedule, 0, 0)
    case Some(n) =>
      DirectExactly(aes, s, n);
      FoundStays(aes, s, n, m);
    case None =>
      DirectExactly(aes, s, m);
      if lens == [] {
        NothingInNothing(aes, s);
      }
  }

  lemma NothingInNothing(aes: BlockCipher, s: seq<byte>)
    ensures !FoundWithin(aes, s, 0)
  {
  }

  lemma DirectExactly(aes: BlockCipher, s: seq<byte>, n: nat)
    requires n <= |s| && !IsHttpTransport(s) && !LooksLikeTlsStream(s)
    ensures match KindOf(aes, s[..n])
            case HttpRequest => false
            case TlsRecord => false
            case Direct => FoundWithin(aes, s, n)
            case Undecided => !FoundWithin(aes, s, n)
  {
    hide FindHandshakeOffset, IsHttpTransport, LooksLikeTlsStream, HasCompleteHttpHeaders;
    PrefixLooks(s, n);
    OffsetIsStable(aes, s, n);
  }

  // The headers end with the blank line at `k`, and state this length.
  predicate HeadersEnd(s: seq<byte>, k: nat, limit: nat, length: Option<nat>)
  {
    && HoldsAt(s, "\r\n\r\n", k) && k + 4 <= |s| && (forall j: nat | j < k :: !HoldsAt(s, "\r\n\r\n", j))
    && ContentLength.Stated(s[..k + 4], limit) == length
  }

  lemma WantedExactly(s: seq<byte>, k: nat, limit: nat, length: Option<nat>)
    requires HeadersEnd(s, k, limit, length)
    ensures Wanted(s, limit) == if length.None? then 0 else Least(k + 4 + length.value, 4096)
  {
    hide HttpHost.MatchAt, HoldsAt, ContentLength.Stated;
    BlankLineAt(s, k);
    var found := HttpHost.Find(s, BLANK_LINE);
    if found.Some? {
      BlankLineAt(s, found.value);
    }
  }

  // What is handed on as a request goes as far as the bytes in hand when the headers were
  // whole, or on to the end of the body the headers state, or to the 4096th byte if that comes
  // first: never beyond, and all the way if every wait brings bytes, as far as the client
  // sends them.
  lemma WholeRequest(aes: BlockCipher, s: seq<byte>, schedule: seq<Arrival>, body: seq<Arrival>, limit: nat, r: Init,
                     k: nat, length: Option<nat>)
    requires Answers(aes, s, schedule, body, limit, r) && r.Http? && HeadersEnd(s, k, limit, length)
    ensures r.buf <= s && Decides(aes, s, schedule, 0, 0).Some?
    ensures var n := Decides(aes, s, schedule, 0, 0).value;
            var end := if length.None? then 0 else Least(k + 4 + length.value, 4096);
            && k + 4 <= n <= |r.buf| && (|r.buf| == n || |r.buf| <= end)
            && (|body| >= 4096 && (forall j | 0 <= j < |body| :: body[j].Got? && body[j].n > 0) ==>
                  |r.buf| == if end <= n then n else Least(end, |s|))
  {
    hide Wanted, KindOf, Supplied, Fails, Least, HeadersEnd;
    var n := Decides(aes, s, schedule, 0, 0).value;
    HttpIsWhole(aes, s, n);
    EndsWithin(s, k, limit, length, n);
    WantedIsStable(s, n, limit);
    WantedExactly(s, k, limit, length);
    WantedFits(s, limit);
    if |body| >= 4096 && forall j | 0 <= j < |body| :: body[j].Got? && body[j].n > 0 {
      SuppliedAll(Wanted(s, limit), |s|, n, body, 0);
    }
  }

  lemma EndsWithin(s: seq<byte>, k: nat, limit: nat, length: Option<nat>, n: nat)
    requires HeadersEnd(s, k, limit, length) && n <= |s| && HasCompleteHttpHeaders(s[..n])
    ensures k + 4 <= n
  {
    hide HttpHost.MatchAt, HoldsAt, ContentLength.Stated;
    var found := HttpHost.Find(s[..n], BLANK_LINE).value;
    MatchInHead(s, n, found);
    BlankLineAt(s, found);
  }

  lemma MatchInHead(s: seq<byte>, n: nat, i: nat)
    requires n <= |s| && HttpHost.MatchAt(s[..n], BLANK_LINE, i)
    ensures HttpHost.MatchAt(s, BLANK_LINE, i)
  {
    assert s[..n] + s[n..] == s;
    forall j | 0 <= j < 4 ensures HttpHost.LowerByte(s[i + j]) == BLANK_LINE[j] {
      assert s[..n][i + j] == s[i + j];
    }
  }

  lemma HttpIsWhole(aes: BlockCipher, s: seq<byte>, n: nat)
    requires n <= |s| && KindOf(aes, s[..n]).HttpRequest?
    ensures HasCompleteHttpHeaders(s[..n])
  {
  }

  lemma WantedFits(s: seq<byte>, limit: nat)
    ensures Wanted(s, limit) <= INIT_READ_MAX
  {
  }
}
