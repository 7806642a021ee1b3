/** The obfuscated2 handshake, the relay init and the relay's four cipher streams. */
module Mtproto {
  import opened Bytes
  import opened Ctr
  import opened Wrappers

  const HANDSHAKE_LEN: nat := 64
  const SKIP_LEN: nat := 8
  const PREKEY_LEN: nat := 32
  const IV_LEN: nat := 16
  const PROTO_TAG_POS: nat := 56

  const MAX_MTPROTO_PACKET: nat := 16 * 1024 * 1024 + 4
  const MAX_WS_PAYLOAD: nat := 16 * 1024 * 1024 + 64

  const PROTO_ABRIDGED: nat := 0xEFEF_EFEF
  const PROTO_INTERMEDIATE: nat := 0xEEEE_EEEE
  const PROTO_PADDED_INTERMEDIATE: nat := 0xDDDD_DDDD

  const TAG_ABRIDGED: seq<byte> := [0xef, 0xef, 0xef, 0xef]
  const TAG_INTERMEDIATE: seq<byte> := [0xee, 0xee, 0xee, 0xee]
  const TAG_SECURE: seq<byte> := [0xdd, 0xdd, 0xdd, 0xdd]

  predicate KnownTag(tag: seq<byte>)
  {
    tag == TAG_ABRIDGED || tag == TAG_INTERMEDIATE || tag == TAG_SECURE
  }

  predicate KnownProto(proto: nat)
  {
    proto == PROTO_ABRIDGED || proto == PROTO_INTERMEDIATE || proto == PROTO_PADDED_INTERMEDIATE
  }

  function ProtoTagFor(proto: nat): (tag: seq<byte>)
    ensures KnownTag(tag)
  {
    if proto == PROTO_ABRIDGED then TAG_ABRIDGED
    else if proto == PROTO_INTERMEDIATE then TAG_INTERMEDIATE
    else TAG_SECURE
  }

  predicate ValidDc(dc: int)
  {
    1 <= dc <= 5 || dc == 203
  }

  function Abs(n: int): nat
  {
    if n < 0 then -n else n
  }

  // A two's-complement 16-bit number from its unsigned form, and back.
  type i16 = n: int | -0x8000 <= n < 0x8000

  function I16FromLe(s: seq<byte>): i16
    requires |s| == 2
  {
    assert Pow256(2) == 65536;
    var n := LeNat(s);
    if n < 0x8000 then n else n - 0x1_0000
  }

  function I16ToLe(n: i16): (s: seq<byte>)
    ensures |s| == 2 && I16FromLe(s) == n
  {
    assert Pow256(2) == 65536;
    LePut(n % 0x1_0000, 2)
  }

  // ---- Handshakes ---------------------------------------------------------------

  datatype HandshakeInfo = HandshakeInfo(
    dc: int, isMedia: bool, dcInPkt: bool, proto: nat, handshake: seq<byte>)

  datatype HandshakeError = BadLength(len: nat) | UnknownTag(tag: seq<byte>)

  // The keystream of the party that sent `init` ...
  function UpKs(aes: BlockCipher, init: seq<byte>): Keystream
    requires |init| >= PROTO_TAG_POS
  {
    KeystreamOf(aes, init[SKIP_LEN..SKIP_LEN + PREKEY_LEN],
                init[SKIP_LEN + PREKEY_LEN..SKIP_LEN + PREKEY_LEN + IV_LEN])
  }

  function Reversed<T>(s: seq<T>): (r: seq<T>)
    ensures |r| == |s|
    ensures forall i | 0 <= i < |s| :: r[i] == s[|s| - 1 - i]
  {
    if s == [] then [] else Reversed(s[1..]) + [s[0]]
  }

  // ... and of the party that answers it: key and iv reversed as one block.
  function DownKs(aes: BlockCipher, init: seq<byte>): Keystream
    requires |init| >= PROTO_TAG_POS
  {
    var rev := Reversed(init[SKIP_LEN..SKIP_LEN + PREKEY_LEN + IV_LEN]);
    KeystreamOf(aes, rev[..PREKEY_LEN], rev[PREKEY_LEN..])
  }

  // Byte by byte: the sender's key is bytes 8 to 39 and its iv bytes 40 to 55; the answering
  // key is bytes 55 down to 24 and its iv bytes 23 down to 8.
  lemma KeysOf(aes: BlockCipher, init: seq<byte>)
    requires |init| >= PROTO_TAG_POS
    ensures UpKs(aes, init) ==
            KeystreamOf(aes, seq(32, i requires 0 <= i < 32 => init[8 + i]),
                        seq(16, i requires 0 <= i < 16 => init[40 + i]))
    ensures DownKs(aes, init) ==
            KeystreamOf(aes, seq(32, i requires 0 <= i < 32 => init[55 - i]),
                        seq(16, i requires 0 <= i < 16 => init[23 - i]))
  {
    var rev := Reversed(init[8..56]);
    assert init[8..40] == seq(32, i requires 0 <= i < 32 => init[8 + i]);
    assert init[40..56] == seq(16, i requires 0 <= i < 16 => init[40 + i]);
    assert rev[..32] == seq(32, i requires 0 <= i < 32 => init[55 - i]);
    assert rev[32..] == seq(16, i requires 0 <= i < 16 => init[23 - i]);
  }

  function ParseDirectHandshake(aes: BlockCipher, hs: seq<byte>): Result<HandshakeInfo, HandshakeError>
  {
    if |hs| != HANDSHAKE_LEN then Err(BadLength(|hs|)) else
    var tail := Crypt(UpKs(aes, hs), PROTO_TAG_POS, hs[PROTO_TAG_POS..]);
    var tag := tail[..4];
    if !KnownTag(tag) then Err(UnknownTag(tag)) else
    var dcIdx := I16FromLe(tail[4..6]);
    var dc := Abs(dcIdx);
    var proto := if tag == TAG_ABRIDGED then PROTO_ABRIDGED
                 else if tag == TAG_INTERMEDIATE then PROTO_INTERMEDIATE
                 else PROTO_PADDED_INTERMEDIATE;
    Ok(if ValidDc(dc) then HandshakeInfo(dc, dcIdx < 0, true, proto, hs)
       else HandshakeInfo(0, false, false, proto, hs))
  }

  // The decrypted bytes behind the keys.
  function TailByte(aes: BlockCipher, hs: seq<byte>, i: nat): byte
    requires |hs| == HANDSHAKE_LEN && i < 8
  {
    Xor(hs[56 + i], UpKs(aes, hs)(56 + i))
  }

  // Four tag bytes that are all the same.
  predicate Repeats(aes: BlockCipher, hs: seq<byte>, b: byte)
    requires |hs| == HANDSHAKE_LEN
  {
    forall i | 0 <= i < 4 :: TailByte(aes, hs, i) == b
  }

  // A handshake parses if and only if its tag bytes decrypt to 0xef, 0xee or 0xdd four times
  // over; the protocol repeats that byte, and the two bytes behind them are the DC index.
  lemma ParsesExactly(aes: BlockCipher, hs: seq<byte>)
    ensures ParseDirectHandshake(aes, hs).Ok? <==>
            |hs| == 64 && (Repeats(aes, hs, 0xef) || Repeats(aes, hs, 0xee) || Repeats(aes, hs, 0xdd))
    ensures ParseDirectHandshake(aes, hs).Ok? ==>
              var info := ParseDirectHandshake(aes, hs).value;
              var n := TailByte(aes, hs, 4) as int + 0x100 * TailByte(aes, hs, 5) as int;
              var dc := if n < 0x8000 then n else 0x1_0000 - n;
              && (forall b: byte | Repeats(aes, hs, b) :: info.proto == b * 0x0101_0101)
              && info.handshake == hs && (info.dcInPkt <==> 1 <= dc <= 5 || dc == 203)
              && info.dc == (if info.dcInPkt then dc else 0) && (info.isMedia <==> info.dcInPkt && n >= 0x8000)
  {
    if |hs| == HANDSHAKE_LEN {
      var tail := Crypt(UpKs(aes, hs), PROTO_TAG_POS, hs[PROTO_TAG_POS..]);
      TailBytes(aes, hs);
      hide Crypt, UpKs, TailByte;
      RepeatsTag(aes, hs, tail);
      hide Repeats;
      TwoBytes(tail[4..6]);
    }
  }

  lemma TailBytes(aes: BlockCipher, hs: seq<byte>)
    requires |hs| == HANDSHAKE_LEN
    ensures var tail := Crypt(UpKs(aes, hs), PROTO_TAG_POS, hs[PROTO_TAG_POS..]);
            |tail| == 8 && forall i | 0 <= i < 8 :: tail[i] == TailByte(aes, hs, i)
  {
    hide UpKs;
  }

  lemma TwoBytes(s: seq<byte>)
    requires |s| == 2
    ensures LeNat(s) == s[0] as int + 0x100 * s[1] as int
  {
    assert s[1..] == [s[1]] && LeNat([s[1]]) == s[1];
  }

  lemma RepeatsTag(aes: BlockCipher, hs: seq<byte>, tail: seq<byte>)
    requires |hs| == HANDSHAKE_LEN && |tail| == 8
    requires forall i | 0 <= i < 8 :: tail[i] == TailByte(aes, hs, i)
    ensures forall b: byte :: Repeats(aes, hs, b) <==> tail[..4] == [b, b, b, b]
  {
    hide TailByte;
    forall b: byte ensures Repeats(aes, hs, b) <==> tail[..4] == [b, b, b, b] {
      var tag := tail[..4];
      if tag == [b, b, b, b] {
        forall i | 0 <= i < 4 ensures TailByte(aes, hs, i) == b {
          assert tag[i] == b;
        }
      }
    }
  }

  const RESERVED_STARTS: seq<seq<byte>> := [
    [0x48, 0x45, 0x41, 0x44],
    [0x50, 0x4F, 0x53, 0x54],
    [0x47, 0x45, 0x54, 0x20],
    [0xee, 0xee, 0xee, 0xee],
    [0xdd, 0xdd, 0xdd, 0xdd],
    [0x16, 0x03, 0x01, 0x02],
    [0, 0, 0, 0]
  ]

  predicate Acceptable(rnd: seq<byte>)
    requires |rnd| == HANDSHAKE_LEN
  {
    rnd[0] != 0xEF && rnd[..4] !in RESERVED_STARTS && rnd[4..8] != [0, 0, 0, 0]
  }

  // The bytes of a text.
  predicate StartsWith(s: seq<byte>, text: string)
  {
    |text| <= |s| && forall i | 0 <= i < |text| :: s[i] == text[i] as int
  }

  predicate AllAre(s: seq<byte>, b: byte)
  {
    forall x | x in s :: x == b
  }

  // A block is passed over exactly if it could be taken for other traffic: a plain transport
  // by its first byte or its first four, an HTTP request, a TLS record, or zeros.
  lemma AcceptableExactly(rnd: seq<byte>)
    requires |rnd| == HANDSHAKE_LEN
    ensures Acceptable(rnd) <==>
            && rnd[0] != 0xef && !AllAre(rnd[..4], 0xee) && !AllAre(rnd[..4], 0xdd)
            && !StartsWith(rnd, "HEAD") && !StartsWith(rnd, "POST") && !StartsWith(rnd, "GET ")
            && !(rnd[0] == 0x16 && rnd[1] == 3 && rnd[2] == 1 && rnd[3] == 2)
            && !AllAre(rnd[..4], 0) && !AllAre(rnd[4..8], 0)
  {
    FourBytes(rnd[..4], 0xee);
    FourBytes(rnd[..4], 0xdd);
    FourBytes(rnd[..4], 0);
    FourBytes(rnd[4..8], 0);
    var start := rnd[..4];
    assert start == [rnd[0], rnd[1], rnd[2], rnd[3]];
    hide AllAre;
    assert StartsWith(rnd, "HEAD") <==> start == [0x48, 0x45, 0x41, 0x44];
    assert StartsWith(rnd, "POST") <==> start == [0x50, 0x4F, 0x53, 0x54];
    assert StartsWith(rnd, "GET ") <==> start == [0x47, 0x45, 0x54, 0x20];
  }

  lemma FourBytes(s: seq<byte>, b: byte)
    requires |s| == 4
    ensures AllAre(s, b) <==> s == [b, b, b, b]
  {
    assert s == [s[0], s[1], s[2], s[3]];
    assert s[0] in s && s[1] in s && s[2] in s && s[3] in s;
  }

  // What a relay init is: the random block with its last eight bytes replaced by
  // the encryption of tag, DC index and the block's own last two bytes.
  function RelayInit(aes: BlockCipher, tag: seq<byte>, dcIdx: i16, rnd: seq<byte>): (init: seq<byte>)
    requires |tag| == 4 && |rnd| == HANDSHAKE_LEN
    ensures |init| == HANDSHAKE_LEN
  {
    rnd[..PROTO_TAG_POS] + Crypt(UpKs(aes, rnd), PROTO_TAG_POS, tag + I16ToLe(dcIdx) + rnd[62..])
  }

  /** `random` stands for the generator: the blocks it would return, in order. */
  method GenerateRelayInit(aes: BlockCipher, tag: seq<byte>, dcIdx: i16, random: seq<seq<byte>>)
    returns (init: Option<seq<byte>>)
    requires |tag| == 4
    requires forall rnd | rnd in random :: |rnd| == HANDSHAKE_LEN
    ensures init.None? <==> forall rnd | rnd in random :: !Acceptable(rnd)
    ensures init.Some? ==> exists k | 0 <= k < |random| ::
              && Acceptable(random[k])
              && (forall j | 0 <= j < k :: !Acceptable(random[j]))
              && init.value == RelayInit(aes, tag, dcIdx, random[k])
  {
    hide RelayInit;
    for k := 0 to |random|
      invariant forall j | 0 <= j < k :: !Acceptable(random[j])
    {
      var rnd := random[k];
      assert rnd in random;
      if rnd[0] == 0xEF || rnd[..4] in RESERVED_STARTS || rnd[4..8] == [0, 0, 0, 0] {
        continue;
      }
      var out := Overwrite(aes, tag, dcIdx, rnd);
      return Some(out);
    }
    assert forall rnd | rnd in random :: !Acceptable(rnd);
    return None;
  }

  // The block encrypted whole, and from that its tail.
  method Overwrite(aes: BlockCipher, tag: seq<byte>, dcIdx: i16, rnd: seq<byte>) returns (out: seq<byte>)
    requires |tag| == 4 && |rnd| == HANDSHAKE_LEN
    ensures out == RelayInit(aes, tag, dcIdx, rnd)
  {
    var stream := new CtrStream(aes, rnd[SKIP_LEN..SKIP_LEN + PREKEY_LEN],
                                rnd[SKIP_LEN + PREKEY_LEN..SKIP_LEN + PREKEY_LEN + IV_LEN]);
    var full := new byte[HANDSHAKE_LEN](i requires 0 <= i < |rnd| => rnd[i]);
    assert full[..] == rnd;
    ghost var ks := UpKs(aes, rnd);
    hide Crypt;
    stream.ApplyKeystream(full);
    assert full[..] == Crypt(ks, 0, rnd);
    var plain := tag + I16ToLe(dcIdx) + [rnd[62], rnd[63]];
    assert plain == tag + I16ToLe(dcIdx) + rnd[62..];
    out := OverwriteTail(ks, rnd, full[..], plain);
  }

  // The keystream is recovered from the encrypted block, byte by byte.
  method OverwriteTail(ghost ks: Keystream, rnd: seq<byte>, full: seq<byte>, plain: seq<byte>)
    returns (out: seq<byte>)
    requires |rnd| == HANDSHAKE_LEN && |plain| == 8 && full == Crypt(ks, 0, rnd)
    ensures out == rnd[..PROTO_TAG_POS] + Crypt(ks, PROTO_TAG_POS, plain)
  {
    out := rnd;
    for i := 0 to 8
      invariant |out| == HANDSHAKE_LEN
      invariant forall j | 0 <= j < PROTO_TAG_POS :: out[j] == rnd[j]
      invariant forall j | PROTO_TAG_POS <= j < PROTO_TAG_POS + i :: out[j] == Xor(plain[j - PROTO_TAG_POS], ks(j))
    {
      TailXor(plain[i], rnd[PROTO_TAG_POS + i], ks(PROTO_TAG_POS + i));
      out := out[PROTO_TAG_POS + i := Xor(Xor(plain[i], full[PROTO_TAG_POS + i]), rnd[PROTO_TAG_POS + i])];
    }
    ghost var want := rnd[..PROTO_TAG_POS] + Crypt(ks, PROTO_TAG_POS, plain);
    assert |out| == |want|;
    forall j | 0 <= j < HANDSHAKE_LEN
      ensures out[j] == want[j]
    {
      if j >= PROTO_TAG_POS {
        assert want[j] == Crypt(ks, PROTO_TAG_POS, plain)[j - PROTO_TAG_POS];
        assert PROTO_TAG_POS + (j - PROTO_TAG_POS) == j;
      }
    }
  }

  lemma TailXor(t: byte, r: byte, k: byte)
    ensures Xor(Xor(t, Xor(r, k)), r) == Xor(t, k)
  {
    XorNatAssociative(t, Xor(r, k), r);
    XorNatCommutes(Xor(r, k), r);
    XorNatAssociative(r, r, k);
    XorNatSelf(r);
  }

  lemma RelayInitKeepsKeys(aes: BlockCipher, tag: seq<byte>, dcIdx: i16, rnd: seq<byte>)
    requires |tag| == 4 && |rnd| == HANDSHAKE_LEN
    ensures var init := RelayInit(aes, tag, dcIdx, rnd);
            && Acceptable(init) == Acceptable(rnd)
            && UpKs(aes, init) == UpKs(aes, rnd)
            && DownKs(aes, init) == DownKs(aes, rnd)
  {
    var init := RelayInit(aes, tag, dcIdx, rnd);
    SameSlices(init, rnd, PROTO_TAG_POS, 0, 4);
    SameSlices(init, rnd, PROTO_TAG_POS, 4, 8);
    SameSlices(init, rnd, PROTO_TAG_POS, SKIP_LEN, SKIP_LEN + PREKEY_LEN);
    SameSlices(init, rnd, PROTO_TAG_POS, SKIP_LEN + PREKEY_LEN, SKIP_LEN + PREKEY_LEN + IV_LEN);
    SameSlices(init, rnd, PROTO_TAG_POS, SKIP_LEN, SKIP_LEN + PREKEY_LEN + IV_LEN);
  }

  lemma SameSlices(s: seq<byte>, t: seq<byte>, n: nat, lo: nat, hi: nat)
    requires lo <= hi <= n <= |s| && n <= |t|
    requires forall i | 0 <= i < n :: s[i] == t[i]
    ensures s[lo..hi] == t[lo..hi]
  {
  }

  // A relay init is its random block up to byte 55; behind that it decrypts to the tag, the
  // DC index in two bytes, low byte first, and the block's own last two bytes.
  lemma RelayInitSays(aes: BlockCipher, tag: seq<byte>, dcIdx: i16, rnd: seq<byte>)
    requires |tag| == 4 && |rnd| == HANDSHAKE_LEN
    ensures var init := RelayInit(aes, tag, dcIdx, rnd);
            var plain := Crypt(UpKs(aes, init), 0, init);
            && init[..56] == rnd[..56] && plain[56..60] == tag
            && plain[60] as int == dcIdx % 0x100 && plain[61] as int == (dcIdx / 0x100) % 0x100
            && plain[62..] == rnd[62..]
  {
    var init := RelayInit(aes, tag, dcIdx, rnd);
    var want := tag + I16ToLe(dcIdx) + rnd[62..];
    RelayInitKeepsKeys(aes, tag, dcIdx, rnd);
    var ks := UpKs(aes, rnd);
    CryptTwice(ks, PROTO_TAG_POS, want);
    CryptSlice(ks, 0, init, PROTO_TAG_POS, HANDSHAKE_LEN);
    assert init[PROTO_TAG_POS..HANDSHAKE_LEN] == Crypt(ks, PROTO_TAG_POS, want);
    var plain := Crypt(ks, 0, init);
    assert plain[56..64] == want;
    hide Crypt, UpKs, RelayInit;
    assert forall j | 0 <= j < 8 :: plain[56 + j] == plain[56..64][j];
    LowAndHigh(dcIdx);
  }

  lemma LowAndHigh(n: i16)
    ensures I16ToLe(n) == [n % 0x100, (n / 0x100) % 0x100]
  {
    var u := n % 0x1_0000;
    assert Pow256(1) == 256 && Pow256(2) == 65536;
    assert LePut(u, 2) == [u % 256] + LePut(u / 256, 1);
    assert LePut(u / 256, 1) == [u / 256 % 256] + LePut(u / 256 / 256, 0);
  }

  // Parsing a generated init gives back what was put in; a DC index that is not a
  // data centre reads as "no DC", for every one of the 65536 indices.
  lemma RelayInitRoundTrip(aes: BlockCipher, proto: nat, dcIdx: i16, rnd: seq<byte>)
    requires KnownProto(proto) && |rnd| == HANDSHAKE_LEN
    ensures var init := RelayInit(aes, ProtoTagFor(proto), dcIdx, rnd);
            var dc := Abs(dcIdx);
            ParseDirectHandshake(aes, init) ==
            Ok(HandshakeInfo(if ValidDc(dc) then dc else 0, ValidDc(dc) && dcIdx < 0, ValidDc(dc), proto, init))
  {
    var tag := ProtoTagFor(proto);
    var init := RelayInit(aes, tag, dcIdx, rnd);
    var plain := tag + I16ToLe(dcIdx) + rnd[62..];
    RelayInitKeepsKeys(aes, tag, dcIdx, rnd);
    assert init[PROTO_TAG_POS..] == Crypt(UpKs(aes, rnd), PROTO_TAG_POS, plain);
    CryptTwice(UpKs(aes, rnd), PROTO_TAG_POS, plain);
    assert plain[..4] == tag && plain[4..6] == I16ToLe(dcIdx);
  }

  // ---- The relay's cipher streams -------------------------------------------------

  /** Decrypts with `a`, re-encrypts with `b`. */
  method Recrypt(a: CtrStream, b: CtrStream, input: seq<byte>) returns (out: seq<byte>)
    requires a != b
    modifies a`pos, b`pos
    ensures out == Crypt(b.Ks(), old(b.pos), Crypt(a.Ks(), old(a.pos), input))
    ensures a.pos == old(a.pos) + |input| && b.pos == old(b.pos) + |input|
  {
    var buf := new byte[|input|](i requires 0 <= i < |input| => input[i]);
    assert buf[..] == input;
    a.ApplyKeystream(buf);
    b.ApplyKeystream(buf);
    out := buf[..];
  }

  method SkipHandshake(stream: CtrStream)
    modifies stream`pos
    ensures stream.pos == old(stream.pos) + HANDSHAKE_LEN
  {
    var zero64 := new byte[HANDSHAKE_LEN](_ => 0);
    stream.ApplyKeystream(zero64);
  }

  /** Client to Telegram. */
  class CryptoUp {
    const cltDec: CtrStream
    const tgEnc: CtrStream

    constructor (cltDec: CtrStream, tgEnc: CtrStream)
      ensures this.cltDec == cltDec && this.tgEnc == tgEnc
    {
      this.cltDec, this.tgEnc := cltDec, tgEnc;
    }

    method ClientToTelegram(input: seq<byte>) returns (out: seq<byte>)
      requires cltDec != tgEnc
      modifies cltDec`pos, tgEnc`pos
      ensures out == Crypt(tgEnc.Ks(), old(tgEnc.pos), Crypt(cltDec.Ks(), old(cltDec.pos), input))
      ensures cltDec.pos == old(cltDec.pos) + |input| && tgEnc.pos == old(tgEnc.pos) + |input|
    {
      out := Recrypt(cltDec, tgEnc, input);
    }
  }

  /** Telegram to client. */
  class CryptoDown {
    const tgDec: CtrStream
    const cltEnc: CtrStream

    constructor (tgDec: CtrStream, cltEnc: CtrStream)
      ensures this.tgDec == tgDec && this.cltEnc == cltEnc
    {
      this.tgDec, this.cltEnc := tgDec, cltEnc;
    }

    method TelegramToClient(input: seq<byte>) returns (out: seq<byte>)
      requires tgDec != cltEnc
      modifies tgDec`pos, cltEnc`pos
      ensures out == Crypt(cltEnc.Ks(), old(cltEnc.pos), Crypt(tgDec.Ks(), old(tgDec.pos), input))
      ensures tgDec.pos == old(tgDec.pos) + |input| && cltEnc.pos == old(cltEnc.pos) + |input|
    {
      out := Recrypt(tgDec, cltEnc, input);
    }
  }

  class CryptoCtx {
    const cltDec: CtrStream
    const cltEnc: CtrStream
    const tgEnc: CtrStream
    const tgDec: CtrStream

    /** Upstream ciphers start behind the 64 handshake bytes, downstream ones at zero. */
    constructor BuildDirect(aes: BlockCipher, handshake: seq<byte>, relayInit: seq<byte>)
      requires |handshake| >= PROTO_TAG_POS && |relayInit| >= PROTO_TAG_POS
      ensures fresh({cltDec, cltEnc, tgEnc, tgDec}) && |{cltDec, cltEnc, tgEnc, tgDec}| == 4
      ensures cltDec.Ks() == UpKs(aes, handshake) && cltDec.pos == HANDSHAKE_LEN
      ensures cltEnc.Ks() == DownKs(aes, handshake) && cltEnc.pos == 0
      ensures tgEnc.Ks() == UpKs(aes, relayInit) && tgEnc.pos == HANDSHAKE_LEN
      ensures tgDec.Ks() == DownKs(aes, relayInit) && tgDec.pos == 0
      ensures cltDec.key == seq(32, i requires 0 <= i < 32 => handshake[8 + i])
      ensures cltDec.iv == seq(16, i requires 0 <= i < 16 => handshake[40 + i])
      ensures cltEnc.key == seq(32, i requires 0 <= i < 32 => handshake[55 - i])
      ensures cltEnc.iv == seq(16, i requires 0 <= i < 16 => handshake[23 - i])
      ensures tgEnc.key == seq(32, i requires 0 <= i < 32 => relayInit[8 + i])
      ensures tgEnc.iv == seq(16, i requires 0 <= i < 16 => relayInit[40 + i])
      ensures tgDec.key == seq(32, i requires 0 <= i < 32 => relayInit[55 - i])
      ensures tgDec.iv == seq(16, i requires 0 <= i < 16 => relayInit[23 - i])
    {
      var rev := Reversed(handshake[SKIP_LEN..SKIP_LEN + PREKEY_LEN + IV_LEN]);
      var dec := new CtrStream(aes, handshake[SKIP_LEN..SKIP_LEN + PREKEY_LEN],
                               handshake[SKIP_LEN + PREKEY_LEN..SKIP_LEN + PREKEY_LEN + IV_LEN]);
      cltEnc := new CtrStream(aes, rev[..PREKEY_LEN], rev[PREKEY_LEN..]);
      SkipHandshake(dec);
      cltDec := dec;

      var relayRev := Reversed(relayInit[SKIP_LEN..SKIP_LEN + PREKEY_LEN + IV_LEN]);
      var enc := new CtrStream(aes, relayInit[SKIP_LEN..SKIP_LEN + PREKEY_LEN],
                               relayInit[SKIP_LEN + PREKEY_LEN..SKIP_LEN + PREKEY_LEN + IV_LEN]);
      tgDec := new CtrStream(aes, relayRev[..PREKEY_LEN], relayRev[PREKEY_LEN..]);
      SkipHandshake(enc);
      tgEnc := enc;
    }

    method Split() returns (up: CryptoUp, down: CryptoDown)
      ensures up.cltDec == cltDec && up.tgEnc == tgEnc
      ensures down.tgDec == tgDec && down.cltEnc == cltEnc
    {
      up := new CryptoUp(cltDec, tgEnc);
      down := new CryptoDown(tgDec, cltEnc);
    }
  }

  /** The splitter's shadow stream: same key and position as the upstream encryptor. */
  method NewRelayDecryptStream(aes: BlockCipher, relayInit: seq<byte>) returns (dec: CtrStream)
    requires |relayInit| >= PROTO_TAG_POS
    ensures fresh(dec) && dec.Ks() == UpKs(aes, relayInit) && dec.pos == HANDSHAKE_LEN
    ensures dec.key == seq(32, i requires 0 <= i < 32 => relayInit[8 + i])
    ensures dec.iv == seq(16, i requires 0 <= i < 16 => relayInit[40 + i])
  {
    dec := new CtrStream(aes, relayInit[SKIP_LEN..SKIP_LEN + PREKEY_LEN],
                         relayInit[SKIP_LEN + PREKEY_LEN..SKIP_LEN + PREKEY_LEN + IV_LEN]);
    SkipHandshake(dec);
  }
}
