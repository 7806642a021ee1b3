/**
 The incremental MTProto packet splitter: a shadow decryption of the relay's own
 ciphertext finds packet boundaries, and the ciphertext is cut at them.
 */
module Splitter {
  import opened Bytes
  import opened Ctr
  import opened Mtproto
  import opened Seqs

  // ---- What a packet is -----------------------------------------------------------

  // One transport header plus exactly the payload it declares ("Abridged",
  // "Intermediate" and "Padded intermediate" in Telegram's MTProto transports).
  predicate IsPacket(proto: nat, p: seq<byte>)
  {
    && 0 < |p| <= MAX_MTPROTO_PACKET
    && if proto == PROTO_ABRIDGED then
         if p[0] % 128 == 127
         then |p| >= 4 && |p| - 4 == 4 * LeNat(p[1..4])
         else p[0] % 128 > 0 && |p| - 1 == 4 * (p[0] as int % 128)
       else
         && (proto == PROTO_INTERMEDIATE || proto == PROTO_PADDED_INTERMEDIATE)
         && |p| > 4 && |p| - 4 == LeNat(p[..4]) % 0x8000_0000
  }

  // How a client writes a payload; `ack` is the quick-acknowledgement bit.
  function EncodePacket(proto: nat, ack: bool, payload: seq<byte>): (p: seq<byte>)
    requires Encodable(proto, payload)
  {
    (if proto == PROTO_ABRIDGED then AbridgedHeader(ack, |payload| / 4)
     else IntermediateHeader(ack, |payload|)) + payload
  }

  function AbridgedHeader(ack: bool, words: nat): (h: seq<byte>)
    requires words < 0x100_0000
  {
    assert Pow256(3) == 0x100_0000;
    var bit := if ack then 128 else 0;
    if words < 127 then [bit + words] else [bit + 127] + LePut(words, 3)
  }

  function IntermediateHeader(ack: bool, len: nat): (h: seq<byte>)
    requires len < 0x8000_0000
    ensures |h| == 4 && LeNat(h) % 0x8000_0000 == len
  {
    assert Pow256(4) == 0x1_0000_0000;
    LePut(len + (if ack then 0x8000_0000 else 0), 4)
  }

  predicate Encodable(proto: nat, payload: seq<byte>)
  {
    && KnownProto(proto)
    && 0 < |payload| <= MAX_MTPROTO_PACKET - 4
    && (proto == PROTO_ABRIDGED ==> |payload| % 4 == 0)
  }

  lemma EncodeIsPacket(proto: nat, ack: bool, payload: seq<byte>)
    requires Encodable(proto, payload)
    ensures IsPacket(proto, EncodePacket(proto, ack, payload))
  {
    hide LeNat, LePut, Pow256;
    var p := EncodePacket(proto, ack, payload);
    if proto == PROTO_ABRIDGED {
      var h := AbridgedHeader(ack, |payload| / 4);
      if |payload| / 4 >= 127 {
        assert p[1..4] == h[1..];
      }
    } else {
      assert p[..4] == IntermediateHeader(ack, |payload|);
    }
  }

  // ---- Header decoding ------------------------------------------------------------

  // -1: more bytes needed; 0: not this transport; n: a packet of n bytes is complete.
  // `s` is the decrypted buffer from the current offset on.
  function NextPacketLen(proto: nat, s: seq<byte>): (n: int)
    ensures n == -1 || 0 <= n <= |s|
    ensures n <= MAX_MTPROTO_PACKET
    ensures n == -1 ==> |s| < MAX_MTPROTO_PACKET
  {
    if |s| == 0 then -1
    else if proto == PROTO_ABRIDGED then NextAbridgedLen(s)
    else if proto == PROTO_INTERMEDIATE || proto == PROTO_PADDED_INTERMEDIATE then NextIntermediateLen(s)
    else 0
  }

  function NextAbridgedLen(s: seq<byte>): (n: int)
    requires |s| > 0
  {
    var first := s[0];
    if first == 0x7F || first == 0xFF then
      if |s| < 4 then -1 else
      var payloadLen := (s[1] as int + s[2] as int * 0x100 + s[3] as int * 0x1_0000) * 4;
      var packetLen := 4 + payloadLen;
      if packetLen > MAX_MTPROTO_PACKET then 0
      else if |s| < packetLen then -1
      else packetLen
    else
      var payloadLen := (first as int % 0x80) * 4;
      if payloadLen == 0 then 0 else
      var packetLen := 1 + payloadLen;
      if packetLen > MAX_MTPROTO_PACKET then 0
      else if |s| < packetLen then -1
      else packetLen
  }

  function NextIntermediateLen(s: seq<byte>): (n: int)
    requires |s| > 0
  {
    if |s| < 4 then -1 else
    var payloadLen := LeNat(s[..4]) % 0x8000_0000;
    if payloadLen == 0 then 0 else
    var packetLen := 4 + payloadLen;
    if packetLen > MAX_MTPROTO_PACKET then 0
    else if |s| < packetLen then -1
    else packetLen
  }

  lemma Le3(s: seq<byte>)
    requires |s| >= 4
    ensures LeNat(s[1..4]) == s[1] as int + s[2] as int * 0x100 + s[3] as int * 0x1_0000
  {
    assert s[1..4][1..] == s[2..4] && s[2..4][1..] == s[3..4];
    assert LeNat(s[3..4]) == s[3];
    assert LeNat(s[2..4]) == s[2] as int + s[3] as int * 256;
  }

  // The splitter recognises a packet exactly when one stands at the head.
  lemma HeadIsPacket(proto: nat, s: seq<byte>, n: nat)
    requires 0 < n <= |s|
    ensures NextPacketLen(proto, s) == n <==> IsPacket(proto, s[..n])
  {
    if |s| >= 4 {
      Le3(s);
      if n >= 4 {
        assert s[..n][1..4] == s[1..4] && s[..n][..4] == s[..4];
      }
    }
  }

  // Once the head has an answer, later bytes never change it.
  lemma HeadIsStable(proto: nat, s: seq<byte>, more: seq<byte>)
    requires NextPacketLen(proto, s) != -1
    ensures NextPacketLen(proto, s + more) == NextPacketLen(proto, s)
  {
    if |s| >= 4 {
      assert (s + more)[..4] == s[..4];
    }
  }

  function Zeros(k: nat): (z: seq<byte>)
    ensures |z| == k
  {
    seq(k, i => 0)
  }

  // A head whose length is known waits for that many bytes, whatever they are.
  lemma LengthIsKnown(proto: nat, s: seq<byte>) returns (p: seq<byte>)
    requires NextPacketLen(proto, s) == -1 && s != []
    requires |s| >= 4 || (proto == PROTO_ABRIDGED && s[0] % 128 != 127)
    ensures s < p && NextPacketLen(proto, p) == |p|
  {
    var n := if proto == PROTO_ABRIDGED then
               if s[0] % 128 == 127 then 4 + (s[1] as int + s[2] as int * 0x100 + s[3] as int * 0x1_0000) * 4
               else 1 + s[0] as int % 128 * 4
             else 4 + LeNat(s[..4]) % 0x8000_0000;
    p := s + Zeros(n - |s|);
    if |s| >= 4 {
      assert p[..4] == s[..4];
    }
  }

  // Any one to three bytes can still become the header of a packet: the largest packet is just
  // large enough for the three zeros of an intermediate header.
  lemma HeaderGoesOn(proto: nat, s: seq<byte>) returns (h: seq<byte>)
    requires KnownProto(proto) && 0 < |s| < 4 && (proto == PROTO_ABRIDGED ==> s[0] % 128 == 127)
    ensures s < h && |h| == 4 && NextPacketLen(proto, h) != 0
  {
    h := s + Zeros(4 - |s|);
    if proto != PROTO_ABRIDGED {
      FourBytes(h);
      if LeNat(h) == 0 {
        h := s + Zeros(3 - |s|) + [1];
        FourBytes(h);
      }
      assert h[..4] == h;
    }
  }

  lemma FourBytes(h: seq<byte>)
    requires |h| == 4
    ensures LeNat(h) == h[0] as int + h[1] as int * 0x100 + h[2] as int * 0x1_0000 + h[3] as int * 0x100_0000
  {
    assert h[1..][1..] == h[2..] && h[2..][1..] == h[3..] && h[3..][1..] == [];
    assert LeNat(h[3..]) == h[3];
    assert LeNat(h[2..]) == h[2] as int + h[3] as int * 256;
  }

  // Any bytes that are no whole packet yet and may become one do become one.
  lemma GoesOn(proto: nat, s: seq<byte>) returns (p: seq<byte>)
    requires NextPacketLen(proto, s) == -1 && s != []
    ensures s < p && IsPacket(proto, p)
  {
    hide IsPacket;
    if |s| >= 4 || (proto == PROTO_ABRIDGED && s[0] % 128 != 127) {
      p := LengthIsKnown(proto, s);
    } else {
      p := HeaderGoesOn(proto, s);
      if NextPacketLen(proto, p) == -1 {
        p := LengthIsKnown(proto, p);
      }
    }
    hide NextPacketLen;
    HeadIsPacket(proto, p, |p|);
    assert p[..|p|] == p;
  }

  // The splitter asks for more exactly when what is there can still become a packet, and
  // gives up exactly when no packet agrees with it.
  lemma AnswersExactly(proto: nat, s: seq<byte>)
    requires s != []
    ensures NextPacketLen(proto, s) == -1 <==> exists p: seq<byte> :: s < p && IsPacket(proto, p)
    ensures NextPacketLen(proto, s) == 0 <==> !exists p: seq<byte> :: (s < p || p <= s) && IsPacket(proto, p)
  {
    hide IsPacket, NextPacketLen;
    forall p: seq<byte> | (s < p || p <= s) && IsPacket(proto, p)
      ensures |p| > 0 && NextPacketLen(proto, s) == if s < p then -1 else |p|
    {
      PacketIsNotEmpty(proto, p);
      if s < p {
        BeforeThePacket(proto, s, p);
      } else {
        assert p == s[..|p|];
        HeadIsPacket(proto, s, |p|);
      }
    }
    if NextPacketLen(proto, s) == -1 {
      var p := GoesOn(proto, s);
    } else if NextPacketLen(proto, s) != 0 {
      var n: nat := NextPacketLen(proto, s);
      HeadIsPacket(proto, s, n);
      assert s[..n] <= s;
    }
  }

  lemma PacketIsNotEmpty(proto: nat, p: seq<byte>)
    requires IsPacket(proto, p)
    ensures |p| > 0
  {
  }

  lemma BeforeThePacket(proto: nat, s: seq<byte>, p: seq<byte>)
    requires s < p && IsPacket(proto, p)
    ensures NextPacketLen(proto, s) == -1
  {
    hide IsPacket, NextPacketLen;
    assert p == s + p[|s|..] && p[..|p|] == p;
    HeadIsPacket(proto, p, |p|);
    if NextPacketLen(proto, s) != -1 {
      HeadIsStable(proto, s, p[|s|..]);
    }
  }

  // Every intermediate length fits a 32-bit usize, and every answer an i32.
  lemma LengthsFit(s: seq<byte>)
    requires |s| >= 4
    ensures 4 + (s[1] as int + s[2] as int * 0x100 + s[3] as int * 0x1_0000) * 4 < 0x1_0000_0000
    ensures LeNat(s[..4]) < 0x1_0000_0000 && 4 + LeNat(s[..4]) % 0x8000_0000 < 0x1_0000_0000
    ensures forall proto :: -1 <= NextPacketLen(proto, s) < 0x8000_0000
  {
    assert Pow256(4) == 0x1_0000_0000;
  }

  // ---- Greedy parse of a whole plaintext --------------------------------------------

  // The packets a plaintext starts with, the bytes they cover, and whether what
  // follows them is known not to be a packet.
  datatype Cut = Cut(lens: seq<nat>, used: nat, invalid: bool)

  function Parse(proto: nat, plain: seq<byte>): (c: Cut)
    ensures c.used <= |plain|
    ensures c.invalid ==> c.used < |plain|
    ensures !c.invalid ==> NextPacketLen(proto, plain[c.used..]) == -1
    ensures c.invalid ==> NextPacketLen(proto, plain[c.used..]) == 0
    decreases |plain|
  {
    var n := NextPacketLen(proto, plain);
    assert plain[0..] == plain;
    if n == -1 then Cut([], 0, false)
    else if n == 0 then Cut([], 0, true)
    else
      var rest := Parse(proto, plain[n..]);
      assert plain[n..][rest.used..] == plain[n + rest.used..];
      Cut([n as nat] + rest.lens, n + rest.used, rest.invalid)
  }

  function Sum(lens: seq<nat>): nat
  {
    if lens == [] then 0 else lens[0] + Sum(lens[1..])
  }

  // `buf` cut into consecutive pieces of the given lengths.
  function Slices(buf: seq<byte>, lens: seq<nat>): (parts: seq<seq<byte>>)
    requires Sum(lens) <= |buf|
    ensures |parts| == |lens|
  {
    if lens == [] then [] else [buf[..lens[0]]] + Slices(buf[lens[0]..], lens[1..])
  }

  function Flatten(parts: seq<seq<byte>>): seq<byte>
  {
    if parts == [] then [] else parts[0] + Flatten(parts[1..])
  }

  lemma {:induction false} ParseSum(proto: nat, plain: seq<byte>)
    ensures Sum(Parse(proto, plain).lens) == Parse(proto, plain).used
    decreases |plain|
  {
    var n := NextPacketLen(proto, plain);
    if n > 0 {
      ParseSum(proto, plain[n..]);
      assert Parse(proto, plain).lens[1..] == Parse(proto, plain[n..]).lens;
    }
  }

  lemma {:induction false} SumConcat(a: seq<nat>, b: seq<nat>)
    ensures Sum(a + b) == Sum(a) + Sum(b)
  {
    if a == [] {
      assert a + b == b;
    } else {
      SumConcat(a[1..], b);
      assert (a + b)[1..] == a[1..] + b;
    }
  }

  lemma {:induction false} FlattenConcat(a: seq<seq<byte>>, b: seq<seq<byte>>)
    ensures Flatten(a + b) == Flatten(a) + Flatten(b)
  {
    if a == [] {
      assert a + b == b;
    } else {
      FlattenConcat(a[1..], b);
      assert (a + b)[1..] == a[1..] + b;
      assert a[0] + (Flatten(a[1..]) + Flatten(b)) == Flatten(a) + Flatten(b);
    }
  }

  lemma FlattenOne(p: seq<byte>)
    ensures Flatten([p]) == p
  {
    assert [p][1..] == [];
    assert Flatten([p]) == p + Flatten([]);
  }

  lemma {:induction false} FlattenSlices(buf: seq<byte>, lens: seq<nat>)
    requires Sum(lens) <= |buf|
    ensures Flatten(Slices(buf, lens)) == buf[..Sum(lens)]
  {
    if lens == [] {
    } else {
      FlattenSlices(buf[lens[0]..], lens[1..]);
      assert Slices(buf, lens)[1..] == Slices(buf[lens[0]..], lens[1..]);
      assert buf[..lens[0]] + buf[lens[0]..][..Sum(lens[1..])] == buf[..Sum(lens)];
    }
  }

  lemma {:induction false} SlicesPrefix(buf: seq<byte>, more: seq<byte>, lens: seq<nat>)
    requires Sum(lens) <= |buf|
    ensures Slices(buf + more, lens) == Slices(buf, lens)
  {
    if lens != [] {
      SlicesPrefix(buf[lens[0]..], more, lens[1..]);
      assert (buf + more)[lens[0]..] == buf[lens[0]..] + more;
      assert (buf + more)[..lens[0]] == buf[..lens[0]];
    }
  }

  lemma SlicesHead(buf: seq<byte>, n: nat, lens: seq<nat>)
    ensures Sum([n] + lens) == n + Sum(lens)
    ensures n + Sum(lens) <= |buf| ==> Slices(buf, [n] + lens) == [buf[..n]] + Slices(buf[n..], lens)
  {
    assert ([n] + lens)[1..] == lens;
  }

  lemma {:induction false} SlicesConcat(buf: seq<byte>, a: seq<nat>, b: seq<nat>)
    requires Sum(a) + Sum(b) <= |buf|
    ensures Sum(a + b) == Sum(a) + Sum(b)
    ensures Slices(buf, a + b) == Slices(buf, a) + Slices(buf[Sum(a)..], b)
  {
    if a == [] {
      assert a + b == b && buf[0..] == buf;
    } else {
      var n, rest := a[0], a[1..];
      assert a == [n] + rest && a + b == [n] + (rest + b);
      hide Sum, Slices;
      SlicesHead(buf, n, rest);
      SumConcat(rest, b);
      SlicesHead(buf, n, rest + b);
      var after := buf[n..];
      SlicesConcat(after, rest, b);
      DropDrop(buf, n, n + Sum(rest));
      ConcatAssociates([buf[..n]], Slices(after, rest), Slices(after[Sum(rest)..], b));
    }
  }

  lemma ParseHead(proto: nat, s: seq<byte>)
    ensures var n := NextPacketLen(proto, s);
            Parse(proto, s) ==
            if n == -1 then Cut([], 0, false)
            else if n == 0 then Cut([], 0, true)
            else
              var rest := Parse(proto, s[n..]);
              Cut([n as nat] + rest.lens, n + rest.used, rest.invalid)
  {
    hide NextPacketLen;
  }

  // Parsing may stop and resume: a longer plaintext parses as the shorter one did,
  // followed by the parse of what the shorter one left over plus the new bytes.
  lemma {:induction false} ParseAppend(proto: nat, plain: seq<byte>, more: seq<byte>)
    ensures var c := Parse(proto, plain);
            Parse(proto, plain + more) ==
            if c.invalid then c else Then(c, Parse(proto, plain[c.used..] + more))
    decreases |plain|
  {
    hide NextPacketLen, Parse;
    var n := NextPacketLen(proto, plain);
    ParseHead(proto, plain);
    if n == -1 {
      assert plain[0..] == plain;
    } else {
      HeadIsStable(proto, plain, more);
      ParseHead(proto, plain + more);
      if n > 0 {
        var c := Parse(proto, plain[n..]);
        ParseAppend(proto, plain[n..], more);
        DropConcat(plain, more, n, 0);
        assert (plain + more)[n..] == plain[n..] + more;
        assert plain[n..][c.used..] == plain[n + c.used..];
      }
    }
  }

  function Then(c: Cut, d: Cut): Cut
  {
    Cut(c.lens + d.lens, c.used + d.used, d.invalid)
  }

  // Each length the parse reports is one whole packet of the plaintext.
  lemma {:induction false} ParsedPiecesArePackets(proto: nat, plain: seq<byte>)
    ensures Sum(Parse(proto, plain).lens) <= |plain|
    ensures forall p | p in Slices(plain, Parse(proto, plain).lens) :: IsPacket(proto, p)
    decreases |plain|
  {
    ParseSum(proto, plain);
    var n := NextPacketLen(proto, plain);
    if n > 0 {
      HeadIsPacket(proto, plain, n);
      ParsedPiecesArePackets(proto, plain[n..]);
      assert Parse(proto, plain).lens[1..] == Parse(proto, plain[n..]).lens;
    }
  }

  // A client that writes packets gets exactly those packets parsed, whatever
  // incomplete packet follows them.
  lemma {:induction false} ParseOfPackets(proto: nat, packets: seq<seq<byte>>, tail: seq<byte>)
    requires forall p | p in packets :: IsPacket(proto, p)
    requires NextPacketLen(proto, tail) == -1
    ensures var c := Parse(proto, Flatten(packets) + tail);
            && !c.invalid && c.used == |Flatten(packets)|
            && Sum(c.lens) <= |Flatten(packets) + tail|
            && Slices(Flatten(packets) + tail, c.lens) == packets
  {
    var whole := Flatten(packets) + tail;
    if packets == [] {
      assert whole == tail;
    } else {
      var p, rest := packets[0], Flatten(packets[1..]) + tail;
      assert whole == p + rest;
      assert whole[..|p|] == p && whole[|p|..] == rest;
      assert IsPacket(proto, p) && |p| > 0;
      HeadIsPacket(proto, whole, |p|);
      hide IsPacket, NextPacketLen;
      ParseOfPackets(proto, packets[1..], tail);
      var c := Parse(proto, whole);
      assert c.lens[1..] == Parse(proto, rest).lens;
    }
  }

  // ---- The splitter's step ------------------------------------------------------------

  datatype SplitState = SplitState(cipher: seq<byte>, plain: seq<byte>, pos: nat, disabled: bool)

  // Between calls the shadow buffer is the decryption of the cipher buffer at the
  // matching keystream position and holds no complete packet.
  ghost predicate Wellformed(ks: Keystream, proto: nat, st: SplitState)
  {
    && |st.cipher| <= st.pos
    && st.plain == Crypt(ks, st.pos - |st.cipher|, st.cipher)
    && (st.disabled ==> st.cipher == [])
    && NextPacketLen(proto, st.plain) == -1
  }

  // What one call of `split` gives, in terms of the greedy parse.
  function SplitStep(ks: Keystream, proto: nat, st: SplitState, chunk: seq<byte>)
    : (r: (SplitState, seq<seq<byte>>))
    requires |st.plain| == |st.cipher|
    ensures |r.0.plain| == |r.0.cipher|
  {
    if chunk == [] then (st, [])
    else if st.disabled then (st, [chunk])
    else
      var cipher := st.cipher + chunk;
      var plain := st.plain + Crypt(ks, st.pos, chunk);
      var c := Parse(proto, plain);
      ParseSum(proto, plain);
      if c.invalid then
        (SplitState([], [], st.pos + |chunk|, true), Slices(cipher, c.lens) + [cipher[c.used..]])
      else
        (SplitState(cipher[c.used..], plain[c.used..], st.pos + |chunk|, false), Slices(cipher, c.lens))
  }

  lemma EmptyNeedsMore(proto: nat)
    ensures NextPacketLen(proto, []) == -1
  {
  }

  lemma StepKeepsWellformed(ks: Keystream, proto: nat, st: SplitState, chunk: seq<byte>)
    requires Wellformed(ks, proto, st)
    ensures Wellformed(ks, proto, SplitStep(ks, proto, st, chunk).0)
  {
    hide NextPacketLen, Slices, Parse, Crypt;
    EmptyNeedsMore(proto);
    if chunk != [] && !st.disabled {
      var start := st.pos - |st.cipher|;
      var cipher := st.cipher + chunk;
      var c := Parse(proto, st.plain + Crypt(ks, st.pos, chunk));
      CryptConcat(ks, start, st.cipher, chunk);
      CryptSlice(ks, start, cipher, c.used, |cipher|);
      assert cipher[c.used..|cipher|] == cipher[c.used..];
    }
  }

  // The scan has emitted what the parse of the whole buffer has in front of `offset`.
  ghost predicate ScanAt(proto: nat, buf: seq<byte>, plain: seq<byte>, offset: nat, parts: seq<seq<byte>>)
    requires offset <= |buf| == |plain|
  {
    var c, r := Parse(proto, plain), Parse(proto, plain[offset..]);
    && offset + r.used == c.used && r.invalid == c.invalid
    && Sum(c.lens) == c.used && Sum(r.lens) == r.used
    && parts + Slices(buf[offset..], r.lens) == Slices(buf, c.lens)
  }

  lemma ScanStart(proto: nat, buf: seq<byte>, plain: seq<byte>)
    requires |buf| == |plain|
    ensures ScanAt(proto, buf, plain, 0, [])
  {
    ParseSum(proto, plain);
    hide NextPacketLen, Parse, Sum, Slices;
    assert plain[0..] == plain && buf[0..] == buf;
    assert [] + Slices(buf, Parse(proto, plain).lens) == Slices(buf, Parse(proto, plain).lens);
  }

  lemma ScanStep(proto: nat, buf: seq<byte>, plain: seq<byte>, offset: nat, parts: seq<seq<byte>>)
    requires offset <= |buf| == |plain| && ScanAt(proto, buf, plain, offset, parts)
    ensures var n := NextPacketLen(proto, plain[offset..]);
            var c := Parse(proto, plain);
            && Sum(c.lens) == c.used
            && (n > 0 ==> ScanAt(proto, buf, plain, offset + n, parts + [buf[offset..offset + n]]))
            && (n <= 0 ==> c.used == offset && parts == Slices(buf, c.lens) && c.invalid == (n == 0))
  {
    hide NextPacketLen, Parse;
    var tail := plain[offset..];
    var n := NextPacketLen(proto, tail);
    ParseHead(proto, tail);
    if n > 0 {
      assert tail[n..] == plain[offset + n..];
      assert buf[offset..][n..] == buf[offset + n..];
      assert buf[offset..][..n] == buf[offset..offset + n];
      ParseSum(proto, plain[offset + n..]);
      var r, q := Parse(proto, tail), Parse(proto, plain[offset + n..]);
      assert r.lens[1..] == q.lens;
      ConcatAssociates(parts, [buf[offset..offset + n]], Slices(buf[offset + n..], q.lens));
    }
  }

  class MsgSplitter {
    const dec: CtrStream
    const proto: nat
    var cipherBuf: seq<byte>
    var plainBuf: seq<byte>
    var disabled: bool

    ghost function State(): SplitState
      reads this, dec
    {
      SplitState(cipherBuf, plainBuf, dec.pos, disabled)
    }

    ghost predicate Valid()
      reads this, dec
    {
      Wellformed(dec.Ks(), proto, State())
    }

    constructor (aes: BlockCipher, relayInit: seq<byte>, proto: nat)
      requires |relayInit| >= PROTO_TAG_POS
      ensures Valid() && fresh(dec) && this.proto == proto
      ensures dec.Ks() == UpKs(aes, relayInit)
      ensures State() == SplitState([], [], HANDSHAKE_LEN, false)
    {
      var d := NewRelayDecryptStream(aes, relayInit);
      dec := d;
      this.proto := proto;
      cipherBuf, plainBuf, disabled := [], [], false;
    }

    method Split(chunk: seq<byte>) returns (parts: seq<seq<byte>>)
      requires Valid()
      modifies this, dec`pos
      ensures Valid()
      ensures (State(), parts) == SplitStep(dec.Ks(), proto, old(State()), chunk)
      ensures |cipherBuf| == |plainBuf| < MAX_MTPROTO_PACKET
    {
      hide NextPacketLen, Slices, Parse, Crypt, Sum, ScanAt;
      StepKeepsWellformed(dec.Ks(), proto, State(), chunk);
      if |chunk| == 0 {
        return [];
      }
      if disabled {
        return [chunk];
      }

      cipherBuf := cipherBuf + chunk;
      var plainChunk := new byte[|chunk|](i requires 0 <= i < |chunk| => chunk[i]);
      assert plainChunk[..] == chunk;
      dec.ApplyKeystream(plainChunk);
      plainBuf := plainBuf + plainChunk[..];

      ghost var buf, plain := cipherBuf, plainBuf;
      ghost var c := Parse(proto, plain);
      ParseSum(proto, plain);
      parts := [];
      var offset := 0;
      var bufLen := |cipherBuf|;
      ScanStart(proto, buf, plain);
      while offset < bufLen
        invariant 0 <= offset <= bufLen == |buf| == |plain|
        invariant cipherBuf == buf && plainBuf == plain
        invariant !disabled && dec.pos == old(dec.pos) + |chunk|
        invariant ScanAt(proto, buf, plain, offset, parts)
        decreases bufLen - offset
      {
        var packetLen := NextPacketLen(proto, plainBuf[offset..]);
        ScanStep(proto, buf, plain, offset, parts);
        if packetLen == -1 {
          break;
        } else if packetLen == 0 {
          parts := parts + [cipherBuf[offset..]];
          offset := bufLen;
          disabled := true;
          break;
        } else {
          parts := parts + [cipherBuf[offset..offset + packetLen]];
          offset := offset + packetLen;
        }
      }
      if !disabled {
        ScanStep(proto, buf, plain, offset, parts);
        EmptyNeedsMore(proto);
        assert offset == bufLen ==> plain[offset..] == [];
      }
      assert plain[0..] == plain && buf[0..] == buf;
      assert buf[|buf|..] == [] && plain[|plain|..] == [];
      if offset > 0 {
        cipherBuf := cipherBuf[offset..];
        plainBuf := plainBuf[offset..];
      }
    }

    method Flush() returns (parts: seq<seq<byte>>)
      modifies this
      ensures parts == if old(cipherBuf) == [] then [] else [old(cipherBuf)]
      ensures Flatten(parts) == old(cipherBuf)
      ensures cipherBuf == [] && disabled == old(disabled)
      ensures plainBuf == if old(cipherBuf) == [] then old(plainBuf) else []
    {
      if |cipherBuf| == 0 {
        return [];
      }
      var tail := cipherBuf;
      cipherBuf := [];
      plainBuf := [];
      FlattenOne(tail);
      return [tail];
    }
  }

  // ---- Whole runs: how reads are cut does not matter --------------------------------------

  function Run(ks: Keystream, proto: nat, start: nat, chunks: seq<seq<byte>>)
    : (r: (SplitState, seq<seq<byte>>))
    ensures |r.0.plain| == |r.0.cipher|
  {
    if chunks == [] then (SplitState([], [], start, false), [])
    else
      var (st, parts) := Run(ks, proto, start, chunks[..|chunks| - 1]);
      var (next, more) := SplitStep(ks, proto, st, chunks[|chunks| - 1]);
      (next, parts + more)
  }

  // What any run over the ciphertext `total` must look like: this mentions the
  // bytes fed in, never the way they were cut.
  ghost predicate Outcome(ks: Keystream, proto: nat, start: nat, total: seq<byte>,
                          st: SplitState, parts: seq<seq<byte>>)
  {
    var plain := Crypt(ks, start, total);
    var c := Parse(proto, plain);
    && c.used == Sum(c.lens) <= |total|
    && st.disabled == c.invalid
    && Flatten(parts) + st.cipher == total
    && |c.lens| <= |parts| && parts[..|c.lens|] == Slices(total, c.lens)
    && if c.invalid then st.cipher == [] && st.plain == []
       else |parts| == |c.lens| && st == SplitState(total[c.used..], plain[c.used..], start + |total|, false)
  }

  lemma FlattenLast(chunks: seq<seq<byte>>)
    requires chunks != []
    ensures Flatten(chunks) == Flatten(chunks[..|chunks| - 1]) + chunks[|chunks| - 1]
  {
    var n := |chunks| - 1;
    assert chunks == chunks[..n] + [chunks[n]];
    FlattenConcat(chunks[..n], [chunks[n]]);
    FlattenOne(chunks[n]);
  }

  // Not yet disabled: the step resumes the parse where it stopped.
  lemma OpenStep(ks: Keystream, proto: nat, start: nat, total: seq<byte>, chunk: seq<byte>)
    requires !Parse(proto, Crypt(ks, start, total)).invalid
    ensures var plain := Crypt(ks, start, total);
            var c := Parse(proto, plain);
            var e := Parse(proto, plain[c.used..] + Crypt(ks, start + |total|, chunk));
            var d := Parse(proto, Crypt(ks, start, total + chunk));
            && d == Then(c, e)
            && Sum(c.lens) == c.used && Sum(e.lens) == e.used && Sum(d.lens) == d.used
            && Slices(total + chunk, d.lens) == Slices(total, c.lens) + Slices(total[c.used..] + chunk, e.lens)
  {
    hide NextPacketLen, Slices, Parse, Crypt, Flatten, Sum;
    var plain := Crypt(ks, start, total);
    var c := Parse(proto, plain);
    var e := Parse(proto, plain[c.used..] + Crypt(ks, start + |total|, chunk));
    CryptConcat(ks, start, total, chunk);
    ParseAppend(proto, plain, Crypt(ks, start + |total|, chunk));
    ParseSum(proto, plain);
    ParseSum(proto, plain[c.used..] + Crypt(ks, start + |total|, chunk));
    SlicesConcat(total + chunk, c.lens, e.lens);
    SlicesPrefix(total, chunk, c.lens);
    assert (total + chunk)[c.used..] == total[c.used..] + chunk;
  }

  lemma DisabledStep(ks: Keystream, proto: nat, start: nat, total: seq<byte>, chunk: seq<byte>)
    requires Parse(proto, Crypt(ks, start, total)).invalid
    ensures var c := Parse(proto, Crypt(ks, start, total));
            && Parse(proto, Crypt(ks, start, total + chunk)) == c
            && Sum(c.lens) == c.used
            && Slices(total + chunk, c.lens) == Slices(total, c.lens)
  {
    hide NextPacketLen, Slices, Parse, Crypt, Flatten, Sum;
    CryptConcat(ks, start, total, chunk);
    ParseAppend(proto, Crypt(ks, start, total), Crypt(ks, start + |total|, chunk));
    ParseSum(proto, Crypt(ks, start, total));
    SlicesPrefix(total, chunk, Parse(proto, Crypt(ks, start, total)).lens);
  }

  // The parts of one call followed by what stays buffered are the bytes it worked on.
  lemma StepConserves(ks: Keystream, proto: nat, st: SplitState, chunk: seq<byte>)
    requires |st.plain| == |st.cipher| && (st.disabled ==> st.cipher == [])
    ensures var (next, parts) := SplitStep(ks, proto, st, chunk);
            Flatten(parts) + next.cipher == st.cipher + chunk
  {
    hide NextPacketLen, Slices, Parse, Crypt, Sum;
    if chunk != [] && st.disabled {
      FlattenOne(chunk);
    } else if chunk != [] {
      var cipher := st.cipher + chunk;
      var c := Parse(proto, st.plain + Crypt(ks, st.pos, chunk));
      ParseSum(proto, st.plain + Crypt(ks, st.pos, chunk));
      FlattenSlices(cipher, c.lens);
      if c.invalid {
        FlattenConcat(Slices(cipher, c.lens), [cipher[c.used..]]);
        FlattenOne(cipher[c.used..]);
      }
      assert cipher[..c.used] + cipher[c.used..] == cipher;
    }
  }

  lemma StepOutcome(ks: Keystream, proto: nat, start: nat, total: seq<byte>,
                    st: SplitState, parts: seq<seq<byte>>, chunk: seq<byte>)
    requires |st.plain| == |st.cipher| && Outcome(ks, proto, start, total, st, parts)
    ensures var (next, more) := SplitStep(ks, proto, st, chunk);
            Outcome(ks, proto, start, total + chunk, next, parts + more)
  {
    hide NextPacketLen, Slices, Parse, Crypt, Sum, Flatten;
    var plain := Crypt(ks, start, total);
    var c := Parse(proto, plain);
    var (next, more) := SplitStep(ks, proto, st, chunk);
    StepConserves(ks, proto, st, chunk);
    FlattenConcat(parts, more);
    ConcatAssociates(Flatten(parts), Flatten(more), next.cipher);
    ConcatAssociates(Flatten(parts), st.cipher, chunk);
    if chunk == [] {
      assert total + chunk == total && parts + more == parts;
    } else if c.invalid {
      DisabledStep(ks, proto, start, total, chunk);
      assert (parts + more)[..|c.lens|] == parts[..|c.lens|];
    } else {
      OpenStep(ks, proto, start, total, chunk);
      CryptConcat(ks, start, total, chunk);
      var e := Parse(proto, st.plain + Crypt(ks, st.pos, chunk));
      PrefixOfConcat(parts, Slices(st.cipher + chunk, e.lens), more);
      DropConcat(total, chunk, c.used, e.used);
      DropConcat(plain, Crypt(ks, st.pos, chunk), c.used, e.used);
    }
  }

  lemma {:induction false} RunOutcome(ks: Keystream, proto: nat, start: nat, chunks: seq<seq<byte>>)
    ensures var (st, parts) := Run(ks, proto, start, chunks);
            Outcome(ks, proto, start, Flatten(chunks), st, parts)
  {
    if chunks == [] {
    } else {
      var n := |chunks| - 1;
      RunOutcome(ks, proto, start, chunks[..n]);
      var (st, parts) := Run(ks, proto, start, chunks[..n]);
      StepOutcome(ks, proto, start, Flatten(chunks[..n]), st, parts, chunks[n]);
      FlattenLast(chunks);
    }
  }

  // Two ways of cutting the same ciphertext: same disabling, same packets in front of
  // the disabling point, same buffered tail, same bytes in total.
  lemma ChunkingIndependence(ks: Keystream, proto: nat, start: nat, a: seq<seq<byte>>, b: seq<seq<byte>>)
    requires Flatten(a) == Flatten(b)
    ensures var (sa, pa) := Run(ks, proto, start, a);
            var (sb, pb) := Run(ks, proto, start, b);
            var k := |Parse(proto, Crypt(ks, start, Flatten(a))).lens|;
            && sa.disabled == sb.disabled && sa.cipher == sb.cipher && sa.plain == sb.plain
            && k <= |pa| && k <= |pb| && pa[..k] == pb[..k]
            && (!sa.disabled ==> pa == pb && sa == sb)
            && Flatten(pa) == Flatten(pb)
  {
    RunOutcome(ks, proto, start, a);
    RunOutcome(ks, proto, start, b);
    var (sa, pa) := Run(ks, proto, start, a);
    var (sb, pb) := Run(ks, proto, start, b);
    var total := Flatten(a);
    assert Flatten(pa) == total[..|total| - |sa.cipher|];
    assert Flatten(pb) == total[..|total| - |sb.cipher|];
    var k := |Parse(proto, Crypt(ks, start, total)).lens|;
    if !sa.disabled {
      assert pa[..k] == pa && pb[..k] == pb;
    }
  }
}
