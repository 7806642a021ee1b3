/** WebSocket frames on the wire (section 5 of RFC 6455): building and reading. */
module WsFrame {
  import opened Bytes
  import opened Mtproto
  import opened Seqs
  import opened Wrappers

  type Opcode = n: int | 0 <= n < 16
  type MaskKey = k: seq<byte> | |k| == 4 witness [0, 0, 0, 0]

  datatype Frame = Frame(fin: bool, opcode: Opcode, payload: seq<byte>)

  datatype FrameError = UnexpectedEof | RsvBits | MaskedByServer | FrameTooLarge | BadControlFrame

  // Lengths below this fit the 64-bit length field.
  const USIZE_LIMIT: nat := 0x1_0000_0000_0000_0000

  // ---- Building -----------------------------------------------------------------------

  function XorMask(data: seq<byte>, mask: MaskKey): (out: seq<byte>)
    ensures |out| == |data|
  {
    seq(|data|, i requires 0 <= i < |data| => Xor(data[i], mask[i % 4]))
  }

  // The second header byte and the extended length; `bit` is the mask bit.
  function LengthBytes(bit: byte, length: nat): (b: seq<byte>)
    requires bit == 0 || bit == 0x80
    ensures |b| == if length < 126 then 1 else if length < 65536 then 3 else 9
    ensures b[0] >= 0x80 <==> bit == 0x80
  {
    assert Pow256(2) == 65536 && Pow256(8) == USIZE_LIMIT;
    if length < 126 then [bit + length]
    else if length < 65536 then [bit + 126] + BePut(length, 2)
    else [bit + 127] + BePut(length % USIZE_LIMIT, 8)
  }

  function HeaderUnmasked(first: byte, length: nat): seq<byte>
  {
    [first] + LengthBytes(0, length)
  }

  function HeaderMasked(first: byte, length: nat, mask: MaskKey): seq<byte>
  {
    [first] + LengthBytes(0x80, length) + mask
  }

  // `mask` is the random key the writer draws, if it masks at all.
  function BuildFrame(opcode: Opcode, data: seq<byte>, mask: Option<MaskKey>): seq<byte>
  {
    match mask
    case None => HeaderUnmasked(0x80 + opcode, |data|) + data
    case Some(key) => HeaderMasked(0x80 + opcode, |data|, key) + XorMask(data, key)
  }

  // Any server frame, final or not.
  function EncodeFrame(f: Frame): (s: seq<byte>)
    ensures |s| >= 2
  {
    HeaderUnmasked((if f.fin then 0x80 else 0) + f.opcode, |f.payload|) + f.payload
  }

  // ---- Reading ------------------------------------------------------------------------

  // Length and number of bytes it occupies, from the second header byte on.
  function DecodeLength(s: seq<byte>): (r: Option<(nat, nat)>)
    requires |s| > 0
    ensures r.Some? ==>
              var (length, used) := r.value;
              && used <= |s| && length < USIZE_LIMIT
              && ((used == 1 && length < 126) || (used == 3 && length < 65536) || used == 9)
  {
    assert Pow256(2) == 65536 && Pow256(8) == USIZE_LIMIT;
    var code := s[0] as int % 128;
    if code == 126 then
      if |s| < 3 then None else Some((BeNat(s[1..3]), 3))
    else if code == 127 then
      if |s| < 9 then None else Some((BeNat(s[1..9]), 9))
    else Some((code, 1))
  }

  // One frame from the head of `s`, and how many bytes it took.
  function ParseFrame(s: seq<byte>): (r: Result<(Frame, nat), FrameError>)
    ensures r.Ok? ==> 2 <= r.value.1 <= |s|
    ensures r.Ok? ==> Readable(r.value.0)
  {
    if |s| < 2 then Err(UnexpectedEof)
    else if (s[0] as int / 16) % 8 != 0 then Err(RsvBits)
    else if s[1] >= 0x80 then Err(MaskedByServer)
    else match DecodeLength(s[1..])
      case None => Err(UnexpectedEof)
      case Some((length, used)) =>
        var fin, opcode := s[0] >= 0x80, s[0] % 16;
        if length > MAX_WS_PAYLOAD then Err(FrameTooLarge)
        else if opcode >= 8 && (!fin || length > 125) then Err(BadControlFrame)
        else if |s| < 1 + used + length then Err(UnexpectedEof)
        else Ok((Frame(fin, opcode, s[1 + used..1 + used + length]), 1 + used + length))
  }

  predicate Readable(f: Frame)
  {
    |f.payload| <= MAX_WS_PAYLOAD && (f.opcode >= 8 ==> f.fin && |f.payload| <= 125)
  }

  lemma LengthRoundTrip(bit: byte, length: nat, rest: seq<byte>)
    requires (bit == 0 || bit == 0x80) && length < USIZE_LIMIT
    ensures DecodeLength(LengthBytes(bit, length) + rest) == Some((length, |LengthBytes(bit, length)|))
  {
    assert Pow256(2) == 65536 && Pow256(8) == USIZE_LIMIT;
    assert length % USIZE_LIMIT == length;
    hide BeNat, BePut, Pow256;
    var s := LengthBytes(bit, length) + rest;
    if length < 126 {
    } else if length < 65536 {
      var ext := BePut(length, 2);
      assert s == [bit + 126] + ext + rest;
      assert s[1..3] == ext;
    } else {
      var ext := BePut(length, 8);
      assert s == [bit + 127] + ext + rest;
      assert s[1..9] == ext;
    }
  }

  lemma PartialLength(bit: byte, length: nat, k: nat)
    requires bit == 0 || bit == 0x80
    requires 0 < k < |LengthBytes(bit, length)|
    ensures DecodeLength(LengthBytes(bit, length)[..k]) == None
  {
  }

  // The reader takes back a frame the server wrote exactly when the frame is legal.
  lemma FrameRoundTrip(f: Frame, rest: seq<byte>)
    requires |f.payload| < USIZE_LIMIT
    ensures Readable(f) ==> ParseFrame(EncodeFrame(f) + rest) == Ok((f, |EncodeFrame(f)|))
    ensures !Readable(f) ==>
              ParseFrame(EncodeFrame(f) + rest) ==
              Err(if |f.payload| > MAX_WS_PAYLOAD then FrameTooLarge else BadControlFrame)
  {
    hide DecodeLength, LengthBytes;
    var s := EncodeFrame(f) + rest;
    var l := LengthBytes(0, |f.payload|);
    assert s[1..] == l + (f.payload + rest);
    LengthRoundTrip(0, |f.payload|, f.payload + rest);
    assert s[1 + |l|..1 + |l| + |f.payload|] == f.payload;
  }

  // The reverse holds exactly for headers in the shortest form: the reader does not
  // insist on it, although section 5.2 of RFC 6455 does.
  predicate ShortestForm(s: seq<byte>)
    requires |s| >= 2
  {
    match DecodeLength(s[1..])
    case None => false
    case Some((length, used)) => (used == 3 ==> length >= 126) && (used == 9 ==> length >= 65536)
  }

  lemma PutLast(n: nat, b: byte, k: nat)
    requires n < Pow256(k)
    ensures n * 256 + b < Pow256(k + 1) && BePut(n * 256 + b, k + 1) == BePut(n, k) + [b]
  {
    assert (n * 256 + b) / 256 == n && (n * 256 + b) % 256 == b;
  }

  lemma {:induction false} BeUnique(s: seq<byte>)
    ensures BePut(BeNat(s), |s|) == s
  {
    if s != [] {
      var n := |s| - 1;
      BeUnique(s[..n]);
      PutLast(BeNat(s[..n]), s[n], n);
      assert BeNat(s) == BeNat(s[..n]) * 256 + s[n];
      hide BePut, BeNat, Pow256;
      assert s == s[..n] + [s[n]];
    }
  }

  lemma ShortestLength(s: seq<byte>)
    requires |s| > 0 && s[0] < 0x80 && DecodeLength(s).Some?
    ensures var (length, used) := DecodeLength(s).value;
            LengthBytes(0, length) == s[..used] <==>
            (used == 3 ==> length >= 126) && (used == 9 ==> length >= 65536)
  {
    var (length, used) := DecodeLength(s).value;
    LengthForms(s);
    hide DecodeLength, LengthBytes, BeNat, BePut;
    if used == 1 {
      assert s[..1] == [s[0]];
    } else {
      BeUnique(s[1..used]);
      assert s[..used] == [s[0]] + s[1..used];
    }
  }

  // The shortest form of a length that was read, next to the form it was read in.
  lemma LengthForms(s: seq<byte>)
    requires |s| > 0 && s[0] < 0x80 && DecodeLength(s).Some?
    ensures var (length, used) := DecodeLength(s).value;
            var l := LengthBytes(0, length);
            && (used == 1 ==> l == [s[0]]) && |l| <= used
            && (used > 1 ==>
                  && BeNat(s[1..used]) == length
                  && (|l| == used <==> if used == 3 then length >= 126 else length >= 65536))
            && (used > 1 && |l| == used ==> l == [s[0]] + BePut(length, used - 1))
  {
    assert Pow256(2) == 65536 && Pow256(8) == USIZE_LIMIT;
    hide BeNat, BePut, Pow256;
    var (length, used) := DecodeLength(s).value;
    assert length % USIZE_LIMIT == length;
  }

  lemma ReadFrameIsCanonical(s: seq<byte>)
    requires ParseFrame(s).Ok?
    ensures var (f, n) := ParseFrame(s).value;
            s[..n] == EncodeFrame(f) <==> ShortestForm(s)
  {
    hide DecodeLength, LengthBytes;
    var (f, n) := ParseFrame(s).value;
    var (length, used) := DecodeLength(s[1..]).value;
    var l := LengthBytes(0, length);
    ShortestLength(s[1..]);
    assert s[..n] == [s[0]] + s[1..][..used] + s[1 + used..n];
    assert EncodeFrame(f) == [s[0]] + l + f.payload;
    assert |l| != used ==> |EncodeFrame(f)| != n;
    assert |l| == used ==> EncodeFrame(f)[1..][..used] == l && s[..n][1..][..used] == s[1..][..used];
  }

  // ---- Frame sequences ----------------------------------------------------------------

  function EncodeAll(fs: seq<Frame>): seq<byte>
  {
    if fs == [] then [] else EncodeFrame(fs[0]) + EncodeAll(fs[1..])
  }

  // Reading until a frame cannot be read: the frames, and the bytes left over.
  function ReadAll(s: seq<byte>): (seq<Frame>, seq<byte>)
    decreases |s|
  {
    match ParseFrame(s)
    case Err(_) => ([], s)
    case Ok((f, n)) => var (fs, rest) := ReadAll(s[n..]); ([f] + fs, rest)
  }

  lemma ReadAllStep(s: seq<byte>, f: Frame, n: nat)
    requires ParseFrame(s) == Ok((f, n)) && n <= |s|
    ensures ReadAll(s) == ([f] + ReadAll(s[n..]).0, ReadAll(s[n..]).1)
  {
    hide ParseFrame;
  }

  lemma EncodeAllStep(fs: seq<Frame>)
    requires fs != []
    ensures EncodeAll(fs) == EncodeFrame(fs[0]) + EncodeAll(fs[1..])
  {
  }

  lemma {:induction false} FramesRoundTrip(fs: seq<Frame>)
    requires forall f | f in fs :: Readable(f)
    ensures ReadAll(EncodeAll(fs)) == (fs, [])
  {
    if fs == [] {
    } else {
      assert fs[0] in fs && Readable(fs[0]) && |fs[0].payload| < USIZE_LIMIT;
      hide *;
      EncodeAllStep(fs);
      var e, rest := EncodeFrame(fs[0]), EncodeAll(fs[1..]);
      FrameRoundTrip(fs[0], rest);
      ReadAllStep(e + rest, fs[0], |e|);
      assert (e + rest)[|e|..] == rest;
      FramesRoundTrip(fs[1..]);
      assert fs == [fs[0]] + fs[1..];
    }
  }

  lemma {:induction false} EncodeAllConcat(a: seq<Frame>, b: seq<Frame>)
    ensures EncodeAll(a + b) == EncodeAll(a) + EncodeAll(b)
  {
    hide EncodeFrame;
    if a == [] {
      assert a + b == b;
    } else {
      assert (a + b)[1..] == a[1..] + b;
      EncodeAllConcat(a[1..], b);
      assert EncodeAll(a + b) == EncodeFrame(a[0]) + (EncodeAll(a[1..]) + EncodeAll(b));
    }
  }

  // ---- The bytes on the wire (section 5.2) --------------------------------------------------

  // Where the header ends, without a mask key.
  function HeaderSize(n: nat): nat
  {
    if n < 126 then 2 else if n < 65536 then 4 else 10
  }

  // The length field of a header; `bit` is the mask bit in front of it.
  predicate LengthField(s: seq<byte>, bit: nat, n: nat)
  {
    && |s| >= HeaderSize(n)
    && (n < 126 ==> s[1] as int == bit + n)
    && (126 <= n < 65536 ==> s[1] as int == bit + 126 && s[2] as int * 0x100 + s[3] as int == n)
    && (n >= 65536 ==> s[1] as int == bit + 127 && BeNat(s[2..10]) == n)
  }

  lemma TwoBytes(s: seq<byte>)
    requires |s| == 2
    ensures BeNat(s) == s[0] as int * 0x100 + s[1] as int
  {
    assert s[..1] == [s[0]] && BeNat([s[0]]) == s[0];
  }

  lemma LengthOnWire(first: byte, bit: byte, n: nat, rest: seq<byte>)
    requires (bit == 0 || bit == 0x80) && n < USIZE_LIMIT
    ensures |LengthBytes(bit, n)| == HeaderSize(n) - 1
    ensures LengthField([first] + LengthBytes(bit, n) + rest, bit, n)
  {
    var l := LengthBytes(bit, n);
    var s := [first] + l + rest;
    LengthDigits(bit, n);
    hide LengthBytes, BeNat;
    assert s[1] == l[0];
    if 126 <= n < 65536 {
      assert s[2] == l[1] && s[3] == l[2];
    } else if n >= 65536 {
      assert s[2..10] == l[1..9];
    }
  }

  lemma LengthDigits(bit: byte, n: nat)
    requires (bit == 0 || bit == 0x80) && n < USIZE_LIMIT
    ensures var l := LengthBytes(bit, n);
            && |l| == HeaderSize(n) - 1
            && (n < 126 ==> l[0] as int == bit + n)
            && (126 <= n < 65536 ==> l[0] as int == bit + 126 && l[1] as int * 0x100 + l[2] as int == n)
            && (n >= 65536 ==> l[0] as int == bit + 127 && BeNat(l[1..9]) == n)
  {
    assert Pow256(2) == 65536 && Pow256(8) == USIZE_LIMIT && n % USIZE_LIMIT == n;
    hide BeNat, BePut, Pow256;
    var l := LengthBytes(bit, n);
    if 126 <= n < 65536 {
      TwoBytes(BePut(n, 2));
      assert l[1] == BePut(n, 2)[0] && l[2] == BePut(n, 2)[1];
    } else if n >= 65536 {
      assert l[1..9] == BePut(n, 8);
    }
  }

  // A server frame: FIN and opcode, the length in its shortest form, the payload.
  lemma ServerFrameOnWire(f: Frame)
    requires |f.payload| < USIZE_LIMIT
    ensures var s, n := EncodeFrame(f), |f.payload|;
            && |s| == HeaderSize(n) + n && s[0] as int == (if f.fin then 128 else 0) + f.opcode
            && LengthField(s, 0, n) && s[HeaderSize(n)..] == f.payload
    ensures BuildFrame(f.opcode, f.payload, None) == EncodeFrame(f.(fin := true))
  {
    var first: byte := (if f.fin then 0x80 else 0) + f.opcode;
    hide LengthBytes, LengthField;
    LengthOnWire(first, 0, |f.payload|, f.payload);
  }

  // A frame the relay writes: FIN and opcode, the length behind the mask bit, the key, and
  // byte i of the payload exclusive-or byte i mod 4 of the key (section 5.3).
  lemma ClientFrameOnWire(opcode: Opcode, data: seq<byte>, key: MaskKey)
    requires |data| < USIZE_LIMIT
    ensures var s, n := BuildFrame(opcode, data, Some(key)), |data|;
            var h := HeaderSize(n);
            && |s| == h + 4 + n && s[0] as int == 128 + opcode && LengthField(s, 128, n) && s[h..h + 4] == key
            && forall i | 0 <= i < n :: s[h + 4 + i] == Xor(data[i], key[i % 4])
  {
    hide LengthBytes, LengthField;
    var l, masked := LengthBytes(0x80, |data|), XorMask(data, key);
    LengthOnWire(0x80 + opcode, 0x80, |data|, key + masked);
    assert [(0x80 + opcode) as byte] + l + key + masked == [(0x80 + opcode) as byte] + l + (key + masked);
  }

  // Masking works on four bytes at a time, and shows the key where there are zeros.
  lemma MaskByFours(a: seq<byte>, b: seq<byte>, key: MaskKey)
    requires |a| % 4 == 0
    ensures XorMask(a + b, key) == XorMask(a, key) + XorMask(b, key)
    ensures XorMask([0, 0, 0, 0], key) == key
  {
    var whole, parts := XorMask(a + b, key), XorMask(a, key) + XorMask(b, key);
    forall i | 0 <= i < |whole| ensures whole[i] == parts[i] {
      MaskedAt(a + b, key, i);
      if i < |a| {
        MaskedAt(a, key, i);
      } else {
        MaskedAt(b, key, i - |a|);
        RoundByFours(i, |a|);
      }
    }
  }

  lemma MaskedAt(data: seq<byte>, key: MaskKey, i: nat)
    requires i < |data|
    ensures XorMask(data, key)[i] == Xor(data[i], key[i % 4])
  {
  }

  lemma RoundByFours(i: nat, n: nat)
    requires n <= i && n % 4 == 0
    ensures (i - n) % 4 == i % 4
  {
  }

  // What the reader refuses, in this order, of the first two bytes.
  lemma RefusedHeads(s: seq<byte>)
    requires |s| >= 2
    ensures ParseFrame(s) == Err(RsvBits) <==> s[0] as int % 128 >= 16
    ensures ParseFrame(s) == Err(MaskedByServer) <==> s[0] as int % 128 < 16 && s[1] >= 128
  {
    MiddleBits(s[0]);
    hide DecodeLength;
  }

  lemma MiddleBits(b: byte)
    ensures (b as int / 16) % 8 != 0 <==> b as int % 128 >= 16
  {
  }

  // ---- The server's side of a masked frame -----------------------------------------------

  // How a server takes a mask off: byte by byte, the key turning round.
  function Unmasked(data: seq<byte>, key: MaskKey): (out: seq<byte>)
    ensures |out| == |data|
  {
    if data == [] then [] else [Xor(data[0], key[0])] + Unmasked(data[1..], key[1..] + [key[0]])
  }

  function Turned(key: MaskKey, k: nat): MaskKey
  {
    [key[k % 4], key[(k + 1) % 4], key[(k + 2) % 4], key[(k + 3) % 4]]
  }

  lemma {:induction false} UnmaskedFrom(data: seq<byte>, key: MaskKey, k: nat)
    ensures forall i | 0 <= i < |data| :: Unmasked(data, Turned(key, k))[i] == Xor(data[i], key[(k + i) % 4])
  {
    if data != [] {
      var now := Turned(key, k);
      var rest := Unmasked(data[1..], Turned(key, k + 1));
      assert now[1..] + [now[0]] == Turned(key, k + 1) by {
        assert (k + 4) % 4 == k % 4;
      }
      UnmaskedFrom(data[1..], key, k + 1);
      assert Unmasked(data, now) == [Xor(data[0], now[0])] + rest;
      hide Unmasked, Turned;
      forall i | 1 <= i < |data| ensures rest[i - 1] == Xor(data[i], key[(k + i) % 4]) {
        assert data[1..][i - 1] == data[i] && k + 1 + (i - 1) == k + i;
      }
    }
  }

  // What a server reads from the head of `s`: masked frames only (section 5.3).
  function ServerParse(s: seq<byte>): (r: Option<(Frame, nat)>)
    ensures r.Some? ==> 2 <= r.value.1 <= |s|
  {
    if |s| < 2 || (s[0] as int / 16) % 8 != 0 || s[1] < 0x80 then None
    else match DecodeLength(s[1..])
      case None => None
      case Some((length, used)) =>
        var start := 1 + used + 4;
        if |s| < start + length then None
        else Some((Frame(s[0] >= 0x80, s[0] % 16, Unmasked(s[start..start + length], s[1 + used..start])),
                   start + length))
  }

  // Its way and the relay's are one, and undo each other.
  lemma UnmaskMask(data: seq<byte>, mask: MaskKey)
    ensures Unmasked(data, mask) == XorMask(data, mask)
    ensures Unmasked(XorMask(data, mask), mask) == data
  {
    assert Turned(mask, 0) == mask;
    UnmaskedFrom(data, mask, 0);
    UnmaskedFrom(XorMask(data, mask), mask, 0);
    hide Unmasked;
    forall i | 0 <= i < |data|
      ensures XorMask(XorMask(data, mask), mask)[i] == data[i]
    {
      XorCancels(data[i], mask[i % 4]);
    }
  }

  lemma ServerReads(s: seq<byte>, length: nat, used: nat, opcode: Opcode, key: MaskKey, masked: seq<byte>)
    requires |s| >= 2 && s[0] == 0x80 + opcode && s[1] >= 0x80 && DecodeLength(s[1..]) == Some((length, used))
    requires |s| >= 1 + used + 4 + length && s[1 + used..1 + used + 4] == key
    requires s[1 + used + 4..1 + used + 4 + length] == masked
    ensures ServerParse(s) == Some((Frame(true, opcode, Unmasked(masked, key)), 1 + used + 4 + length))
  {
    hide DecodeLength, Unmasked;
  }

  // Every frame the relay writes is read back by a server, whatever key was drawn.
  lemma MaskedRoundTrip(opcode: Opcode, data: seq<byte>, key: MaskKey, rest: seq<byte>)
    requires |data| < USIZE_LIMIT
    ensures var s := BuildFrame(opcode, data, Some(key));
            ServerParse(s + rest) == Some((Frame(true, opcode, data), |s|))
  {
    hide *;
    var s := BuildFrame(opcode, data, Some(key)) + rest;
    var l, masked := LengthBytes(0x80, |data|), XorMask(data, key);
    BuildIs(opcode, data, key);
    FourParts((0x80 + opcode) as byte, l, key, masked, rest);
    LengthRoundTrip(0x80, |data|, key + masked + rest);
    assert s[1..][0] == l[0] == s[1];
    UnmaskMask(data, key);
    ServerReads(s, |data|, |l|, opcode, key, masked);
  }

  lemma BuildIs(opcode: Opcode, data: seq<byte>, key: MaskKey)
    ensures BuildFrame(opcode, data, Some(key))
            == [(0x80 + opcode) as byte] + LengthBytes(0x80, |data|) + key + XorMask(data, key)
    ensures |LengthBytes(0x80, |data|)| > 0 && LengthBytes(0x80, |data|)[0] >= 0x80
  {
    hide LengthBytes, XorMask;
  }

  // And no proper part of such a frame is taken for a frame.
  lemma PartialIsNotRead(opcode: Opcode, data: seq<byte>, key: MaskKey, k: nat)
    requires |data| < USIZE_LIMIT && k < |BuildFrame(opcode, data, Some(key))|
    ensures ServerParse(BuildFrame(opcode, data, Some(key))[..k]).None?
  {
    hide DecodeLength, LengthBytes;
    var built := BuildFrame(opcode, data, Some(key));
    var l := LengthBytes(0x80, |data|);
    var s := built[..k];
    if k >= 2 {
      assert s[1..] == built[1..][..k - 1];
      assert built[1..] == l + (key + XorMask(data, key));
      if k >= 1 + |l| {
        assert s[1..] == l + s[1 + |l|..];
        LengthRoundTrip(0x80, |data|, s[1 + |l|..]);
      } else {
        assert s[1..] == l[..k - 1];
        PartialLength(0x80, |data|, k - 1);
      }
    }
  }
}
