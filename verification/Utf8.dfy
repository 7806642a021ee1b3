/** UTF-8 (section 4 of RFC 3629), its lossy decoding, and case mapping that changes widths. */
module Utf8 {
  import opened Bytes
  import opened Seqs

  predicate Tail(b: byte)
  {
    0x80 <= b < 0xC0
  }

  // Past the end reads as a byte that continues nothing.
  function ByteAt(s: seq<byte>, i: nat): byte
  {
    if i < |s| then s[i] else 0
  }

  // The second byte a three- or four-byte sequence may have.
  predicate SecondFits(first: byte, second: byte)
  {
    && Tail(second)
    && (first == 0xE0 ==> second >= 0xA0) && (first == 0xED ==> second < 0xA0)
    && (first == 0xF0 ==> second >= 0x90) && (first == 0xF4 ==> second < 0x90)
  }

  // The length of the well-formed character that starts `s`, or 0.
  function CharLength(s: seq<byte>): (n: nat)
    requires s != []
    ensures n <= |s| && n <= 4
    ensures forall i | 1 <= i < n :: s[i] >= 0x80
  {
    var b := s[0];
    if b < 0x80 then 1
    else if 0xC2 <= b < 0xE0 then if Tail(ByteAt(s, 1)) then 2 else 0
    else if 0xE0 <= b < 0xF0 then if SecondFits(b, ByteAt(s, 1)) && Tail(ByteAt(s, 2)) then 3 else 0
    else if 0xF0 <= b < 0xF5 then
      if SecondFits(b, ByteAt(s, 1)) && Tail(ByteAt(s, 2)) && Tail(ByteAt(s, 3)) then 4 else 0
    else 0
  }

  predicate IsUtf8(s: seq<byte>)
    decreases |s|
  {
    s == [] || (CharLength(s) > 0 && IsUtf8(s[CharLength(s)..]))
  }

  // How much of an ill-formed start one replacement character stands for: as many bytes as
  // could still have begun a character.
  function GapLength(s: seq<byte>): (n: nat)
    requires s != [] && CharLength(s) == 0
    ensures 1 <= n <= |s| && n <= 3
    ensures forall i | 1 <= i < n :: s[i] >= 0x80
  {
    if 0xE0 <= s[0] < 0xF5 && SecondFits(s[0], ByteAt(s, 1)) then
      if s[0] >= 0xF0 && Tail(ByteAt(s, 2)) then 3 else 2
    else 1
  }

  function PieceLength(s: seq<byte>): (n: nat)
    requires s != []
    ensures 1 <= n <= |s| && n <= 4
    ensures forall i | 1 <= i < n :: s[i] >= 0x80
    ensures s[0] < 0x80 ==> n == 1
  {
    if CharLength(s) > 0 then CharLength(s) else GapLength(s)
  }

  const REPLACEMENT: seq<byte> := [0xEF, 0xBF, 0xBD]

  // The bytes of "\r\nhost:".
  predicate HeaderByte(b: byte)
  {
    b in {0x0D, 0x0A, 0x68, 0x6F, 0x73, 0x74, 0x3A}
  }

  // One well-formed character outside ASCII.
  predicate WideChar(c: seq<byte>)
  {
    c != [] && c[0] >= 0x80 && CharLength(c) == |c|
  }

  // What a mapping makes of such a character. Its width may change, and its text may hold
  // ASCII (the Kelvin sign lower-cases to "k"), but no byte of "\r\nhost:".
  type CharMap = f: seq<byte> -> seq<byte> |
    forall c :: WideChar(c) ==> f(c) != [] && forall b | b in f(c) :: !HeaderByte(b)
    witness c => if WideChar(c) then c else []

  function Same(): CharMap
  {
    c => c
  }

  // The text of the piece at the head of `s`.
  function PieceText(s: seq<byte>, ascii: byte -> byte, wide: CharMap): (t: seq<byte>)
    requires s != []
    ensures t != []
    ensures s[0] < 0x80 ==> t == [ascii(s[0])]
    ensures s[0] >= 0x80 ==> forall b | b in t :: !HeaderByte(b)
  {
    if s[0] < 0x80 then [ascii(s[0])]
    else if CharLength(s) > 0 then
      assert WideChar(s[..CharLength(s)]);
      wide(s[..CharLength(s)])
    else REPLACEMENT
  }

  // The decoded text: every character mapped, every gap replaced.
  function Decoded(s: seq<byte>, ascii: byte -> byte, wide: CharMap): seq<byte>
    decreases |s|
  {
    if s == [] then [] else PieceText(s, ascii, wide) + Decoded(s[PieceLength(s)..], ascii, wide)
  }

  // An ASCII byte always stands for itself, so a piece never reaches over one.
  lemma PieceBefore(s: seq<byte>, k: nat)
    requires 0 < k <= |s| && (k == |s| || s[k] < 0x80)
    ensures PieceLength(s) <= k && PieceLength(s[..k]) == PieceLength(s)
    ensures forall ascii, wide :: PieceText(s[..k], ascii, wide) == PieceText(s, ascii, wide)
  {
    var t := s[..k];
    assert forall i | 0 <= i < k :: t[i] == s[i];
    assert CharLength(t) == CharLength(s);
    assert s[..CharLength(s)] == t[..CharLength(s)];
  }

  // Decoding splits at every ASCII byte.
  lemma {:induction false} DecodedSplits(s: seq<byte>, k: nat, ascii: byte -> byte, wide: CharMap)
    requires k <= |s| && (k == |s| || s[k] < 0x80)
    ensures Decoded(s, ascii, wide) == Decoded(s[..k], ascii, wide) + Decoded(s[k..], ascii, wide)
    decreases |s|
  {
    if k == 0 {
      assert s[..0] == [] && s[0..] == s;
    } else {
      var n, t, rest := PieceLength(s), PieceText(s, ascii, wide), s[PieceLength(s)..];
      PieceBefore(s, k);
      assert rest[..k - n] == s[..k][n..] && rest[k - n..] == s[k..];
      DecodedHead(s, ascii, wide);
      DecodedHead(s[..k], ascii, wide);
      hide *;
      DecodedSplits(rest, k - n, ascii, wide);
      ConcatAssociates(t, Decoded(rest[..k - n], ascii, wide), Decoded(rest[k - n..], ascii, wide));
    }
  }

  lemma DecodedHead(s: seq<byte>, ascii: byte -> byte, wide: CharMap)
    requires s != []
    ensures Decoded(s, ascii, wide) == PieceText(s, ascii, wide) + Decoded(s[PieceLength(s)..], ascii, wide)
  {
    hide PieceText, PieceLength;
  }

  predicate Ascii(s: seq<byte>)
  {
    forall b | b in s :: b < 0x80
  }

  lemma AsciiHead(s: seq<byte>, ascii: byte -> byte, wide: CharMap)
    requires s != [] && Ascii(s)
    ensures PieceLength(s) == 1 && PieceText(s, ascii, wide) == [ascii(s[0])] && Ascii(s[1..])
  {
    assert s[0] in s && forall b | b in s[1..] :: b in s;
  }

  lemma {:induction false} DecodedAscii(s: seq<byte>, ascii: byte -> byte, wide: CharMap)
    requires Ascii(s)
    ensures |Decoded(s, ascii, wide)| == |s|
    ensures forall i | 0 <= i < |s| :: Decoded(s, ascii, wide)[i] == ascii(s[i])
    decreases |s|
  {
    if s != [] {
      DecodedHead(s, ascii, wide);
      AsciiHead(s, ascii, wide);
      hide PieceText, PieceLength, Decoded, Ascii;
      DecodedAscii(s[1..], ascii, wide);
    }
  }

  // ---- What UTF-8 is: the encodings of scalar values (section 3 of RFC 3629) ----------------

  type scalar = n: int | 0 <= n < 0xD800 || 0xE000 <= n < 0x11_0000

  // The low six bits, in a byte that continues a character.
  function Low(n: nat): byte
  {
    0x80 + n % 0x40
  }

  function Encoding(n: scalar): (s: seq<byte>)
    ensures 1 <= |s| <= 4
  {
    if n < 0x80 then [n]
    else if n < 0x800 then [0xC0 + n / 0x40, Low(n)]
    else if n < 0x1_0000 then [0xE0 + n / 0x1000, Low(n / 0x40), Low(n)]
    else [0xF0 + n / 0x4_0000, Low(n / 0x1000), Low(n / 0x40), Low(n)]
  }

  function Encoded(ns: seq<scalar>): seq<byte>
  {
    if ns == [] then [] else Encoding(ns[0]) + Encoded(ns[1..])
  }

  // The number a well-formed character stands for.
  function Value(s: seq<byte>): int
    requires s != [] && CharLength(s) > 0
  {
    match CharLength(s)
    case 1 => s[0]
    case 2 => (s[0] as int - 0xC0) * 0x40 + (s[1] as int - 0x80)
    case 3 => ((s[0] as int - 0xE0) * 0x40 + (s[1] as int - 0x80)) * 0x40 + (s[2] as int - 0x80)
    case _ =>
      (((s[0] as int - 0xF0) * 0x40 + (s[1] as int - 0x80)) * 0x40 + (s[2] as int - 0x80)) * 0x40 + (s[3] as int - 0x80)
  }

  lemma Digits(a: nat, b: nat, c: nat, d: nat)
    requires b < 0x40 && c < 0x40 && d < 0x40
    ensures (a * 0x40 + b) / 0x40 == a && (a * 0x40 + b) % 0x40 == b
    ensures var n := (a * 0x40 + b) * 0x40 + c; n / 0x1000 == a && n / 0x40 % 0x40 == b && n % 0x40 == c
    ensures var n := ((a * 0x40 + b) * 0x40 + c) * 0x40 + d;
            n / 0x4_0000 == a && n / 0x1000 % 0x40 == b && n / 0x40 % 0x40 == c && n % 0x40 == d
  {
  }

  lemma CharIsEncoding(s: seq<byte>)
    requires s != [] && CharLength(s) > 0
    ensures var v := Value(s); (0 <= v < 0xD800 || 0xE000 <= v < 0x11_0000) && Encoding(v) == s[..CharLength(s)]
  {
    var n := CharLength(s);
    if n == 2 {
      TwoIsEncoding(s[0], s[1]);
      assert s[..2] == [s[0], s[1]];
    } else if n == 3 {
      ThreeIsEncoding(s[0], s[1], s[2]);
      assert s[..3] == [s[0], s[1], s[2]];
    } else if n == 4 {
      FourIsEncoding(s[0], s[1], s[2], s[3]);
      assert s[..4] == [s[0], s[1], s[2], s[3]];
    } else {
      assert s[..1] == [s[0]];
    }
  }

  lemma TwoIsEncoding(a: byte, b: byte)
    requires 0xC2 <= a < 0xE0 && Tail(b)
    ensures var v := (a - 0xC0) * 0x40 + (b - 0x80); 0 <= v < 0xD800 && Encoding(v) == [a, b]
  {
    Digits(a - 0xC0, b - 0x80, 0, 0);
  }

  lemma ThreeIsEncoding(a: byte, b: byte, c: byte)
    requires 0xE0 <= a < 0xF0 && SecondFits(a, b) && Tail(c)
    ensures var v := ((a - 0xE0) * 0x40 + (b - 0x80)) * 0x40 + (c - 0x80);
            (0 <= v < 0xD800 || 0xE000 <= v < 0x11_0000) && Encoding(v) == [a, b, c]
  {
    Digits(a - 0xE0, b - 0x80, c - 0x80, 0);
  }

  lemma FourIsEncoding(a: byte, b: byte, c: byte, d: byte)
    requires 0xF0 <= a < 0xF5 && SecondFits(a, b) && Tail(c) && Tail(d)
    ensures var v := (((a - 0xF0) * 0x40 + (b - 0x80)) * 0x40 + (c - 0x80)) * 0x40 + (d - 0x80);
            0xE000 <= v < 0x11_0000 && Encoding(v) == [a, b, c, d]
  {
    Digits(a - 0xF0, b - 0x80, c - 0x80, d - 0x80);
  }

  lemma EncodingIsChar(n: scalar, rest: seq<byte>)
    ensures CharLength(Encoding(n) + rest) == |Encoding(n)|
  {
    var e := Encoding(n);
    var s := e + rest;
    assert forall i | 0 <= i < |e| :: s[i] == e[i] && ByteAt(s, i) == e[i];
  }

  // A byte string is UTF-8 if and only if it is the encodings of some scalar values in turn.
  lemma Utf8Exactly(s: seq<byte>)
    ensures IsUtf8(s) <==> exists ns: seq<scalar> :: Encoded(ns) == s
  {
    if IsUtf8(s) {
      var ns := Scalars(s);
    }
    if ns: seq<scalar> :| Encoded(ns) == s {
      EncodedIsUtf8(ns);
    }
  }

  lemma {:induction false} Scalars(s: seq<byte>) returns (ns: seq<scalar>)
    requires IsUtf8(s)
    ensures Encoded(ns) == s
    decreases |s|
  {
    if s == [] {
      ns := [];
    } else {
      var n := CharLength(s);
      CharIsEncoding(s);
      var rest := Scalars(s[n..]);
      ns := [Value(s)] + rest;
      assert s == s[..n] + s[n..];
    }
  }

  lemma {:induction false} EncodedIsUtf8(ns: seq<scalar>)
    ensures IsUtf8(Encoded(ns))
  {
    if ns != [] {
      var e, rest := Encoding(ns[0]), Encoded(ns[1..]);
      EncodingIsChar(ns[0], rest);
      EncodedIsUtf8(ns[1..]);
      assert (e + rest)[|e|..] == rest;
    }
  }

  lemma {:induction false} AsciiIsUtf8(s: seq<byte>)
    requires Ascii(s)
    ensures IsUtf8(s)
    decreases |s|
  {
    if s != [] {
      assert s[0] in s && forall b | b in s[1..] :: b in s;
      AsciiIsUtf8(s[1..]);
    }
  }

  // ---- What one replacement character stands for ---------------------------------------------

  // The bytes begin a character and do not end it.
  ghost predicate Begins(t: seq<byte>)
  {
    exists n: scalar :: |t| < |Encoding(n)| && t <= Encoding(n)
  }

  lemma CharBegins(c: seq<byte>, k: nat)
    requires c != [] && CharLength(c) == |c| && k < |c|
    ensures Begins(c[..k])
  {
    CharIsEncoding(c);
    var n: scalar := Value(c);
    assert c[..|c|] == c && c[..k] <= Encoding(n);
  }

  lemma BegunFits(t: seq<byte>)
    requires |t| >= 2 && Begins(t)
    ensures |t| <= 3 && 0xE0 <= t[0] < 0xF5 && SecondFits(t[0], t[1])
    ensures |t| == 3 ==> t[0] >= 0xF0 && Tail(t[2])
  {
    var n: scalar :| |t| < |Encoding(n)| && t <= Encoding(n);
    var e := Encoding(n);
    EncodingIsChar(n, []);
    assert e + [] == e && t[0] == e[0] && t[1] == e[1];
    assert |t| == 3 ==> t[2] == e[2];
    hide Encoding;
  }

  // A gap is as long as its bytes still begin a character, and one byte at least.
  lemma GapIsMaximal(s: seq<byte>, k: nat)
    requires s != [] && CharLength(s) == 0 && 1 < k <= |s|
    ensures Begins(s[..k]) <==> k <= GapLength(s)
  {
    var t := s[..k];
    assert t[0] == s[0] && t[1] == s[1] && (k > 2 ==> t[2] == s[2]);
    if Begins(t) {
      BegunFits(t);
    }
    if k <= GapLength(s) {
      var c := t + (if s[0] < 0xF0 || k == 3 then [0x80] else [0x80, 0x80]);
      assert c[..k] == t;
      CharBegins(c, k);
    }
  }

  // And the replacement is U+FFFD.
  lemma ReplacementIs()
    ensures REPLACEMENT == Encoding(0xFFFD)
  {
  }
}
