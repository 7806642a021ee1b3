/** Rewriting the Host header of a request head, and reading it back. */
module HttpHost {
  import opened Bytes
  import opened Seqs
  import opened TlsSni
  import opened Utf8
  import opened Wrappers

  const CR: byte := 0x0D
  const LF: byte := 0x0A
  const SPACE: byte := 0x20
  const TAB: byte := 0x09
  const COLON: byte := 0x3A
  const HEAD_MAX: nat := 4096

  // "\r\nhost:" and "\nhost:".
  const CRLF_HOST: seq<byte> := [0x0D, 0x0A, 0x68, 0x6F, 0x73, 0x74, 0x3A]
  const LF_HOST: seq<byte> := [0x0A, 0x68, 0x6F, 0x73, 0x74, 0x3A]

  function LowerByte(b: byte): byte
  {
    if 0x41 <= b <= 0x5A then b + 0x20 else b
  }

  predicate MatchAt(s: seq<byte>, pat: seq<byte>, k: nat)
  {
    k + |pat| <= |s| && forall j | 0 <= j < |pat| :: LowerByte(s[k + j]) == pat[j]
  }

  // The text stands at `k`, its letters in either case.
  predicate SpelledAt(s: seq<byte>, text: string, k: nat)
  {
    && k + |text| <= |s|
    && forall j | 0 <= j < |text| ::
         s[k + j] == text[j] as int || ('a' <= text[j] <= 'z' && s[k + j] == text[j] as int - 0x20)
  }

  // The bytes of a text without capitals.
  predicate IsText(pat: seq<byte>, text: string)
  {
    |pat| == |text| && forall j | 0 <= j < |text| :: pat[j] == text[j] as int && !('A' <= text[j] <= 'Z')
  }

  lemma MatchSpells(s: seq<byte>, pat: seq<byte>, text: string, k: nat)
    requires IsText(pat, text)
    ensures MatchAt(s, pat, k) <==> SpelledAt(s, text, k)
  {
    if k + |text| <= |s| {
      forall j | 0 <= j < |text|
        ensures LowerByte(s[k + j]) == pat[j] <==>
                s[k + j] == text[j] as int || ('a' <= text[j] <= 'z' && s[k + j] == text[j] as int - 0x20)
      {
        assert pat[j] == text[j] as int;
      }
    }
  }

  // What the searches look for.
  lemma NamesSpell(s: seq<byte>, k: nat)
    ensures MatchAt(s, CRLF_HOST, k) <==> SpelledAt(s, "\r\nhost:", k)
    ensures MatchAt(s, LF_HOST, k) <==> SpelledAt(s, "\nhost:", k)
  {
    assert IsText(CRLF_HOST, "\r\nhost:") && IsText(LF_HOST, "\nhost:");
    hide MatchAt, SpelledAt, IsText;
    MatchSpells(s, CRLF_HOST, "\r\nhost:", k);
    MatchSpells(s, LF_HOST, "\nhost:", k);
  }

  function FindFrom(s: seq<byte>, pat: seq<byte>, from: nat): (r: Option<nat>)
    ensures r.Some? ==> from <= r.value && MatchAt(s, pat, r.value)
    ensures forall k | from <= k && MatchAt(s, pat, k) :: r.Some? && r.value <= k
    decreases |s| - from
  {
    if from + |pat| > |s| then None
    else if MatchAt(s, pat, from) then Some(from)
    else FindFrom(s, pat, from + 1)
  }

  function Find(s: seq<byte>, pat: seq<byte>): (r: Option<nat>)
    ensures r.Some? ==> MatchAt(s, pat, r.value) && r.value + |pat| <= |s|
    ensures forall k | MatchAt(s, pat, k) :: r.Some? && r.value <= k
  {
    FindFrom(s, pat, 0)
  }

  predicate Blank(b: byte)
  {
    b == SPACE || b == TAB
  }

  predicate Break(b: byte)
  {
    b == CR || b == LF
  }

  function SkipBlanks(s: seq<byte>, from: nat): (to: nat)
    requires from <= |s|
    ensures from <= to <= |s|
    ensures forall k | from <= k < to :: Blank(s[k])
    ensures to == |s| || !Blank(s[to])
    decreases |s| - from
  {
    if from < |s| && Blank(s[from]) then SkipBlanks(s, from + 1) else from
  }

  function LineEnd(s: seq<byte>, from: nat): (to: nat)
    requires from <= |s|
    ensures from <= to <= |s|
    ensures forall k | from <= k < to :: !Break(s[k])
    ensures to == |s| || Break(s[to])
    decreases |s| - from
  {
    if from < |s| && !Break(s[from]) then LineEnd(s, from + 1) else from
  }

  // ---- Rewriting -----------------------------------------------------------------------------

  // Just past the colon of the first Host header: a CRLF one, or else a bare LF one.
  function ValueStart(s: seq<byte>): (m: Option<nat>)
    ensures m.Some? ==> 6 <= m.value <= |s|
  {
    match Find(s, CRLF_HOST)
    case Some(i) => Some(i + 7)
    case None =>
      match Find(s, LF_HOST)
      case Some(i) => Some(i + 6)
      case None => None
  }

  function ValueEnd(s: seq<byte>, m: nat): (e: nat)
    requires m <= |s|
    ensures m <= e <= |s|
  {
    LineEnd(s, SkipBlanks(s, m))
  }

  // The value, with its leading blanks, gives way to one space and the new host; every
  // byte outside it stays.
  function Replaced(s: seq<byte>, host: seq<byte>): Option<seq<byte>>
  {
    match ValueStart(s)
    case None => None
    case Some(m) => Some(s[..m] + [SPACE] + host + s[ValueEnd(s, m)..])
  }

  function Position(s: seq<byte>, b: byte): (r: Option<nat>)
    ensures r.Some? ==> r.value < |s| && s[r.value] == b && forall k | 0 <= k < r.value :: s[k] != b
    ensures r.None? ==> b !in s
  {
    if s == [] then None
    else if s[0] == b then Some(0)
    else match Position(s[1..], b)
         case None => None
         case Some(k) => Some(k + 1)
  }

  // The two scans over a header line: past the blanks, then to the end of the line.
  method ScanValue(rest: seq<byte>, from: nat) returns (start: nat, end: nat)
    requires from <= |rest|
    ensures start == SkipBlanks(rest, from) && end == LineEnd(rest, start)
  {
    start := from;
    while start < |rest| && (rest[start] == SPACE || rest[start] == TAB)
      invariant start <= |rest| && SkipBlanks(rest, start) == SkipBlanks(rest, from)
    {
      start := start + 1;
    }
    end := start;
    while end < |rest| && rest[end] != CR && rest[end] != LF
      invariant end <= |rest| && LineEnd(rest, end) == LineEnd(rest, start)
    {
      end := end + 1;
    }
  }

  lemma {:induction false} SkipShifted(s: seq<byte>, k: nat, from: nat)
    requires k + from <= |s|
    ensures k + SkipBlanks(s[k..], from) == SkipBlanks(s, k + from)
    decreases |s| - from
  {
    if k + from < |s| && Blank(s[k + from]) {
      SkipShifted(s, k, from + 1);
    }
  }

  lemma {:induction false} LineEndShifted(s: seq<byte>, k: nat, from: nat)
    requires k + from <= |s|
    ensures k + LineEnd(s[k..], from) == LineEnd(s, k + from)
    decreases |s| - from
  {
    if k + from < |s| && !Break(s[k + from]) {
      LineEndShifted(s, k, from + 1);
    }
  }

  method FindHostLine(data: seq<byte>) returns (lineStart: Option<nat>)
    ensures lineStart.None? <==> ValueStart(data).None?
    ensures lineStart.Some? ==>
              && ValueStart(data) == Some(lineStart.value + 5)
              && Position(data[lineStart.value..], COLON) == Some(4)
  {
    hide Position, FindFrom;
    var crlf := Find(data, CRLF_HOST);
    if crlf.Some? {
      ColonAt(data, CRLF_HOST, crlf.value, 2);
      return Some(crlf.value + 2);
    }
    var lf := Find(data, LF_HOST);
    if lf.None? {
      return None;
    }
    ColonAt(data, LF_HOST, lf.value, 1);
    return Some(lf.value + 1);
  }

  method ReplaceHttpHost(data: seq<byte>, newHost: seq<byte>) returns (out: Option<seq<byte>>)
    ensures out == Replaced(data, newHost)
  {
    hide ValueStart, Position, SkipBlanks, LineEnd, ValueEnd;
    var line := FindHostLine(data);
    if line.None? {
      return None;
    }
    var lineStart := line.value;
    var rest := data[lineStart..];
    var colon := Position(rest, COLON).value;
    var valStart, lineEnd := ScanValue(rest, colon + 1);
    EndShifted(data, lineStart, colon + 1);
    assert data[..lineStart] + rest[..colon + 1] == data[..lineStart + 5];
    assert rest[lineEnd..] == data[lineStart + lineEnd..];
    return Some(data[..lineStart] + rest[..colon + 1] + [SPACE] + newHost + rest[lineEnd..]);
  }

  lemma EndShifted(s: seq<byte>, k: nat, from: nat)
    requires k + from <= |s|
    ensures k + LineEnd(s[k..], SkipBlanks(s[k..], from)) == ValueEnd(s, k + from)
  {
    SkipShifted(s, k, from);
    LineEndShifted(s, k, SkipBlanks(s[k..], from));
  }

  lemma FirstAt(s: seq<byte>, b: byte, k: nat)
    requires k < |s| && s[k] == b && forall j | 0 <= j < k :: s[j] != b
    ensures Position(s, b) == Some(k)
  {
    assert b in s;
    hide Position;
  }

  // The first colon of a matched line is the one that ends the match.
  lemma ColonAt(s: seq<byte>, pat: seq<byte>, i: nat, skip: nat)
    requires 1 <= skip <= 2 && pat == CRLF_HOST[2 - skip..] && MatchAt(s, pat, i)
    ensures skip + 5 == |pat| && i + |pat| <= |s|
    ensures Position(s[i + skip..], COLON) == Some(4)
  {
    var rest := s[i + skip..];
    forall k | 0 <= k < 5 ensures LowerByte(rest[k]) == CRLF_HOST[2 + k] {
      assert LowerByte(s[i + (skip + k)]) == pat[skip + k];
    }
    assert rest[4] == COLON && forall k | 0 <= k < 4 :: rest[k] != COLON;
    hide LowerByte, MatchAt;
    FirstAt(rest, COLON, 4);
  }

  // ---- The text that is searched --------------------------------------------------------------

  // The reader searches the lossily decoded, lower-cased text, and uses the offset it finds
  // there as an offset into the bytes. `lower` is the lower-casing of characters outside
  // ASCII; which of the two small sigmas one becomes changes no width.
  function LowerText(lower: CharMap, s: seq<byte>): seq<byte>
  {
    Decoded(s, LowerByte, lower)
  }

  predicate StandsAt(t: seq<byte>, pat: seq<byte>, i: nat)
  {
    i + |pat| <= |t| && forall j | 0 <= j < |pat| :: t[i + j] == pat[j]
  }

  function IndexFrom(t: seq<byte>, pat: seq<byte>, from: nat): (r: Option<nat>)
    ensures r.Some? ==> from <= r.value && StandsAt(t, pat, r.value)
    ensures forall i | from <= i && StandsAt(t, pat, i) :: r.Some? && r.value <= i
    decreases |t| - from
  {
    if from + |pat| > |t| then None
    else if StandsAt(t, pat, from) then Some(from)
    else IndexFrom(t, pat, from + 1)
  }

  // How much longer the text of `s` is than its bytes.
  function Drift(lower: CharMap, s: seq<byte>): int
    decreases |s|
  {
    if s == [] then 0
    else |PieceText(s, LowerByte, lower)| - PieceLength(s) + Drift(lower, s[PieceLength(s)..])
  }

  lemma {:induction false} DriftIsWidth(lower: CharMap, s: seq<byte>)
    ensures |LowerText(lower, s)| == |s| + Drift(lower, s)
    decreases |s|
  {
    if s != [] {
      DriftIsWidth(lower, s[PieceLength(s)..]);
    }
  }

  lemma {:induction false} NoDriftInAscii(lower: CharMap, s: seq<byte>)
    requires Ascii(s)
    ensures Drift(lower, s) == 0
  {
    DecodedAscii(s, LowerByte, lower);
    DriftIsWidth(lower, s);
  }

  predicate KeepsWidths(lower: CharMap, s: seq<byte>)
    decreases |s|
  {
    s != [] ==>
      && (CharLength(s) > 0 ==> |PieceText(s, LowerByte, lower)| == CharLength(s))
      && KeepsWidths(lower, s[PieceLength(s)..])
  }

  predicate GapsOfThree(s: seq<byte>)
    decreases |s|
  {
    s != [] ==> (CharLength(s) == 0 ==> GapLength(s) == 3) && GapsOfThree(s[PieceLength(s)..])
  }

  // Where lower-casing keeps widths, the text is never shorter than the bytes, and as long
  // exactly when every replacement character stands for three bytes.
  lemma {:induction false} DriftOfGaps(lower: CharMap, s: seq<byte>)
    requires KeepsWidths(lower, s)
    ensures Drift(lower, s) >= 0
    ensures Drift(lower, s) == 0 <==> GapsOfThree(s)
    decreases |s|
  {
    if s != [] {
      DriftOfGaps(lower, s[PieceLength(s)..]);
      assert s[0] < 0x80 ==> CharLength(s) == 1;
    }
  }

  predicate HeaderBytes(pat: seq<byte>)
  {
    forall b | b in pat :: HeaderByte(b)
  }

  lemma HeadMustFit(t: seq<byte>, s: seq<byte>, pat: seq<byte>, i: nat)
    requires pat != []
    ensures StandsAt(t, pat, i) ==> i < |t| && t[i] == pat[0]
    ensures MatchAt(s, pat, i) ==> i < |s| && LowerByte(s[i]) == pat[0]
  {
    if StandsAt(t, pat, i) {
      assert t[i + 0] == pat[0];
    }
    if MatchAt(s, pat, i) {
      assert LowerByte(s[i + 0]) == pat[0];
    }
  }

  // The text starts with a piece of "\r\nhost:" exactly when the bytes do.
  lemma {:induction false} TextStarts(lower: CharMap, s: seq<byte>, pat: seq<byte>)
    requires HeaderBytes(pat)
    ensures StandsAt(LowerText(lower, s), pat, 0) <==> MatchAt(s, pat, 0)
    decreases |pat|
  {
    if pat != [] && s != [] {
      assert HeaderByte(pat[0]) && HeaderBytes(pat[1..]);
      var w, t := PieceText(s, LowerByte, lower), LowerText(lower, s[PieceLength(s)..]);
      assert LowerText(lower, s) == w + t;
      if s[0] >= 0x80 {
        assert w[0] in w && (w + t)[0] == w[0];
        HeadMustFit(w + t, s, pat, 0);
      } else {
        TextStarts(lower, s[1..], pat[1..]);
        StartsWithHead(w[0], t, pat);
        MatchWithHead(s, pat);
      }
    }
  }

  lemma StartsWithHead(b: byte, t: seq<byte>, pat: seq<byte>)
    requires pat != []
    ensures StandsAt([b] + t, pat, 0) <==> b == pat[0] && StandsAt(t, pat[1..], 0)
  {
    var all := [b] + t;
    if StandsAt(all, pat, 0) {
      assert all[0 + 0] == pat[0];
      forall j | 0 <= j < |pat| - 1 ensures t[0 + j] == pat[1..][j] {
        assert all[0 + (j + 1)] == pat[j + 1];
      }
    }
    if b == pat[0] && StandsAt(t, pat[1..], 0) {
      forall j | 0 <= j < |pat| ensures all[0 + j] == pat[j] {
        assert j > 0 ==> t[0 + (j - 1)] == pat[1..][j - 1];
      }
    }
  }

  lemma MatchWithHead(s: seq<byte>, pat: seq<byte>)
    requires s != [] && pat != []
    ensures MatchAt(s, pat, 0) <==> LowerByte(s[0]) == pat[0] && MatchAt(s[1..], pat[1..], 0)
  {
    if MatchAt(s, pat, 0) {
      assert LowerByte(s[0 + 0]) == pat[0];
      forall j | 0 <= j < |pat| - 1 ensures LowerByte(s[1..][0 + j]) == pat[1..][j] {
        assert LowerByte(s[0 + (j + 1)]) == pat[j + 1];
      }
    }
    if LowerByte(s[0]) == pat[0] && MatchAt(s[1..], pat[1..], 0) {
      forall j | 0 <= j < |pat| ensures LowerByte(s[0 + j]) == pat[j] {
        assert j > 0 ==> LowerByte(s[1..][0 + (j - 1)]) == pat[1..][j - 1];
      }
    }
  }

  lemma StandsShifted(w: seq<byte>, t: seq<byte>, pat: seq<byte>, i: nat)
    ensures StandsAt(w + t, pat, |w| + i) <==> StandsAt(t, pat, i)
  {
    var all := w + t;
    if StandsAt(all, pat, |w| + i) {
      forall j | 0 <= j < |pat| ensures t[i + j] == pat[j] {
        assert all[|w| + i + j] == pat[j];
      }
    }
    if StandsAt(t, pat, i) {
      forall j | 0 <= j < |pat| ensures all[|w| + i + j] == pat[j] {
        assert t[i + j] == pat[j];
      }
    }
  }

  lemma MatchShifted(s: seq<byte>, n: nat, pat: seq<byte>, k: nat)
    requires n <= |s|
    ensures MatchAt(s, pat, n + k) <==> MatchAt(s[n..], pat, k)
  {
    var t := s[n..];
    if MatchAt(s, pat, n + k) {
      forall j | 0 <= j < |pat| ensures LowerByte(t[k + j]) == pat[j] {
        assert LowerByte(s[n + k + j]) == pat[j];
      }
    }
    if MatchAt(t, pat, k) {
      forall j | 0 <= j < |pat| ensures LowerByte(s[n + k + j]) == pat[j] {
        assert LowerByte(t[k + j]) == pat[j];
      }
    }
  }

  lemma FindAfter(s: seq<byte>, n: nat, pat: seq<byte>)
    requires n <= |s| && forall k | 0 <= k < n :: !MatchAt(s, pat, k)
    ensures Find(s, pat) ==
            match Find(s[n..], pat)
            case Some(k) => Some(n + k)
            case None => None
  {
    hide MatchAt, FindFrom;
    var whole, part := Find(s, pat), Find(s[n..], pat);
    if whole.Some? {
      MatchShifted(s, n, pat, whole.value - n);
    }
    if part.Some? {
      MatchShifted(s, n, pat, part.value);
    }
  }

  lemma IndexAfter(w: seq<byte>, t: seq<byte>, pat: seq<byte>)
    requires forall i | 0 <= i < |w| :: !StandsAt(w + t, pat, i)
    ensures IndexFrom(w + t, pat, 0) ==
            match IndexFrom(t, pat, 0)
            case Some(i) => Some(|w| + i)
            case None => None
  {
    hide StandsAt;
    var whole, part := IndexFrom(w + t, pat, 0), IndexFrom(t, pat, 0);
    if whole.Some? {
      StandsShifted(w, t, pat, whole.value - |w|);
    }
    if part.Some? {
      StandsShifted(w, t, pat, part.value);
    }
  }

  // Searching the text finds the header exactly when searching the bytes does, at the place
  // where the text of the bytes before it ends.
  lemma {:induction false} TextFind(lower: CharMap, s: seq<byte>, pat: seq<byte>)
    requires pat != [] && HeaderBytes(pat)
    ensures IndexFrom(LowerText(lower, s), pat, 0) ==
            match Find(s, pat)
            case Some(k) => Some(|LowerText(lower, s[..k])|)
            case None => None
    decreases |s|
  {
    hide MatchAt, StandsAt, FindFrom, IndexFrom, PieceText, PieceLength, HeaderBytes;
    TextStarts(lower, s, pat);
    if s == [] {
      NothingFound(pat);
    } else if MatchAt(s, pat, 0) {
      assert s[..0] == [];
    } else {
      var n := PieceLength(s);
      var w, t := PieceText(s, LowerByte, lower), LowerText(lower, s[n..]);
      assert LowerText(lower, s) == w + t;
      hide LowerText;
      HeadOnly(s, w, t, pat);
      FindAfter(s, n, pat);
      IndexAfter(w, t, pat);
      TextFind(lower, s[n..], pat);
      if Find(s, pat).Some? {
        TextBefore(lower, s, pat, Find(s, pat).value);
      }
    }
  }

  lemma NothingFound(pat: seq<byte>)
    requires pat != []
    ensures Find([], pat).None? && IndexFrom([], pat, 0).None?
  {
  }

  // Nothing starts inside a piece.
  lemma HeadOnly(s: seq<byte>, w: seq<byte>, t: seq<byte>, pat: seq<byte>)
    requires s != [] && pat != [] && HeaderBytes(pat) && |w| > 0
    requires s[0] < 0x80 ==> |w| == 1
    requires s[0] >= 0x80 ==> forall b | b in w :: !HeaderByte(b)
    requires !MatchAt(s, pat, 0) && !StandsAt(w + t, pat, 0)
    ensures forall k | 0 <= k < PieceLength(s) :: !MatchAt(s, pat, k)
    ensures forall i | 0 <= i < |w| :: !StandsAt(w + t, pat, i)
  {
    assert HeaderByte(pat[0]);
    forall k | 0 <= k < PieceLength(s) ensures !MatchAt(s, pat, k) {
      HeadMustFit(w + t, s, pat, k);
    }
    forall i | 0 <= i < |w| ensures !StandsAt(w + t, pat, i) {
      HeadMustFit(w + t, s, pat, i);
      assert (w + t)[i] == w[i] && w[i] in w;
    }
  }

  lemma TextBefore(lower: CharMap, s: seq<byte>, pat: seq<byte>, k: nat)
    requires s != [] && pat != [] && HeaderBytes(pat) && MatchAt(s, pat, k) && k >= PieceLength(s)
    ensures var n := PieceLength(s);
            |LowerText(lower, s[..k])| == |PieceText(s, LowerByte, lower)| + |LowerText(lower, s[n..][..k - n])|
  {
    HeadMustFit([], s, pat, k);
    assert HeaderByte(pat[0]) && s[k] < 0x80;
    PieceBefore(s, k);
    TakeDrop(s, PieceLength(s), k);
  }

  // ---- Reading ------------------------------------------------------------------------------------

  // The characters Rust's `trim` removes, in UTF-8.
  predicate WhiteChar(c: seq<byte>)
  {
    || (|c| == 1 && White(c[0]))
    || (|c| == 2 && c[0] == 0xC2 && (c[1] == 0x85 || c[1] == 0xA0))
    || (|c| == 3 && c[0] == 0xE1 && c[1] == 0x9A && c[2] == 0x80)
    || (|c| == 3 && c[0] == 0xE2 && c[1] == 0x80
        && (0x80 <= c[2] <= 0x8A || c[2] == 0xA8 || c[2] == 0xA9 || c[2] == 0xAF))
    || (|c| == 3 && c[0] == 0xE2 && c[1] == 0x81 && c[2] == 0x9F)
    || (|c| == 3 && c[0] == 0xE3 && c[1] == 0x80 && c[2] == 0x80)
  }

  predicate White(b: byte)
  {
    9 <= b <= 13 || b == SPACE
  }

  // The length of a white character at the start, or at the end, or 0.
  function WhiteStart(s: seq<byte>): (n: nat)
    ensures n <= |s|
  {
    if |s| >= 1 && WhiteChar(s[..1]) then 1
    else if |s| >= 2 && WhiteChar(s[..2]) then 2
    else if |s| >= 3 && WhiteChar(s[..3]) then 3
    else 0
  }

  function WhiteEnd(s: seq<byte>): (n: nat)
    ensures n <= |s|
  {
    if |s| >= 1 && WhiteChar(s[|s| - 1..]) then 1
    else if |s| >= 2 && WhiteChar(s[|s| - 2..]) then 2
    else if |s| >= 3 && WhiteChar(s[|s| - 3..]) then 3
    else 0
  }

  function TrimFront(s: seq<byte>): (t: seq<byte>)
    ensures |t| <= |s|
    decreases |s|
  {
    if WhiteStart(s) > 0 then TrimFront(s[WhiteStart(s)..]) else s
  }

  function TrimBack(s: seq<byte>): (t: seq<byte>)
    ensures |t| <= |s|
    decreases |s|
  {
    if WhiteEnd(s) > 0 then TrimBack(s[..|s| - WhiteEnd(s)]) else s
  }

  function Id(b: byte): byte
  {
    b
  }

  function Trimmed(value: seq<byte>): seq<byte>
  {
    TrimBack(TrimFront(Decoded(value, Id, Same())))
  }

  function Head(data: seq<byte>): seq<byte>
  {
    if |data| > HEAD_MAX then data[..HEAD_MAX] else data
  }

  // The value of a header line, from just past its colon.
  function ValueAt(head: seq<byte>, m: nat): Option<seq<byte>>
    requires m <= |head|
  {
    var start := SkipBlanks(head, m);
    var host := Trimmed(head[start..LineEnd(head, start)]);
    if host == [] then None else Some(host)
  }

  // The value after the header name at `i`, which need not lie within the bytes.
  function ReadAt(head: seq<byte>, i: nat): Reading
  {
    if i + 7 > |head| then OutOfBounds else ReadingOf(ValueAt(head, i + 7))
  }

  function HostRaw(lower: CharMap, data: seq<byte>): Reading
  {
    match IndexFrom(LowerText(lower, Head(data)), CRLF_HOST, 0)
    case None => NoHost
    case Some(i) => ReadAt(Head(data), i)
  }

  method HttpHostRaw(lower: CharMap, data: seq<byte>) returns (r: Reading)
    ensures r == HostRaw(lower, data)
  {
    hide IndexFrom, ValueAt, Decoded;
    var head := if |data| > HEAD_MAX then data[..HEAD_MAX] else data;
    var text := Decoded(head, LowerByte, lower);
    assert text == LowerText(lower, Head(data));
    var i := IndexFrom(text, CRLF_HOST, 0);
    if i.None? {
      return NoHost;
    }
    if i.value + 7 > |head| {
      return OutOfBounds;
    }
    var host := ReadValue(head, i.value + 7);
    return ReadingOf(host);
  }

  method ReadValue(head: seq<byte>, m: nat) returns (host: Option<seq<byte>>)
    requires m <= |head|
    ensures host == ValueAt(head, m)
  {
    NothingToRead();
    hide SkipBlanks, LineEnd, Trimmed;
    var rest := head[m..];
    var start, j := ScanValue(rest, 0);
    SkipShifted(head, m, 0);
    LineEndShifted(head, m, start);
    assert rest[start..j] == head[m + start..m + j];
    if j == start {
      return None;
    }
    var value := Trimmed(rest[start..j]);
    if value == [] {
      return None;
    }
    return Some(value);
  }

  lemma NothingToRead()
    ensures Trimmed([]) == []
  {
  }

  lemma CrlfHeaderBytes()
    ensures HeaderBytes(CRLF_HOST)
  {
  }

  // Where the text of the bytes before `k` ends: the offset the reader takes for `k`.
  function Offset(lower: CharMap, head: seq<byte>, k: nat): nat
    requires k <= |head|
  {
    |LowerText(lower, head[..k])|
  }

  // That offset is the byte offset exactly when the bytes in front do not drift; behind
  // ASCII they never do.
  lemma OffsetIsByteOffset(lower: CharMap, head: seq<byte>, k: nat)
    requires k <= |head|
    ensures Offset(lower, head, k) == k + Drift(lower, head[..k])
    ensures Offset(lower, head, k) == k <==> Drift(lower, head[..k]) == 0
    ensures Ascii(head[..k]) ==> Offset(lower, head, k) == k
    ensures KeepsWidths(lower, head[..k]) ==> (Offset(lower, head, k) == k <==> GapsOfThree(head[..k]))
  {
    var s := head[..k];
    DriftIsWidth(lower, s);
    if Ascii(s) {
      NoDriftInAscii(lower, s);
    }
    if KeepsWidths(lower, s) {
      DriftOfGaps(lower, s);
    }
  }

  lemma HostRawUnfolds(lower: CharMap, data: seq<byte>)
    ensures HostRaw(lower, data) ==
            match IndexFrom(LowerText(lower, Head(data)), CRLF_HOST, 0)
            case None => NoHost
            case Some(i) => ReadAt(Head(data), i)
  {
  }

  // What the reader answers, told from the bytes alone: it finds the first Host line of the
  // head and reads from where the text in front of that line ends.
  lemma ReadsAtOffset(lower: CharMap, data: seq<byte>)
    ensures HostRaw(lower, data) ==
            match Find(Head(data), CRLF_HOST)
            case None => NoHost
            case Some(k) => ReadAt(Head(data), Offset(lower, Head(data), k))
  {
    CrlfHeaderBytes();
    var head := Head(data);
    hide ReadAt, HostRaw, LowerText, Find, IndexFrom, HeaderBytes, Head;
    TextFind(lower, head, CRLF_HOST);
    HostRawUnfolds(lower, data);
  }

  // It reads past the end exactly when that place and the header name do not fit the head.
  lemma ReadsPastEndExactly(lower: CharMap, data: seq<byte>)
    ensures HostRaw(lower, data) == OutOfBounds <==>
            && Find(Head(data), CRLF_HOST).Some?
            && Offset(lower, Head(data), Find(Head(data), CRLF_HOST).value) + 7 > |Head(data)|
  {
    hide HostRaw, Find, Offset, Head, ValueAt;
    ReadsAtOffset(lower, data);
  }

  // ---- Rewriting and reading agree ------------------------------------------------------------

  predicate PlainHost(host: seq<byte>)
  {
    host != [] && Ascii(host) && forall b | b in host :: !White(b)
  }

  function Spliced(s: seq<byte>, m: nat, host: seq<byte>, e: nat): seq<byte>
    requires m <= e <= |s|
  {
    s[..m] + [SPACE] + host + s[e..]
  }

  lemma OneColon(pat: seq<byte>, j: nat)
    requires (pat == CRLF_HOST || pat == LF_HOST) && j + 1 < |pat|
    ensures pat[j] != COLON
  {
  }

  // A match in the rewritten bytes lies wholly before the new value or wholly after it, so
  // it was there before: nothing the splice joins can look like a header name.
  lemma MatchesSurvive(s: seq<byte>, m: nat, host: seq<byte>, e: nat, pat: seq<byte>, k: nat)
    requires 0 < m <= e <= |s| && s[m - 1] == COLON && PlainHost(host)
    requires pat == CRLF_HOST || pat == LF_HOST
    requires MatchAt(Spliced(s, m, host, e), pat, k)
    ensures || (k + |pat| <= m && MatchAt(s, pat, k))
            || (k >= m + 1 + |host| && MatchAt(s, pat, k - (m + 1 + |host|) + e))
  {
    var out, p := Spliced(s, m, host, e), m + 1 + |host|;
    forall i | m <= i < p ensures !Break(out[i]) {
      assert i > m ==> out[i] == host[i - m - 1] && out[i] in host;
    }
    assert Break(out[k]) by {
      assert LowerByte(out[k + 0]) == pat[0];
    }
    if k + |pat| <= m {
      forall j | 0 <= j < |pat| ensures LowerByte(s[k + j]) == pat[j] {
        assert out[k + j] == s[k + j];
      }
    } else if k < m {
      assert out[m - 1] == s[m - 1] && LowerByte(out[k + (m - 1 - k)]) == pat[m - 1 - k];
      OneColon(pat, m - 1 - k);
      assert false;
    } else if k < p {
      assert false;
    } else {
      forall j | 0 <= j < |pat| ensures LowerByte(s[k - p + e + j]) == pat[j] {
        assert out[k + j] == s[k - p + e + j];
      }
    }
  }

  lemma FindSpliced(s: seq<byte>, m: nat, host: seq<byte>, e: nat, pat: seq<byte>)
    requires 0 < m <= e <= |s| && s[m - 1] == COLON && PlainHost(host)
    requires pat == CRLF_HOST || pat == LF_HOST
    requires Find(s, pat).Some? ==> Find(s, pat).value + |pat| <= m
    ensures Find(Spliced(s, m, host, e), pat) == Find(s, pat)
  {
    hide *;
    var out := Spliced(s, m, host, e);
    forall k: nat | MatchAt(out, pat, k)
      ensures Find(s, pat).Some? && Find(s, pat).value <= k
    {
      MatchesSurvive(s, m, host, e, pat, k);
    }
    if Find(s, pat).Some? {
      HeaderSurvives(s, m, host, e, pat, Find(s, pat).value);
    }
  }

  // A match before the splice is still there.
  lemma HeaderSurvives(s: seq<byte>, m: nat, host: seq<byte>, e: nat, pat: seq<byte>, i: nat)
    requires MatchAt(s, pat, i) && i + |pat| <= m <= e <= |s|
    ensures MatchAt(Spliced(s, m, host, e), pat, i)
  {
    hide LowerByte;
    var out := Spliced(s, m, host, e);
    forall j | 0 <= j < |pat| ensures LowerByte(out[i + j]) == pat[j] {
      assert out[i + j] == s[i + j];
    }
  }

  lemma ValueStartIsColon(s: seq<byte>)
    requires ValueStart(s).Some?
    ensures s[ValueStart(s).value - 1] == COLON
  {
    var m := ValueStart(s).value;
    match Find(s, CRLF_HOST)
    case Some(i) =>
      assert LowerByte(s[i + 6]) == CRLF_HOST[6];
    case None =>
      assert LowerByte(s[m - 6 + 5]) == LF_HOST[5];
  }

  // After a rewrite the Host line starts where it did and its value is the new host.
  lemma RewrittenLine(s: seq<byte>, host: seq<byte>)
    requires ValueStart(s).Some? && PlainHost(host)
    ensures var m, out := ValueStart(s).value, Replaced(s, host).value;
            && ValueStart(out) == Some(m) && Find(out, CRLF_HOST) == Find(s, CRLF_HOST)
            && ValueEnd(out, m) == m + 1 + |host|
  {
    var m := ValueStart(s).value;
    var e := ValueEnd(s, m);
    var out := Spliced(s, m, host, e);
    ValueStartIsColon(s);
    assert Replaced(s, host) == Some(out);
    hide FindFrom, Find, MatchAt, PlainHost, LowerByte, Spliced, ValueEnd;
    FindSpliced(s, m, host, e, CRLF_HOST);
    if Find(s, CRLF_HOST).None? {
      FindSpliced(s, m, host, e, LF_HOST);
    }
    hide *;
    BreakAtEnd(s, m);
    SpliceHolds(s, m, host, e);
    ValueOf(out, m, host);
  }

  lemma BreakAtEnd(s: seq<byte>, m: nat)
    requires m <= |s|
    ensures ValueEnd(s, m) == |s| || Break(s[ValueEnd(s, m)])
  {
  }

  lemma {:induction false} SkipBlanksAt(s: seq<byte>, from: nat, to: nat)
    requires from <= to <= |s| && forall k | from <= k < to :: Blank(s[k])
    requires to == |s| || !Blank(s[to])
    ensures SkipBlanks(s, from) == to
    decreases |s| - from
  {
    if from < to {
      SkipBlanksAt(s, from + 1, to);
    }
  }

  lemma {:induction false} LineEndAt(s: seq<byte>, from: nat, to: nat)
    requires from <= to <= |s| && forall k | from <= k < to :: !Break(s[k])
    requires to == |s| || Break(s[to])
    ensures LineEnd(s, from) == to
    decreases |s| - from
  {
    if from < to {
      LineEndAt(s, from + 1, to);
    }
  }

  // Reading a line " host" that a break or the end of the data follows.
  lemma ValueOf(out: seq<byte>, m: nat, host: seq<byte>)
    requires PlainHost(host) && m + 1 + |host| <= |out|
    requires out[m] == SPACE && out[m + 1..m + 1 + |host|] == host
    requires m + 1 + |host| == |out| || Break(out[m + 1 + |host|])
    ensures ValueEnd(out, m) == m + 1 + |host| && ValueAt(out, m) == Some(host)
  {
    forall k | m + 1 <= k < m + 1 + |host| ensures out[k] == host[k - m - 1] && !White(out[k]) {
      assert out[k] == out[m + 1..m + 1 + |host|][k - m - 1];
    }
    SkipBlanksAt(out, m, m + 1);
    LineEndAt(out, m + 1, m + 1 + |host|);
    NothingToTrim(host);
  }

  lemma PlainEnds(s: seq<byte>)
    requires forall i | 0 <= i < |s| :: s[i] < 0x80 && !White(s[i])
    ensures WhiteStart(s) == 0 && WhiteEnd(s) == 0
  {
    hide WhiteChar, White;
    if |s| >= 1 {
      PlainPiece(s[..1]);
      PlainPiece(s[|s| - 1..]);
    }
    if |s| >= 2 {
      PlainPiece(s[..2]);
      PlainPiece(s[|s| - 2..]);
    }
    if |s| >= 3 {
      PlainPiece(s[..3]);
      PlainPiece(s[|s| - 3..]);
    }
  }

  lemma PlainPiece(p: seq<byte>)
    requires p != [] && p[0] < 0x80 && !White(p[0])
    ensures !WhiteChar(p)
  {
  }

  lemma NoWhiteEnds(s: seq<byte>)
    requires WhiteStart(s) == 0 && WhiteEnd(s) == 0
    ensures TrimFront(s) == s && TrimBack(s) == s
  {
    hide WhiteStart, WhiteEnd;
  }

  lemma TrimmedOf(value: seq<byte>)
    ensures Trimmed(value) == TrimBack(TrimFront(Decoded(value, Id, Same())))
  {
  }

  lemma NothingToTrim(host: seq<byte>)
    requires PlainHost(host)
    ensures Trimmed(host) == host
  {
    DecodedAscii(host, Id, Same());
    assert Decoded(host, Id, Same()) == host;
    forall i | 0 <= i < |host| ensures host[i] < 0x80 && !White(host[i]) {
      assert host[i] in host;
    }
    hide *;
    TrimmedOf(host);
    PlainEnds(host);
    NoWhiteEnds(host);
  }

  lemma TrimmedIsShort(value: seq<byte>)
    requires Ascii(value)
    ensures |Trimmed(value)| <= |value|
  {
    DecodedAscii(value, Id, Same());
    hide TrimFront, TrimBack, Decoded;
  }

  // Rewriting twice is rewriting once, with the later host; in particular, rewriting again
  // with the same host changes nothing.
  lemma RewriteAgain(s: seq<byte>, host: seq<byte>, later: seq<byte>)
    requires ValueStart(s).Some? && PlainHost(host)
    ensures Replaced(Replaced(s, host).value, later) == Replaced(s, later)
  {
    RewrittenLine(s, host);
    var m := ValueStart(s).value;
    var e := ValueEnd(s, m);
    var out := Spliced(s, m, host, e);
    hide ValueEnd, ValueStart, PlainHost;
    assert out[..m] == s[..m] && out[m + 1 + |host|..] == s[e..];
  }

  lemma MatchInHead(s: seq<byte>, pat: seq<byte>, n: nat, k: nat)
    requires n <= |s|
    ensures MatchAt(s[..n], pat, k) <==> MatchAt(s, pat, k) && k + |pat| <= n
  {
  }

  lemma FindInHead(s: seq<byte>, pat: seq<byte>, n: nat)
    requires n <= |s|
    ensures Find(s[..n], pat) ==
            match Find(s, pat)
            case Some(i) => if i + |pat| <= n then Some(i) else None
            case None => None
  {
    forall k: nat ensures MatchAt(s[..n], pat, k) <==> MatchAt(s, pat, k) && k + |pat| <= n {
      MatchInHead(s, pat, n, k);
    }
    var whole, part := Find(s, pat), Find(s[..n], pat);
    hide FindFrom;
    if part.Some? {
      assert MatchAt(s, pat, part.value);
    }
    if whole.Some? && whole.value + |pat| <= n {
      assert MatchAt(s[..n], pat, whole.value);
    }
  }

  // The value read at `p` in the first `n` bytes: blanks up to `from`, the value up to `to`.
  lemma ValueSpan(out: seq<byte>, n: nat, p: nat, from: nat, to: nat)
    requires p <= from <= to <= n <= |out| && (forall k | p <= k < from :: Blank(out[k]))
    requires from == n || !Blank(out[from])
    requires (forall k | from <= k < to :: !Break(out[k])) && (to == n || Break(out[to]))
    ensures var value := Trimmed(out[from..to]);
            ValueAt(out[..n], p) == if value == [] then None else Some(value)
  {
    hide Trimmed, Blank, Break, SkipBlanks, LineEnd;
    var head := out[..n];
    SkipBlanksAt(head, p, from);
    LineEndAt(head, from, to);
    assert head[from..to] == out[from..to];
  }

  // What a reader that sees only the first `n` bytes, and starts at the blank `m` or in the
  // host behind it, makes of it: the host if it starts at one of the first two places and
  // the host ends among those bytes, and never the host otherwise.
  lemma ValueInHead(out: seq<byte>, m: nat, host: seq<byte>, n: nat, p: nat)
    requires PlainHost(host) && n <= |out| && m + 1 + |host| <= |out|
    requires Blank(out[m]) && out[m + 1..m + 1 + |host|] == host
    requires m + 1 + |host| == |out| || Break(out[m + 1 + |host|])
    requires m <= p <= m + 1 + |host| && p <= n
    ensures ValueAt(out[..n], p) == Some(host) <==> p <= m + 1 && m + 1 + |host| <= n
  {
    var end := m + 1 + |host|;
    PlainSpan(out, m + 1, host);
    assert PlainLine(out, m, end);
    hide Blank, Break, PlainHost, ValueAt, Trimmed, PlainLine;
    if p <= m + 1 && end <= n {
      WholeInHead(out, m, end, n, p);
      NothingToTrim(host);
    } else if p > m {
      ShortSpan(out, m, end, n, p, p);
    } else if m < n {
      ShortSpan(out, m, end, n, m, m + 1);
    } else {
      EmptyValue(out, n);
    }
  }

  // Plain bytes from `m + 1` to `end`, behind a blank and before a break.
  ghost predicate PlainLine(out: seq<byte>, m: nat, end: nat)
  {
    && m + 1 < end <= |out| && Blank(out[m]) && (end == |out| || Break(out[end]))
    && (forall k | m < k < end :: out[k] < 0x80 && !Blank(out[k]) && !Break(out[k]))
  }

  lemma WholeInHead(out: seq<byte>, m: nat, end: nat, n: nat, p: nat)
    requires PlainLine(out, m, end) && end <= n <= |out| && m <= p <= m + 1
    ensures var value := Trimmed(out[m + 1..end]);
            ValueAt(out[..n], p) == if value == [] then None else Some(value)
  {
    hide Blank, Break, Trimmed, ValueAt;
    ValueSpan(out, n, p, m + 1, end);
  }

  lemma EmptyValue(out: seq<byte>, n: nat)
    requires n <= |out|
    ensures ValueAt(out[..n], n).None?
  {
    NothingToRead();
    assert out[n..n] == [];
    hide *;
    ValueSpan(out, n, n, n, n);
  }

  lemma ShortSpan(out: seq<byte>, m: nat, end: nat, n: nat, p: nat, from: nat)
    requires PlainLine(out, m, end) && n <= |out| && m < from <= n && from <= end
    requires p == from || (p == m && from == m + 1)
    requires from > m + 1 || n < end
    ensures var value := ValueAt(out[..n], p);
            value.Some? ==> |value.value| < end - (m + 1)
  {
    var to := if end <= n then end else n;
    assert end < |out| ==> !Blank(out[end]);
    hide Blank, Break, Trimmed, ValueAt, Ascii;
    ValueSpan(out, n, p, from, to);
    AsciiSpan(out, m + 1, end, from, to);
    TrimmedIsShort(out[from..to]);
  }

  lemma PlainSpan(out: seq<byte>, p: nat, host: seq<byte>)
    requires PlainHost(host) && p + |host| <= |out| && out[p..p + |host|] == host
    ensures forall k | p <= k < p + |host| :: out[k] < 0x80 && !Blank(out[k]) && !Break(out[k])
  {
    forall k | p <= k < p + |host| ensures out[k] < 0x80 && !Blank(out[k]) && !Break(out[k]) {
      assert out[k] == out[p..p + |host|][k - p];
      assert host[k - p] in host;
    }
  }

  lemma AsciiSpan(out: seq<byte>, lo: nat, hi: nat, from: nat, to: nat)
    requires hi <= |out| && (forall k | lo <= k < hi :: out[k] < 0x80)
    requires from <= to <= |out| && (from == to || (lo <= from && to <= hi))
    ensures Ascii(out[from..to])
  {
    forall b | b in out[from..to] ensures b < 0x80 {
      var i :| 0 <= i < to - from && out[from..to][i] == b;
      assert b == out[from + i];
    }
  }

  lemma HeadIsPrefix(out: seq<byte>) returns (n: nat)
    ensures n <= |out| && n <= HEAD_MAX && (n == |out| || n == HEAD_MAX) && Head(out) == out[..n]
  {
    n := if |out| > HEAD_MAX then HEAD_MAX else |out|;
  }

  lemma NothingRead(lower: CharMap, out: seq<byte>)
    requires Find(out, CRLF_HOST).None?
    ensures HostRaw(lower, out) == NoHost
  {
    var n := HeadIsPrefix(out);
    FindInHead(out, CRLF_HOST, n);
    hide *;
    ReadsNone(lower, out);
  }

  predicate ReadsAs(lower: CharMap, data: seq<byte>, host: seq<byte>)
  {
    HostRaw(lower, data) == Host(host)
  }

  // The bytes at `p` read as the host.
  predicate Spells(out: seq<byte>, p: int, host: seq<byte>)
  {
    0 <= p <= |Head(out)| && ValueAt(Head(out), p) == Some(host)
  }

  lemma ReadsHost(head: seq<byte>, i: nat, host: seq<byte>)
    ensures ReadAt(head, i) == Host(host) <==> i + 7 <= |head| && ValueAt(head, i + 7) == Some(host)
  {
    hide ValueAt;
  }

  // The last `-d` bytes of the header name are the host.
  predicate NameEnds(out: seq<byte>, i: nat, d: int, host: seq<byte>)
  {
    -7 <= d < 0 && i + 7 <= |out| && out[i + 7 + d..i + 7] == host
  }

  // The reader's answer on a Host line " host" at `i`, by the drift of what is before it.
  // Within the header name it reads the rest of the name and the host together, so never the
  // host; unless the 4096 bytes end with the name or the blank, and the rest of the name is
  // spelled like the host. Within the host it never reads the whole of it. Only a drift that
  // leaves the line is left to what stands there.
  ghost predicate ReadsBack(lower: CharMap, out: seq<byte>, i: nat, host: seq<byte>)
    requires i + 7 <= |out|
  {
    var d := Drift(lower, out[..i]);
    if 0 <= d <= 1 then i + 8 + |host| <= HEAD_MAX
    else if -7 <= d < 0 then
      d >= -5 && (i + 7 == HEAD_MAX || i + 8 == HEAD_MAX) && NameEnds(out, i, d, host)
    else i + 7 <= HEAD_MAX && !(2 <= d <= |host| + 1) && Spells(out, i + 7 + d, host)
  }

  // The first Host line is in the head with its name whole, or not at all.
  lemma HeadFinds(out: seq<byte>, i: nat, n: nat)
    requires Find(out, CRLF_HOST) == Some(i) && n <= |out| && Head(out) == out[..n]
    ensures Find(Head(out), CRLF_HOST) == if i + 7 <= n then Some(i) else None
  {
    assert |CRLF_HOST| == 7;
    FindInHead(out, CRLF_HOST, n);
  }

  lemma ReadsFrom(lower: CharMap, out: seq<byte>, i: nat, n: nat)
    requires Find(out, CRLF_HOST) == Some(i) && i + 7 <= n <= |out| && Head(out) == out[..n]
    ensures HostRaw(lower, out) == ReadAt(out[..n], Offset(lower, out[..n], i))
  {
    HeadFinds(out, i, n);
    hide Find, ValueAt, HostRaw, Offset, Head, ReadAt;
    ReadsAtOffset(lower, out);
  }

  lemma ReadsNone(lower: CharMap, out: seq<byte>)
    requires Find(Head(out), CRLF_HOST).None?
    ensures HostRaw(lower, out) == NoHost
  {
    hide Find, ValueAt, HostRaw, Offset, Head, ReadAt;
    ReadsAtOffset(lower, out);
  }

  lemma ReadsValue(lower: CharMap, out: seq<byte>, i: nat, n: nat, host: seq<byte>, p: int)
    requires Find(out, CRLF_HOST) == Some(i) && i + 7 <= n <= |out| && Head(out) == out[..n]
    requires p == i + 7 + Drift(lower, out[..i])
    ensures ReadsAs(lower, out, host) <==> Spells(out, p, host)
  {
    hide *;
    ReadsFrom(lower, out, i, n);
    SameDrift(lower, out, i, n);
    ReadsAsAt(lower, out, host, out[..n], Offset(lower, out[..n], i));
  }

  lemma ReadsAsAt(lower: CharMap, out: seq<byte>, host: seq<byte>, head: seq<byte>, at: nat)
    requires head == Head(out) && HostRaw(lower, out) == ReadAt(head, at)
    ensures ReadsAs(lower, out, host) <==> Spells(out, at + 7, host)
  {
    hide ValueAt, ReadAt, HostRaw, Head;
    ReadsHost(head, at, host);
  }

  lemma SameDrift(lower: CharMap, out: seq<byte>, i: nat, n: nat)
    requires i <= n <= |out|
    ensures Offset(lower, out[..n], i) == i + Drift(lower, out[..i])
  {
    assert out[..n][..i] == out[..i];
    hide Drift, Offset;
    OffsetIsByteOffset(lower, out[..n], i);
  }

  // " host" at `m`, before a break or the end.
  ghost predicate HostLine(out: seq<byte>, m: nat, host: seq<byte>)
  {
    && PlainHost(host) && m + 1 + |host| <= |out| && out[m] == SPACE && out[m + 1..m + 1 + |host|] == host
    && (m + 1 + |host| == |out| || Break(out[m + 1 + |host|]))
  }

  // Starting at most at the break behind the host.
  lemma NearDrift(out: seq<byte>, m: nat, host: seq<byte>, d: int, p: int)
    requires HostLine(out, m, host) && m <= |Head(out)| && p == m + d
    ensures 0 <= d <= 1 ==> (Spells(out, p, host) <==> m + 1 + |host| <= |Head(out)|)
    ensures 2 <= d <= |host| + 1 ==> !Spells(out, p, host)
  {
    var n := HeadIsPrefix(out);
    assert Blank(SPACE);
    hide ValueAt, PlainHost, Blank, Break, Head;
    if 0 <= d <= |host| + 1 && p <= n {
      ValueInHead(out, m, host, n, p);
    }
  }

  // ---- Starting within the header name --------------------------------------------------------

  lemma AsciiAt(s: seq<byte>, i: nat)
    requires Ascii(s) && i < |s|
    ensures s[i] < 0x80
  {
    assert s[i] in s;
  }

  lemma AsciiPiece(p: seq<byte>)
    requires p != [] && p[0] < 0x80
    ensures WhiteChar(p) <==> |p| == 1 && White(p[0])
  {
  }

  lemma StartsPlain(s: seq<byte>)
    requires s != [] && s[0] < 0x80 && !White(s[0])
    ensures WhiteStart(s) == 0
  {
    hide WhiteChar, White;
    AsciiPiece(s[..1]);
    if |s| >= 2 {
      AsciiPiece(s[..2]);
    }
    if |s| >= 3 {
      AsciiPiece(s[..3]);
    }
  }

  lemma EndsPlain(s: seq<byte>)
    requires s != [] && s[|s| - 1] < 0x80 && !White(s[|s| - 1])
    requires (|s| >= 2 ==> s[|s| - 2] < 0x80) && (|s| >= 3 ==> s[|s| - 3] < 0x80)
    ensures WhiteEnd(s) == 0
  {
    hide WhiteChar, White;
    AsciiPiece(s[|s| - 1..]);
    if |s| >= 2 {
      AsciiPiece(s[|s| - 2..]);
    }
    if |s| >= 3 {
      AsciiPiece(s[|s| - 3..]);
    }
  }

  // Text that starts and ends with what is not white.
  predicate Tight(s: seq<byte>)
  {
    s != [] && Ascii(s) && !White(s[0]) && !White(s[|s| - 1])
  }

  lemma TightEnds(s: seq<byte>)
    requires Tight(s)
    ensures WhiteStart(s) == 0 && WhiteEnd(s) == 0
  {
    AsciiAt(s, 0);
    AsciiAt(s, |s| - 1);
    if |s| >= 2 {
      AsciiAt(s, |s| - 2);
    }
    if |s| >= 3 {
      AsciiAt(s, |s| - 3);
    }
    hide Ascii, White, WhiteStart, WhiteEnd;
    StartsPlain(s);
    EndsPlain(s);
  }

  lemma SameText(s: seq<byte>)
    requires Ascii(s)
    ensures Decoded(s, Id, Same()) == s
  {
    DecodedAscii(s, Id, Same());
  }

  lemma TightTrimmed(s: seq<byte>)
    requires Tight(s)
    ensures Trimmed(s) == s
  {
    SameText(s);
    hide *;
    TrimmedOf(s);
    TightEnds(s);
    NoWhiteEnds(s);
  }

  // One blank behind it goes.
  lemma SpaceTrimmed(s: seq<byte>)
    requires Tight(s)
    ensures Trimmed(s + [SPACE]) == s
  {
    var t := s + [SPACE];
    assert Ascii(t) by {
      hide White;
    }
    SameText(t);
    AsciiAt(t, 0);
    assert t[0] == s[0];
    hide Ascii, White, WhiteStart, WhiteEnd, Decoded, Tight;
    TrimmedOf(t);
    TightStarts(s);
    StartsPlain(t);
    OnlyBackTrimmed(t);
    SpaceEnds(s);
    TightEnds(s);
    NoWhiteEnds(s);
  }

  lemma TightStarts(s: seq<byte>)
    requires Tight(s)
    ensures s != [] && !White(s[0])
  {
  }

  lemma OnlyBackTrimmed(s: seq<byte>)
    requires WhiteStart(s) == 0
    ensures TrimFront(s) == s
  {
    hide WhiteStart;
  }

  lemma SpaceEnds(s: seq<byte>)
    ensures TrimBack(s + [SPACE]) == TrimBack(s)
  {
    var t := s + [SPACE];
    assert t[|t| - 1..] == [SPACE] && t[..|t| - 1] == s;
    SpaceIsWhite();
    hide WhiteChar;
    assert WhiteEnd(t) == 1;
    hide WhiteEnd;
  }

  lemma SpaceIsWhite()
    ensures WhiteChar([SPACE])
  {
  }

  // The bytes of a header name behind its line break, and the break itself.
  ghost predicate NameAt(out: seq<byte>, i: nat)
  {
    && i + 7 <= |out| && out[i] == CR && out[i + 1] == LF
    && forall k | i + 2 <= k < i + 7 :: out[k] < 0x80 && !White(out[k]) && !Break(out[k])
  }

  lemma NameBytes(out: seq<byte>, i: nat)
    requires Find(out, CRLF_HOST) == Some(i)
    ensures NameAt(out, i)
  {
    hide Find;
    assert MatchAt(out, CRLF_HOST, i);
    forall k | i <= k < i + 7 ensures LowerByte(out[k]) == CRLF_HOST[k - i] {
      assert LowerByte(out[i + (k - i)]) == CRLF_HOST[k - i];
    }
  }

  // What the reader makes of the bytes at `p`, of those it sees.
  ghost predicate ValueIs(out: seq<byte>, n: nat, p: nat, host: seq<byte>)
  {
    p <= n <= |out| && ValueAt(out[..n], p) == Some(host)
  }

  lemma SpellsIs(out: seq<byte>, p: nat, host: seq<byte>)
    ensures Spells(out, p, host) <==> ValueIs(out, |Head(out)|, p, host)
  {
    var n := HeadIsPrefix(out);
    hide ValueAt, Head;
  }

  predicate TightSpan(out: seq<byte>, p: nat, to: nat)
  {
    p <= to <= |out| && Tight(out[p..to])
  }

  // A value that starts at once and ends at `to`, if the bytes that are read do not end it.
  ghost predicate Valued(out: seq<byte>, p: nat, to: nat)
  {
    && p < to <= |out| && !Blank(out[p]) && forall k | p <= k < to :: !Break(out[k])
  }

  predicate TrimsTo(out: seq<byte>, p: nat, to: nat, host: seq<byte>)
  {
    p <= to <= |out| && Trimmed(out[p..to]) == host
  }

  lemma ValueIsTrimmed(out: seq<byte>, n: nat, p: nat, to: nat, host: seq<byte>)
    requires Valued(out, p, to) && to <= n <= |out| && host != []
    requires to == n || Break(out[to])
    ensures ValueIs(out, n, p, host) <==> TrimsTo(out, p, to, host)
  {
    hide Trimmed, Blank, Break, ValueAt;
    ValueSpan(out, n, p, p, to);
  }

  // At the line break there is no value.
  lemma BreakIsEmpty(out: seq<byte>, n: nat, p: nat, host: seq<byte>)
    requires p < n <= |out| && Break(out[p])
    ensures !ValueIs(out, n, p, host)
  {
    NothingToRead();
    assert out[p..p] == [] && !Blank(out[p]);
    hide Trimmed, Break, Blank, ValueAt;
    ValueSpan(out, n, p, p, p);
  }

  // From within the name: its rest, and the host as far as it is in the head.
  lemma InName(out: seq<byte>, i: nat, host: seq<byte>, n: nat, d: int)
    requires HostLine(out, i + 7, host) && NameAt(out, i) && -5 <= d < 0
    requires i + 7 <= n <= |out| && i + 8 + |host| <= |out|
    ensures ValueIs(out, n, i + 7 + d, host) <==> n <= i + 8 && NameEnds(out, i, d, host)
  {
    hide *;
    if n <= i + 8 {
      InNameOnly(out, i, host, n, d);
    } else {
      InLine(out, i, host, n, i + 7 + d);
    }
  }

  lemma InNameOnly(out: seq<byte>, i: nat, host: seq<byte>, n: nat, d: int)
    requires HostLine(out, i + 7, host) && NameAt(out, i) && -5 <= d < 0
    requires i + 7 <= n <= i + 8 && i + 8 + |host| <= |out|
    ensures ValueIs(out, n, i + 7 + d, host) <==> NameEnds(out, i, d, host)
  {
    hide *;
    var p := i + 7 + d;
    LineBytes(out, i, host, p, n);
    ValueIsTrimmed(out, n, p, n, host);
    ShortName(out, i, host, d, n);
  }

  lemma InLine(out: seq<byte>, i: nat, host: seq<byte>, n: nat, p: nat)
    requires HostLine(out, i + 7, host) && NameAt(out, i) && i + 2 <= p < i + 7
    requires i + 8 < n <= |out| && i + 8 + |host| <= |out|
    ensures !ValueIs(out, n, p, host)
  {
    HostIsThere(out, i, host);
    hide *;
    var to := if i + 8 + |host| <= n then i + 8 + |host| else n;
    LineBytes(out, i, host, p, to);
    ValueIsTrimmed(out, n, p, to, host);
    LongName(out, i, host, p, to);
  }

  lemma LineBytes(out: seq<byte>, i: nat, host: seq<byte>, p: nat, to: nat)
    requires HostLine(out, i + 7, host) && NameAt(out, i)
    requires i + 2 <= p < i + 7 <= to <= i + 8 + |host| <= |out|
    ensures PlainHost(host) && host != [] && Valued(out, p, to)
    ensures to == i + 8 + |host| < |out| ==> Break(out[to])
    ensures out[i + 7] == SPACE && TightSpan(out, p, i + 7) && (i + 8 < to ==> TightSpan(out, p, to))
  {
    PlainSpan(out, i + 8, host);
    forall k | p <= k < to ensures out[k] < 0x80 && !Break(out[k]) {
    }
    AsciiSpan(out, p, to, p, to);
    AsciiSpan(out, p, i + 7, p, i + 7);
    if i + 8 < to {
      assert out[to - 1] == out[i + 8..i + 8 + |host|][to - 1 - (i + 8)] == host[to - 1 - (i + 8)];
      assert host[to - 1 - (i + 8)] in host;
    }
  }

  // The head ends with the name, or with the blank behind it.
  lemma ShortName(out: seq<byte>, i: nat, host: seq<byte>, d: int, to: nat)
    requires -5 <= d < 0 && i + 7 <= to <= i + 8 <= |out| && out[i + 7] == SPACE
    requires TightSpan(out, i + 7 + d, i + 7)
    ensures TrimsTo(out, i + 7 + d, to, host) <==> NameEnds(out, i, d, host)
  {
    hide Tight, Trimmed;
    var name := out[i + 7 + d..i + 7];
    if to == i + 7 {
      TightTrimmed(name);
    } else {
      assert out[i + 7 + d..to] == name + [SPACE];
      SpaceTrimmed(name);
    }
  }

  // The blank is within the value, and in no host.
  lemma LongName(out: seq<byte>, i: nat, host: seq<byte>, p: nat, to: nat)
    requires p < i + 7 && i + 8 < to <= |out| && out[i + 7] == SPACE
    requires TightSpan(out, p, to) && PlainHost(host)
    ensures !TrimsTo(out, p, to, host)
  {
    var value := out[p..to];
    TightTrimmed(value);
    hide Tight, Trimmed;
    assert value[i + 7 - p] == SPACE && SPACE in value;
  }

  lemma HeadLength(out: seq<byte>)
    ensures var n := |Head(out)|; n <= |out| && n <= HEAD_MAX && (n == |out| || n == HEAD_MAX)
  {
  }

  lemma ReadsWhere(lower: CharMap, out: seq<byte>, i: nat, host: seq<byte>)
    requires Find(out, CRLF_HOST) == Some(i)
    ensures ReadsAs(lower, out, host) <==>
            i + 7 <= |Head(out)| && Spells(out, i + 7 + Drift(lower, out[..i]), host)
  {
    var n := HeadIsPrefix(out);
    if i + 7 <= n {
      hide *;
      ReadsValue(lower, out, i, n, host, i + 7 + Drift(lower, out[..i]));
    } else {
      HeadFinds(out, i, n);
      hide *;
      ReadsNone(lower, out);
    }
  }

  lemma ByDrift(i: nat, len: nat, total: nat, n: nat, d: int, read: bool, spells: bool, named: bool)
    requires i + 8 + len <= total && n <= total && n <= HEAD_MAX && (n == total || n == HEAD_MAX) && len > 0
    requires read <==> i + 7 <= n && spells
    requires i + 7 <= n && 0 <= d <= 1 ==> (spells <==> i + 8 + len <= n)
    requires i + 7 <= n && 2 <= d <= len + 1 ==> !spells
    requires i + 7 <= n && -7 <= d < 0 ==> (spells <==> d >= -5 && n <= i + 8 && named)
    ensures read <==> if 0 <= d <= 1 then i + 8 + len <= HEAD_MAX
                      else if -7 <= d < 0 then d >= -5 && (i + 7 == HEAD_MAX || i + 8 == HEAD_MAX) && named
                      else i + 7 <= HEAD_MAX && !(2 <= d <= len + 1) && spells
  {
  }

  // Starting within the header name.
  lemma NameDrift(out: seq<byte>, i: nat, host: seq<byte>, d: int)
    requires Find(out, CRLF_HOST) == Some(i) && HostLine(out, i + 7, host) && i + 8 + |host| <= |out|
    requires i + 7 <= |Head(out)| && -7 <= d < 0
    ensures Spells(out, i + 7 + d, host) <==> d >= -5 && |Head(out)| <= i + 8 && NameEnds(out, i, d, host)
  {
    hide *;
    var n := |Head(out)|;
    HeadLength(out);
    NameBytes(out, i);
    AtBreak(out, i);
    SpellsIs(out, i + 7 + d, host);
    if d >= -5 {
      InName(out, i, host, n, d);
    } else {
      BreakIsEmpty(out, n, i + 7 + d, host);
    }
  }

  lemma AtBreak(out: seq<byte>, i: nat)
    requires NameAt(out, i)
    ensures i + 7 <= |out| && Break(out[i]) && Break(out[i + 1])
  {
  }

  lemma ReadBack(lower: CharMap, out: seq<byte>, i: nat, host: seq<byte>)
    requires Find(out, CRLF_HOST) == Some(i) && HostLine(out, i + 7, host) && i + 8 + |host| <= |out|
    ensures ReadsAs(lower, out, host) <==> ReadsBack(lower, out, i, host)
  {
    hide *;
    var n, d := |Head(out)|, Drift(lower, out[..i]);
    var p := i + 7 + d;
    HostIsThere(out, i, host);
    HeadLength(out);
    ReadsWhere(lower, out, i, host);
    if i + 7 <= n {
      NearDrift(out, i + 7, host, d, p);
      if -7 <= d < 0 {
        NameDrift(out, i, host, d);
      }
    }
    ByDrift(i, |host|, |out|, n, d, ReadsAs(lower, out, host), Spells(out, p, host), NameEnds(out, i, d, host));
    ReadsBackIs(lower, out, i, host, d, p);
  }

  lemma HostIsThere(out: seq<byte>, i: nat, host: seq<byte>)
    requires HostLine(out, i + 7, host)
    ensures |host| > 0
  {
  }

  lemma ReadsBackIs(lower: CharMap, out: seq<byte>, i: nat, host: seq<byte>, d: int, p: int)
    requires i + 7 <= |out| && d == Drift(lower, out[..i]) && p == i + 7 + d
    ensures ReadsBack(lower, out, i, host) <==>
            if 0 <= d <= 1 then i + 8 + |host| <= HEAD_MAX
            else if -7 <= d < 0 then d >= -5 && (i + 7 == HEAD_MAX || i + 8 == HEAD_MAX) && NameEnds(out, i, d, host)
            else i + 7 <= HEAD_MAX && !(2 <= d <= |host| + 1) && Spells(out, p, host)
  {
    hide Drift, Spells, NameEnds;
  }

  // The host read back from the rewritten bytes is the new host exactly when the header
  // began with CRLF and either the text before it drifts by at most the one blank that the
  // rewrite put in, and the new value ends within the 4096 bytes that are read; or the
  // reader starts outside the line and what it reads there happens to spell it. (Or those
  // bytes end with the header name, and its last letters are the host.)
  lemma RewriteThenRead(lower: CharMap, s: seq<byte>, host: seq<byte>)
    requires ValueStart(s).Some? && PlainHost(host)
    ensures var out := Replaced(s, host).value;
            HostRaw(lower, out) == Host(host) <==>
            Find(s, CRLF_HOST).Some? && Find(s, CRLF_HOST).value + 7 <= |out|
            && ReadsBack(lower, out, Find(s, CRLF_HOST).value, host)
  {
    var m := ValueStart(s).value;
    var e := ValueEnd(s, m);
    SpliceHolds(s, m, host, e);
    RewrittenLine(s, host);
    BreakAtEnd(s, m);
    var out := Replaced(s, host).value;
    assert out == Spliced(s, m, host, e) && (Find(s, CRLF_HOST).Some? ==> m == Find(s, CRLF_HOST).value + 7);
    hide *;
    match Find(s, CRLF_HOST)
    case Some(i) => ReadBack(lower, out, i, host);
    case None => NothingRead(lower, out);
  }

  // Behind ASCII, as every request line and its headers are, whatever the body holds: the
  // host is read back exactly when the header began with CRLF and the value ends in time.
  lemma RewriteThenReadBehindAscii(lower: CharMap, s: seq<byte>, host: seq<byte>)
    requires ValueStart(s).Some? && PlainHost(host)
    requires Find(s, CRLF_HOST).Some? ==> Ascii(s[..Find(s, CRLF_HOST).value])
    ensures HostRaw(lower, Replaced(s, host).value) == Host(host) <==>
            Find(s, CRLF_HOST).Some? && ValueStart(s).value + 1 + |host| <= HEAD_MAX
  {
    RewriteThenRead(lower, s, host);
    var m := ValueStart(s).value;
    var out := Replaced(s, host).value;
    SpliceHolds(s, m, host, ValueEnd(s, m));
    if Find(s, CRLF_HOST).Some? {
      var i := Find(s, CRLF_HOST).value;
      assert m == i + 7 && out[..i] == s[..i];
      hide HostRaw, Find, MatchAt, Replaced, Spliced, Drift;
      NoDriftInAscii(lower, s[..i]);
    }
  }

  lemma SpliceHolds(s: seq<byte>, m: nat, host: seq<byte>, e: nat)
    requires m <= e <= |s|
    ensures var out := Spliced(s, m, host, e);
            && m + 1 + |host| <= |out| && out[m] == SPACE && out[m + 1..m + 1 + |host|] == host
            && (m + 1 + |host| == |out| <==> e == |s|) && (e < |s| ==> out[m + 1 + |host|] == s[e])
  {
  }

  // A header line: the colon just before `m`, blanks up to `v`, the value up to `e`.
  predicate Line(s: seq<byte>, m: nat, v: nat, e: nat)
  {
    && 0 < m <= v <= e <= |s| && s[m - 1] == COLON
    && (forall k | m <= k < v :: Blank(s[k])) && (forall k | v <= k < e :: !Break(s[k]))
    && (e == |s| || Break(s[e]))
  }

  // Every byte outside the old value and its leading blanks is kept, in place and in order.
  lemma OutsideIsUnchanged(s: seq<byte>, host: seq<byte>) returns (v: nat, e: nat)
    requires ValueStart(s).Some?
    ensures Line(s, ValueStart(s).value, v, e)
    ensures Replaced(s, host) == Some(s[..ValueStart(s).value] + [SPACE] + host + s[e..])
  {
    ValueStartIsColon(s);
    var m := ValueStart(s).value;
    v := SkipBlanks(s, m);
    e := LineEnd(s, v);
    assert ValueEnd(s, m) == e;
  }

  // A Host line behind a bare line feed is rewritten, and not seen by the reader.
  lemma BareLineFeedIsNotRead(lower: CharMap)
    ensures var host: seq<byte> := [0x61];
            Replaced(LF_HOST, host) == Some(LF_HOST + [SPACE] + host)
            && HostRaw(lower, LF_HOST + [SPACE] + host) == NoHost
  {
    var host: seq<byte> := [0x61];
    var out := LF_HOST + [SPACE] + host;
    assert MatchAt(LF_HOST, LF_HOST, 0);
    assert Find(LF_HOST, CRLF_HOST).None? && Find(LF_HOST, LF_HOST) == Some(0);
    assert LF_HOST[..6] == LF_HOST && LF_HOST[6..] == [];
    assert Replaced(LF_HOST, host) == Some(out + []) && out + [] == out;
    RewrittenLine(LF_HOST, host);
    hide HostRaw;
    NothingRead(lower, out);
  }

  // One byte that is no UTF-8 in front of the header drifts by two: the reader starts two
  // bytes into what follows the colon ...
  lemma StrayByteIsMisread(lower: CharMap)
    ensures var s, host: seq<byte> := [0xFF] + CRLF_HOST, [0x61, 0x62, 0x63];
            && Replaced(s, host) == Some(s + [SPACE] + host)
            && HostRaw(lower, s + [SPACE] + host) == Host([0x62, 0x63])
  {
    var s, host: seq<byte> := [0xFF] + CRLF_HOST, [0x61, 0x62, 0x63];
    assert s[..8] == s;
    StrayByteFound(s);
    StrayReplaced(s, host);
    var out := s + [SPACE] + host;
    assert out[..8] == s && out[10] == 0x62 && out[11] == 0x63;
    hide *;
    StrayRead(lower, out);
  }

  lemma StrayRead(lower: CharMap, out: seq<byte>)
    requires |out| == 12 && out[..8] == [0xFF] + CRLF_HOST && out[10] == 0x62 && out[11] == 0x63
    ensures HostRaw(lower, out) == Host([0x62, 0x63])
  {
    assert out[..1] == out[..8][..1] == [0xFF];
    hide *;
    HeadOfShort(out);
    StrayByteFound(out);
    StrayByteDrifts(lower);
    StrayValue(out);
    OffsetIsByteOffset(lower, out, 1);
    ReadsAtOffset(lower, out);
    ReadsHost(out, 3, [0x62, 0x63]);
  }

  lemma HeadOfShort(s: seq<byte>)
    requires |s| <= 4096
    ensures Head(s) == s
  {
  }

  lemma StrayReplaced(s: seq<byte>, host: seq<byte>)
    requires |s| == 8 && Find(s, CRLF_HOST) == Some(1)
    ensures Replaced(s, host) == Some(s + [SPACE] + host)
  {
    hide Find;
    assert s[8..] == [] && s[..8] == s && s + [SPACE] + host + [] == s + [SPACE] + host;
  }

  lemma StrayValue(out: seq<byte>)
    requires |out| == 12 && out[10] == 0x62 && out[11] == 0x63
    ensures ValueAt(out, 10) == Some([0x62, 0x63])
  {
    var host: seq<byte> := [0x62, 0x63];
    assert PlainHost(host) && !Break(out[10]) && !Break(out[11]) && !Blank(out[10]);
    assert out[..12] == out && out[10..12] == host;
    hide *;
    ValueSpan(out, 12, 10, 10, 12);
    NothingToTrim(host);
  }

  // ... and past the end if nothing follows it.
  lemma StrayByteReadsPastEnd(lower: CharMap)
    ensures HostRaw(lower, [0xFF] + CRLF_HOST) == OutOfBounds
  {
    var s: seq<byte> := [0xFF] + CRLF_HOST;
    StrayByteDrifts(lower);
    StrayByteFound(s);
    assert s[..1] == [0xFF] && Head(s) == s;
    hide Drift, HostRaw, Find, Head, Offset;
    OffsetIsByteOffset(lower, s, 1);
    ReadsPastEndExactly(lower, s);
  }

  lemma StrayByteDrifts(lower: CharMap)
    ensures Drift(lower, [0xFF]) == 2
  {
  }

  lemma StrayByteFound(s: seq<byte>)
    requires |s| >= 8 && s[..8] == [0xFF] + CRLF_HOST
    ensures Find(s, CRLF_HOST) == Some(1)
  {
    forall j | 0 <= j < 7 ensures LowerByte(s[1 + j]) == CRLF_HOST[j] {
      assert s[1 + j] == s[..8][1 + j];
    }
    assert MatchAt(s, CRLF_HOST, 1);
    assert s[0] == s[..8][0] == 0xFF;
    HeadMustFit([], s, CRLF_HOST, 0);
    assert !MatchAt(s, CRLF_HOST, 0);
  }
}
