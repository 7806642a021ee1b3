/** The learned IP-to-DC map: its file format, loading and learning. */
module DcLearn {
  import opened Mtproto
  import opened Seqs
  import opened Text
  import opened Wrappers

  // ---- Text ---------------------------------------------------------------------------------

  predicate IsDigit(c: char)
  {
    '0' <= c <= '9'
  }

  predicate AllDigits(s: string)
  {
    s != [] && forall c | c in s :: IsDigit(c)
  }

  function Value(s: string): nat
    requires forall c | c in s :: IsDigit(c)
  {
    if s == [] then 0
    else
      assert IsDigit(s[|s| - 1]);
      Value(s[..|s| - 1]) * 10 + (s[|s| - 1] as int - '0' as int)
  }

  // One decimal byte, without leading zeros.
  predicate IsOctet(s: string)
  {
    AllDigits(s) && |s| <= 3 && (|s| > 1 ==> s[0] != '0') && Value(s) <= 255
  }

  predicate IsIpv4(s: string)
  {
    var parts := Split(s, '.');
    |parts| == 4 && forall p | p in parts :: IsOctet(p)
  }

  // A 32-bit number as Rust's `parse` reads it: an optional sign, then digits.
  function ParseI32(s: string): Option<int>
  {
    var signed := s != [] && (s[0] == '+' || s[0] == '-');
    var digits := if signed then s[1..] else s;
    if !AllDigits(digits) then None
    else
      var n: int := if signed && s[0] == '-' then -(Value(digits) as int) else Value(digits);
      if -0x8000_0000 <= n < 0x8000_0000 then Some(n) else None
  }

  // The next word at or after `i`, as `split_whitespace` finds it: it starts at `SkipSpaces`
  // and ends at `WordEnd`.
  function SkipSpaces(s: string, i: nat): (j: nat)
    requires i <= |s|
    ensures i <= j <= |s|
    ensures forall k | i <= k < j :: IsSpace(s[k])
    ensures j == |s| || !IsSpace(s[j])
    decreases |s| - i
  {
    if i < |s| && IsSpace(s[i]) then SkipSpaces(s, i + 1) else i
  }

  function WordEnd(s: string, i: nat): (j: nat)
    requires i <= |s|
    ensures i <= j <= |s|
    ensures forall k | i <= k < j :: !IsSpace(s[k])
    ensures j == |s| || IsSpace(s[j])
    decreases |s| - i
  {
    if i < |s| && !IsSpace(s[i]) then WordEnd(s, i + 1) else i
  }

  function CutComment(line: string): string
  {
    if line == [] || line[0] == '#' then [] else [line[0]] + CutComment(line[1..])
  }

  // ---- Lines --------------------------------------------------------------------------------

  datatype Slot = Slot(dc: int, media: bool)

  datatype Entry = Entry(ip: string, slot: Slot)

  predicate IsMediaTag(word: string)
  {
    var w := Lower(word);
    w == "media" || w == "1" || w == "true" || w == "m"
  }

  // The words of a line without its comment; skipping the blanks before each of them covers
  // the trimming of the line.
  function ParseWords(s: string): Option<Entry>
  {
    var a := SkipSpaces(s, 0);
    var b := WordEnd(s, a);
    if a == b || !IsIpv4(s[a..b]) then None
    else
      var c := SkipSpaces(s, b);
      var d := WordEnd(s, c);
      var dc := ParseI32(s[c..d]);
      if dc.None? || !ValidDc(dc.value) then None
      else
        var e := SkipSpaces(s, d);
        Some(Entry(s[a..b], Slot(dc.value, IsMediaTag(s[e..WordEnd(s, e)]))))
  }

  function ParseLine(line: string): Option<Entry>
  {
    ParseWords(CutComment(line))
  }

  function DcText(dc: int): string
    requires ValidDc(dc)
  {
    if dc == 203 then "203" else [('0' as int + dc) as char]
  }

  function LineText(e: Entry): string
    requires ValidDc(e.slot.dc)
  {
    e.ip + ([' '] + DcText(e.slot.dc) + (if e.slot.media then " media" else ""))
  }

  // ---- Loading and learning ------------------------------------------------------------------

  type Table = map<string, Slot>

  // The lines of a file. The empty piece after a final line break and a carriage return at
  // the end of a line parse to nothing and to a blank, so they change no entry.
  function Lines(content: string): (lines: seq<string>)
    ensures |lines| > 0
  {
    Split(content, '\n')
  }

  // Later lines override earlier ones.
  function Loaded(m: Table, lines: seq<string>): Table
  {
    if lines == [] then m
    else
      var before := Loaded(m, lines[..|lines| - 1]);
      match ParseLine(lines[|lines| - 1])
      case Some(e) => before[e.ip := e.slot]
      case None => before
  }

  // The learned file first, the admin file on top.
  function Reload(learnFile: string, adminFile: string): Table
  {
    Loaded(Loaded(map[], Lines(learnFile)), Lines(adminFile))
  }

  class DcMap {
    const hardcoded: set<string>
    var learned: Table

    constructor (hardcoded: set<string>)
      ensures this.hardcoded == hardcoded && learned == map[]
    {
      this.hardcoded, learned := hardcoded, map[];
    }

    // A file that cannot be read counts as absent.
    method Load(learnFile: Option<string>, adminFile: Option<string>)
      modifies this
      ensures learned == Reload(if learnFile.Some? then learnFile.value else "",
                                if adminFile.Some? then adminFile.value else "")
    {
      hide ParseLine;
      learned := map[];
      var files := [learnFile, adminFile];
      NoEntries(map[]);
      for i := 0 to 2
        invariant i == 0 ==> learned == map[]
        invariant i == 1 ==> learned == Loaded(map[], Lines(if learnFile.Some? then learnFile.value else ""))
        invariant i == 2 ==> learned == Reload(if learnFile.Some? then learnFile.value else "",
                                               if adminFile.Some? then adminFile.value else "")
      {
        NoEntries(learned);
        if files[i].Some? {
          LoadFile(files[i].value);
        }
      }
    }

    method LoadFile(content: string)
      modifies this
      ensures learned == Loaded(old(learned), Lines(content))
    {
      hide ParseLine;
      var lines := Lines(content);
      for i := 0 to |lines|
        invariant learned == Loaded(old(learned), lines[..i])
      {
        assert lines[..i + 1][..i] == lines[..i];
        match ParseLine(lines[i]) {
          case Some(e) => learned := learned[e.ip := e.slot];
          case None =>
        }
      }
      assert lines[..|lines|] == lines;
    }

    method Lookup(ip: string) returns (slot: Option<Slot>)
      ensures slot == if ip in learned then Some(learned[ip]) else None
    {
      return if ip in learned then Some(learned[ip]) else None;
    }

    // The checks before the write lock is taken.
    method WorthLearning(e: Entry) returns (worth: bool)
      ensures worth <==> e.ip != "" && ValidDc(e.slot.dc) && e.ip !in hardcoded && e.ip !in learned
    {
      if e.ip == "" || !ValidDc(e.slot.dc) || e.ip in hardcoded {
        return false;
      }
      return e.ip !in learned;
    }

    // The section under the write lock; `isNew` has the line appended to the file.
    method InsertIfAbsent(e: Entry) returns (isNew: bool)
      modifies this
      ensures isNew <==> e.ip !in old(learned)
      ensures learned == if isNew then old(learned)[e.ip := e.slot] else old(learned)
    {
      if e.ip in learned {
        return false;
      }
      learned := learned[e.ip := e.slot];
      return true;
    }

    method Learn(e: Entry) returns (line: Option<string>)
      modifies this
      ensures line.Some? <==> e.ip != "" && ValidDc(e.slot.dc) && e.ip !in hardcoded && e.ip !in old(learned)
      ensures line.Some? ==> learned == old(learned)[e.ip := e.slot] && line.value == LineText(e) + "\n"
      ensures line.None? ==> learned == old(learned)
    {
      var worth := WorthLearning(e);
      if !worth {
        return None;
      }
      var isNew := InsertIfAbsent(e);
      return if isNew then Some(LineText(e) + "\n") else None;
    }
  }

  lemma NoEntries(m: Table)
    ensures Loaded(m, Lines("")) == m
  {
    assert Lines("") == [""] && CutComment("") == "";
    assert SkipSpaces("", 0) == 0 && WordEnd("", 0) == 0;
  }

  // ---- A line that was written reads back ----------------------------------------------------

  lemma {:induction false} SplitChars(s: string, sep: char, i: nat) returns (k: nat)
    requires i < |s| && s[i] != sep
    ensures k < |Split(s, sep)| && s[i] in Split(s, sep)[k]
  {
    var init := s[..|s| - 1];
    var parts, all := Split(init, sep), Split(s, sep);
    if i == |s| - 1 {
      k := |all| - 1;
      assert all[k] == parts[k] + [s[i]];
    } else {
      k := SplitChars(init, sep, i);
      assert init[i] == s[i] && parts[k] <= all[k];
    }
  }

  // An IPv4 text is a non-empty word of digits and dots, with a dot in it.
  lemma Ipv4Chars(ip: string)
    requires IsIpv4(ip)
    ensures ip != [] && '.' in ip && forall c | c in ip :: IsDigit(c) || c == '.'
  {
    if '.' !in ip {
      SplitSingle(ip, '.');
      assert false;
    }
    forall c | c in ip ensures IsDigit(c) || c == '.' {
      var i :| 0 <= i < |ip| && ip[i] == c;
      if c != '.' {
        var k := SplitChars(ip, '.', i);
        assert Split(ip, '.')[k] in Split(ip, '.');
      }
    }
  }

  lemma NumbersHaveNoDots(s: string)
    requires ParseI32(s).Some?
    ensures '.' !in s
  {
    var signed := s[0] == '+' || s[0] == '-';
    assert s == [s[0]] + s[1..];
  }

  lemma DcTextReads(dc: int)
    requires ValidDc(dc)
    ensures ParseI32(DcText(dc)) == Some(dc) && forall c | c in DcText(dc) :: IsDigit(c)
  {
    if dc == 203 {
      assert Value("2") == 2;
      assert Value("20") == 20 by {
        assert "20"[..1] == "2";
      }
      assert "203"[..2] == "20";
    } else {
      var t := DcText(dc);
      assert |t| == 1 && t[..0] == [] && Value(t) == dc;
      assert t[0] != '+' && t[0] != '-' && IsDigit(t[0]);
    }
  }

  lemma {:induction false} SkipSpacesAt(s: string, i: nat, j: nat)
    requires i <= j <= |s| && forall k | i <= k < j :: IsSpace(s[k])
    requires j == |s| || !IsSpace(s[j])
    ensures SkipSpaces(s, i) == j
    decreases |s| - i
  {
    if i < j {
      SkipSpacesAt(s, i + 1, j);
    }
  }

  lemma {:induction false} WordEndAt(s: string, i: nat, j: nat)
    requires i <= j <= |s| && forall k | i <= k < j :: !IsSpace(s[k])
    requires j == |s| || IsSpace(s[j])
    ensures WordEnd(s, i) == j
    decreases |s| - i
  {
    if i < j {
      WordEndAt(s, i + 1, j);
    }
  }

  lemma {:induction false} CutConcat(a: string, b: string)
    ensures CutComment(a + b) == if '#' in a then CutComment(a) else a + CutComment(b)
    decreases |a|
  {
    if a == [] {
      assert a + b == b;
    } else {
      var c, t := a[0], a[1..];
      assert a + b == [c] + (t + b) && a == [c] + t;
      CutHead(c, t + b);
      CutHead(c, t);
      hide CutComment;
      CutConcat(t, b);
      ConcatAssociates([c], t, CutComment(b));
    }
  }

  lemma CutHead(c: char, rest: string)
    ensures CutComment([c] + rest) == if c == '#' then [] else [c] + CutComment(rest)
  {
    assert ([c] + rest)[1..] == rest;
  }

  lemma NothingToCut(s: string)
    requires '#' !in s
    ensures CutComment(s) == s
  {
    CutConcat(s, []);
    assert s + [] == s;
  }

  lemma TextWords(e: Entry)
    requires IsIpv4(e.ip) && ValidDc(e.slot.dc)
    ensures e.ip != [] && forall c | c in e.ip :: !IsSpace(c)
    ensures DcText(e.slot.dc) != [] && forall c | c in DcText(e.slot.dc) :: !IsSpace(c)
    ensures '#' !in LineText(e)
  {
    Ipv4Chars(e.ip);
    DcTextReads(e.slot.dc);
  }

  lemma ParseShape(s: string, a: nat, b: nat, c: nat, d: nat)
    requires a == SkipSpaces(s, 0) && b == WordEnd(s, a) && c == SkipSpaces(s, b) && d == WordEnd(s, c)
    ensures var r, dc, e := ParseWords(s), ParseI32(s[c..d]), SkipSpaces(s, d);
            && (r.Some? <==> a < b && IsIpv4(s[a..b]) && dc.Some? && ValidDc(dc.value))
            && (r.Some? ==> r.value == Entry(s[a..b], Slot(dc.value, IsMediaTag(s[e..WordEnd(s, e)]))))
  {
    hide IsIpv4, ParseI32, IsMediaTag;
  }

  // Three words and the blanks around them.
  lemma WordsRead(s: string, a: nat, b: nat, d: nat, dc: int)
    requires a < b < d <= |s| && b + 1 < d
    requires forall k | 0 <= k < a || k == b :: IsSpace(s[k])
    requires forall k | a <= k < b || b + 1 <= k < d :: !IsSpace(s[k])
    requires d == |s| || IsSpace(s[d])
    requires IsIpv4(s[a..b]) && ParseI32(s[b + 1..d]) == Some(dc) && ValidDc(dc)
    ensures var e := SkipSpaces(s, d);
            ParseWords(s) == Some(Entry(s[a..b], Slot(dc, IsMediaTag(s[e..WordEnd(s, e)]))))
  {
    hide *;
    ThreeWords(s, a, b, d);
    ParseShape(s, a, b, b + 1, d);
    assert ParseWords(s).Some?;
  }

  lemma ThreeWords(s: string, a: nat, b: nat, d: nat)
    requires a < b < d <= |s| && b + 1 < d
    requires forall k | 0 <= k < a || k == b :: IsSpace(s[k])
    requires forall k | a <= k < b || b + 1 <= k < d :: !IsSpace(s[k])
    requires d == |s| || IsSpace(s[d])
    ensures SkipSpaces(s, 0) == a && WordEnd(s, a) == b && SkipSpaces(s, b) == b + 1 && WordEnd(s, b + 1) == d
  {
    hide *;
    SkipSpacesAt(s, 0, a);
    WordEndAt(s, a, b);
    SkipSpacesAt(s, b, b + 1);
    WordEndAt(s, b + 1, d);
  }

  lemma MediaWord()
    ensures IsMediaTag("media") && !IsMediaTag("")
    ensures IsSpace(' ') && forall c | c in "media" :: !IsSpace(c)
  {
    assert Lower("media") == "media" && Lower("") == "";
  }

  // One more word behind one blank.
  lemma LastWord(s: string, d: nat, w: string)
    requires d < |s| && IsSpace(s[d]) && s[d + 1..] == w && forall c | c in w :: !IsSpace(c)
    ensures SkipSpaces(s, d) == d + 1 && WordEnd(s, d + 1) == |s|
  {
    forall k | d + 1 <= k < |s| ensures !IsSpace(s[k]) {
      assert s[k] == s[d + 1..][k - d - 1] && s[d + 1..][k - d - 1] in w;
    }
    hide *;
    SkipSpacesAt(s, d, d + 1);
    WordEndAt(s, d + 1, |s|);
  }

  lemma TagRead(s: string, d: nat, media: bool)
    requires d <= |s| && s[d..] == if media then " media" else ""
    ensures var e := SkipSpaces(s, d); IsMediaTag(s[e..WordEnd(s, e)]) == media
  {
    MediaWord();
    if media {
      assert s[d] == s[d..][0] == ' ' && s[d + 1..] == s[d..][1..] == "media";
      hide *;
      LastWord(s, d, s[d + 1..]);
      assert s[d + 1..|s|] == s[d + 1..];
    } else {
      hide IsMediaTag;
      assert d == |s| && s[d..d] == "";
    }
  }

  // Where the parts of a written line stand.
  lemma Laid(tail: string, ip: string, dc: string, tag: string)
    ensures var s := tail + (ip + ([' '] + dc + tag));
            var a, b := |tail|, |tail| + |ip|;
            var d := b + 1 + |dc|;
            && d <= |s| && s[..a] == tail && s[a..b] == ip && s[b] == ' ' && s[b + 1..d] == dc && s[d..] == tag
  {
  }

  lemma LaidWords(tail: string, ip: string, dc: string, tag: string)
    requires AllSpaces(tail) && (forall c | c in ip :: !IsSpace(c)) && (forall c | c in dc :: !IsSpace(c))
    ensures var s := tail + (ip + ([' '] + dc + tag));
            var a, b := |tail|, |tail| + |ip|;
            forall k | 0 <= k < b + 1 + |dc| :: IsSpace(s[k]) <==> k < a || k == b
  {
    var s := tail + (ip + ([' '] + dc + tag));
    var a, b := |tail|, |tail| + |ip|;
    hide IsSpace;
    assert IsSpace(' ') by {
      MediaWord();
    }
    forall k | 0 <= k < b + 1 + |dc| ensures IsSpace(s[k]) <==> k < a || k == b {
      if k < a {
        assert s[k] == tail[k];
      } else if k < b {
        assert s[k] == ip[k - a];
      } else if k > b {
        assert s[k] == dc[k - b - 1];
      } else {
        assert s[k] == ' ';
      }
    }
  }

  lemma PartsRead(s: string, a: nat, b: nat, d: nat, dc: int, media: bool)
    requires a < b && b + 1 < d <= |s|
    requires forall k | 0 <= k < d :: IsSpace(s[k]) <==> k < a || k == b
    requires IsIpv4(s[a..b]) && ParseI32(s[b + 1..d]) == Some(dc) && ValidDc(dc)
    requires s[d..] == if media then " media" else ""
    ensures ParseWords(s) == Some(Entry(s[a..b], Slot(dc, media)))
  {
    MediaWord();
    hide IsIpv4, ParseI32, ParseWords, IsMediaTag, IsSpace;
    assert d < |s| ==> s[d] == s[d..][0];
    WordsRead(s, a, b, d, dc);
    TagRead(s, d, media);
  }

  lemma LaidReads(tail: string, ip: string, text: string, tag: string, dc: int, media: bool)
    requires AllSpaces(tail) && IsIpv4(ip) && ParseI32(text) == Some(dc) && ValidDc(dc)
    requires ip != [] && (forall c | c in ip :: !IsSpace(c)) && text != [] && (forall c | c in text :: !IsSpace(c))
    requires tag == if media then " media" else ""
    ensures ParseWords(tail + (ip + ([' '] + text + tag))) == Some(Entry(ip, Slot(dc, media)))
  {
    hide *;
    Laid(tail, ip, text, tag);
    LaidWords(tail, ip, text, tag);
    var b := |tail| + |ip|;
    PartsRead(tail + (ip + ([' '] + text + tag)), |tail|, b, b + 1 + |text|, dc, media);
  }

  // A line written after nothing but blanks reads back as its entry.
  lemma WrittenReads(tail: string, e: Entry)
    requires AllSpaces(tail) && IsIpv4(e.ip) && ValidDc(e.slot.dc)
    ensures ParseLine(tail + LineText(e)) == Some(e)
  {
    TextWords(e);
    DcTextReads(e.slot.dc);
    NothingToCut(tail + LineText(e));
    hide ParseWords, CutComment, IsIpv4, ParseI32, DcText;
    var tag := if e.slot.media then " media" else "";
    LaidReads(tail, e.ip, DcText(e.slot.dc), tag, e.slot.dc, e.slot.media);
  }

  // ---- A line that was not written on its own is lost ----------------------------------------

  predicate Keyless(line: string, ip: string)
  {
    ParseLine(line).Some? ==> ParseLine(line).value.ip != ip
  }

  // Whatever is appended to the line, it never gives an entry for `ip`.
  ghost predicate Never(line: string, ip: string)
  {
    forall more :: Keyless(line + more, ip)
  }

  lemma NeverExtends(line: string, ip: string, more: string)
    requires Never(line, ip)
    ensures Never(line + more, ip) && Keyless(line, ip)
  {
    hide Keyless;
    assert line + [] == line && Keyless(line + [], ip);
    forall x ensures Keyless((line + more) + x, ip) {
      assert (line + more) + x == line + (more + x);
      assert Keyless(line + (more + x), ip);
    }
  }

  lemma FirstWord(tail: string, ip: string, more: string)
    requires AllSpaces(tail) && ip != [] && forall c | c in ip :: !IsSpace(c)
    ensures var r := ParseWords(tail + (ip + ([' '] + more))); r.Some? ==> r.value.ip == ip
  {
    hide IsIpv4, ParseI32;
    Laid(tail, ip, "", more);
    assert [' '] + "" + more == [' '] + more;
    var s, a, b := tail + (ip + ([' '] + more)), |tail|, |tail| + |ip|;
    forall k | 0 <= k < b ensures IsSpace(s[k]) <==> k < a {
      if k < a {
        assert s[k] == s[..a][k] && s[..a][k] in tail;
      } else {
        assert s[k] == s[a..b][k - a] && s[a..b][k - a] in ip;
      }
    }
    SkipSpacesAt(s, 0, a);
    WordEndAt(s, a, b);
  }

  lemma Regroup(tail: string, ip: string, sep: string, end: string, y: string)
    ensures (tail + (ip + (sep + end))) + y == tail + (ip + (sep + (end + y)))
  {
  }

  // The line after `text`, without its comment.
  lemma CutAfter(text: string, more: string) returns (y: string)
    requires '#' !in text
    ensures CutComment(text + more) == text + y
  {
    CutConcat(text, more);
    y := CutComment(more);
  }

  // A line that starts with another address.
  lemma OtherNever(tail: string, e: Entry, ip: string)
    requires AllSpaces(tail) && IsIpv4(e.ip) && ValidDc(e.slot.dc) && e.ip != ip
    ensures Never(tail + LineText(e), ip)
  {
    TextWords(e);
    var end := DcText(e.slot.dc) + if e.slot.media then " media" else "";
    var text := e.ip + ([' '] + end);
    assert LineText(e) == text && '#' !in tail + text;
    hide IsIpv4, ParseWords, DcText, CutComment, LineText, AllSpaces, IsSpace;
    forall more ensures Keyless((tail + text) + more, ip) {
      var y := CutAfter(tail + text, more);
      Regroup(tail, e.ip, [' '], end, y);
      FirstWord(tail, e.ip, end + y);
    }
  }

  lemma FirstWordInside(s: string, n: nat)
    requires n <= |s| && !AllSpaces(s[..n])
    ensures SkipSpaces(s, 0) < n
  {
    var c :| c in s[..n] && !IsSpace(c);
    var k :| 0 <= k < n && s[..n][k] == c;
    assert s[k] == c;
  }

  // Words that end before `n` are words of the first `n` characters.
  lemma SameWords(s: string, n: nat, a: nat, b: nat, c: nat, d: nat)
    requires d < n <= |s| && a == SkipSpaces(s, 0) && b == WordEnd(s, a) && c == SkipSpaces(s, b) && d == WordEnd(s, c)
    ensures var tail := s[..n];
            && a == SkipSpaces(tail, 0) && b == WordEnd(tail, a) && c == SkipSpaces(tail, b) && d == WordEnd(tail, c)
            && tail[a..b] == s[a..b] && tail[c..d] == s[c..d]
  {
    hide IsSpace;
    var tail := s[..n];
    SkipSpacesAt(tail, 0, a);
    WordEndAt(tail, a, b);
    SkipSpacesAt(tail, b, c);
    WordEndAt(tail, c, d);
  }

  lemma DotInside(s: string, n: nat, ip: string, c: nat, d: nat)
    requires n + |ip| <= |s| && c <= n <= d && d == WordEnd(s, c) && '.' in ip
    requires forall k | n <= k < n + |ip| :: s[k] == ip[k - n] && !IsSpace(s[k])
    ensures '.' in s[c..d]
  {
    assert d >= n + |ip|;
    var k :| 0 <= k < |ip| && ip[k] == '.';
    assert s[c..d][n + k - c] == s[n + k];
  }

  lemma WordPast(s: string, i: nat, n: nat, m: nat)
    requires i <= |s| && n <= m <= |s| && forall k | n <= k < m :: !IsSpace(s[k])
    ensures WordEnd(s, i) < n || WordEnd(s, i) >= m
  {
  }

  lemma SkipBefore(s: string, i: nat, n: nat)
    requires i <= n < |s| && !IsSpace(s[n])
    ensures SkipSpaces(s, i) <= n
  {
  }

  // An address written after something that is not blank is no first word of the line, and
  // cannot stand for a DC in the second.
  lemma MergedKeyless(tail: string, ip: string, rest: string)
    requires !AllSpaces(tail) && '#' !in tail && IsIpv4(ip) && Keyless(tail, ip)
    ensures KeylessWords(tail + (ip + rest), ip)
  {
    Ipv4Chars(ip);
    NothingToCut(tail);
    var s, n := tail + (ip + rest), |tail|;
    assert s[..n] == tail && s[n..n + |ip|] == ip;
    forall k | n <= k < n + |ip| ensures s[k] == ip[k - n] && !IsSpace(s[k]) {
      assert s[k] == s[n..n + |ip|][k - n] && ip[k - n] in ip;
    }
    assert KeylessWords(s[..n], ip);
    hide *;
    MergedWords(s, n, ip);
  }

  predicate KeylessWords(s: string, ip: string)
  {
    ParseWords(s).Some? ==> ParseWords(s).value.ip != ip
  }

  lemma MergedWords(s: string, n: nat, ip: string)
    requires n + |ip| <= |s| && '.' in ip && !AllSpaces(s[..n]) && KeylessWords(s[..n], ip)
    requires forall k | n <= k < n + |ip| :: s[k] == ip[k - n] && !IsSpace(s[k])
    ensures KeylessWords(s, ip)
  {
    FirstWordInside(s, n);
    hide ParseWords, IsIpv4, ParseI32, AllSpaces, IsSpace, IsMediaTag;
    var a := SkipSpaces(s, 0);
    var b := WordEnd(s, a);
    var c := SkipSpaces(s, b);
    var d := WordEnd(s, c);
    ParseShape(s, a, b, c, d);
    WordPast(s, a, n, n + |ip|);
    if b >= n {
      assert |s[a..b]| > |ip|;
    } else {
      SkipBefore(s, b, n);
      WordPast(s, c, n, n + |ip|);
      if d < n {
        SameWords(s, n, a, b, c, d);
        ParseShape(s[..n], a, b, c, d);
      } else {
        DotInside(s, n, ip, c, d);
        if ParseI32(s[c..d]).Some? {
          NumbersHaveNoDots(s[c..d]);
        }
      }
    }
  }

  // Appending an entry to a line that is not blank loses it for good.
  lemma MergedNever(tail: string, e: Entry)
    requires !AllSpaces(tail) && IsIpv4(e.ip) && ValidDc(e.slot.dc) && Keyless(tail, e.ip)
    ensures Never(tail + LineText(e), e.ip)
  {
    TextWords(e);
    var end := DcText(e.slot.dc) + if e.slot.media then " media" else "";
    var text := e.ip + ([' '] + end);
    assert LineText(e) == text;
    hide IsIpv4, ParseWords, DcText, CutComment, LineText, AllSpaces, IsSpace;
    forall more ensures Keyless((tail + text) + more, e.ip) {
      if '#' in tail {
        assert (tail + text) + more == tail + (text + more);
        CutConcat(tail, text + more);
        CutConcat(tail, []);
        assert tail + [] == tail;
      } else {
        var y := CutAfter(tail + text, more);
        Regroup(tail, e.ip, [' '], end, y);
        MergedKeyless(tail, e.ip, [' '] + (end + y));
      }
    }
  }

  // ---- Files that grow ---------------------------------------------------------------------------

  lemma TextHasNoBreak(e: Entry)
    requires IsIpv4(e.ip) && ValidDc(e.slot.dc)
    ensures '\n' !in LineText(e)
  {
    Ipv4Chars(e.ip);
    DcTextReads(e.slot.dc);
  }

  // The admin file is on top: its addresses have its slots, the others those of the learned
  // file.
  lemma AdminOnTop(learnFile: string, adminFile: string)
    ensures Reload(learnFile, adminFile) == Reload(learnFile, "") + Reload("", adminFile)
  {
    LoadedOver(Loaded(map[], Lines(learnFile)), Lines(adminFile));
    NoEntries(Loaded(map[], Lines(learnFile)));
    NoEntries(map[]);
  }

  lemma {:induction false} LoadedOver(m: Table, lines: seq<string>)
    ensures Loaded(m, lines) == m + Loaded(map[], lines)
  {
    hide ParseLine;
    if lines != [] {
      LoadedOver(m, lines[..|lines| - 1]);
    }
  }

  lemma {:induction false} LoadedKeyless(lines: seq<string>, ip: string)
    ensures ip !in Loaded(map[], lines) <==> forall l | l in lines :: Keyless(l, ip)
  {
    hide ParseLine;
    if lines != [] {
      var init, last := lines[..|lines| - 1], lines[|lines| - 1];
      LoadedKeyless(init, ip);
      assert forall l :: l in lines <==> l in init || l == last;
      assert ip !in Loaded(map[], lines) <==> ip !in Loaded(map[], init) && Keyless(last, ip);
    }
  }

  lemma {:induction false} LoadedIsIpv4(lines: seq<string>, ip: string)
    requires ip in Loaded(map[], lines)
    ensures IsIpv4(ip)
  {
    hide IsIpv4, ParseI32, CutComment, IsMediaTag;
    if ParseLine(lines[|lines| - 1]).None? || ParseLine(lines[|lines| - 1]).value.ip != ip {
      LoadedIsIpv4(lines[..|lines| - 1], ip);
    }
  }

  lemma BlankParses(line: string)
    requires AllSpaces(line)
    ensures ParseLine(line).None?
  {
    assert '#' !in line;
    NothingToCut(line);
    assert forall k | 0 <= k < |line| :: line[k] in line;
    SkipSpacesAt(line, 0, |line|);
  }

  function Last(content: string): string
  {
    Lines(content)[|Lines(content)| - 1]
  }

  lemma LastLine(content: string)
    ensures Last(content) == Lines(content)[|Lines(content)| - 1]
  {
  }

  // Text without a break extends the last line.
  lemma SplitLines(content: string, x: string)
    requires '\n' !in x
    ensures var last := |Lines(content)| - 1;
            && Lines(content + x) == Lines(content)[last := Last(content) + x]
            && Last(content + x) == Last(content) + x
  {
    SplitText(content, x, '\n');
  }

  lemma LoadedLast(lines: seq<string>, last: nat, line: string, e: Entry)
    requires last == |lines| - 1 && ParseLine(lines[last]).None? && ParseLine(line) == Some(e)
    ensures Loaded(map[], lines[last := line]) == Loaded(map[], lines)[e.ip := e.slot]
  {
    hide ParseLine;
    assert lines[last := line][..last] == lines[..last];
  }

  // An entry written on a blank last line is what loading gains, break or no break.
  lemma TextLoads(content: string, e: Entry)
    requires AllSpaces(Last(content)) && IsIpv4(e.ip) && ValidDc(e.slot.dc)
    ensures Loaded(map[], Lines(content + LineText(e))) == Loaded(map[], Lines(content))[e.ip := e.slot]
  {
    TextHasNoBreak(e);
    BlankParses(Last(content));
    WrittenReads(Last(content), e);
    hide *;
    LastLine(content);
    LoadedLast(Lines(content), |Lines(content)| - 1, Last(content) + LineText(e), e);
    SplitLines(content, LineText(e));
  }

  lemma BreakLoads(content: string)
    ensures Loaded(map[], Lines(content + ['\n'])) == Loaded(map[], Lines(content))
    ensures Last(content + ['\n']) == []
  {
    SplitBreak(content, '\n');
    BlankParses([]);
    hide ParseLine;
    assert (Lines(content) + [[]])[..|Lines(content)|] == Lines(content);
  }

  // Nothing that can still be appended brings `ip` back: no line gives it, and the last
  // line is blank or never will.
  ghost predicate Lost(content: string, ip: string)
  {
    && (forall l | l in Lines(content) :: Keyless(l, ip))
    && (AllSpaces(Last(content)) || Never(Last(content), ip))
  }

  lemma LostByTail(content: string, x: string, ip: string)
    requires '\n' !in x && Never(Last(content) + x, ip)
    requires forall l | l in Lines(content) :: Keyless(l, ip)
    ensures Lost(content + x, ip)
  {
    hide Keyless, Never, AllSpaces;
    SplitLines(content, x);
    NeverExtends(Last(content) + x, ip, []);
    hide Lines;
    forall l | l in Lines(content + x) ensures Keyless(l, ip) {
      assert l == Last(content) + x || l in Lines(content);
    }
  }

  lemma MergingLoses(content: string, e: Entry)
    requires !AllSpaces(Last(content)) && IsIpv4(e.ip) && ValidDc(e.slot.dc)
    requires e.ip !in Loaded(map[], Lines(content))
    ensures Lost(content + LineText(e), e.ip)
  {
    TextHasNoBreak(e);
    LoadedKeyless(Lines(content), e.ip);
    LastLine(content);
    hide *;
    MergedNever(Last(content), e);
    LostByTail(content, LineText(e), e.ip);
  }

  lemma LostStaysLost(content: string, ip: string, e: Entry)
    requires Lost(content, ip) && IsIpv4(e.ip) && ValidDc(e.slot.dc) && e.ip != ip
    ensures Lost(content + LineText(e), ip)
  {
    TextHasNoBreak(e);
    hide Keyless, Never, AllSpaces, LineText, IsIpv4, Lines;
    if AllSpaces(Last(content)) {
      OtherNever(Last(content), e, ip);
    } else {
      NeverExtends(Last(content), ip, LineText(e));
    }
    LostByTail(content, LineText(e), ip);
  }

  lemma LostPastBreak(content: string, ip: string)
    requires Lost(content, ip)
    ensures Lost(content + ['\n'], ip)
  {
    SplitBreak(content, '\n');
    BlankParses([]);
  }

  // ---- What is read as an address, a number and a line -----------------------------------

  function DecimalText(n: nat): string
  {
    if n < 10 then [('0' as int + n) as char] else DecimalText(n / 10) + [('0' as int + n % 10) as char]
  }

  function ZeroText(z: nat): (s: string)
    ensures |s| == z && forall c | c in s :: c == '0'
  {
    seq(z, i => '0')
  }

  lemma ValueSnoc(d: string, c: char)
    requires (forall x | x in d :: IsDigit(x)) && IsDigit(c)
    ensures forall x | x in d + [c] :: IsDigit(x)
    ensures Value(d + [c]) == Value(d) * 10 + (c as int - '0' as int)
  {
    assert (d + [c])[..|d|] == d;
  }

  lemma {:induction false} DecimalTextReads(n: nat)
    ensures AllDigits(DecimalText(n)) && Value(DecimalText(n)) == n
    ensures n > 0 ==> DecimalText(n)[0] != '0'
  {
    if n >= 10 {
      DecimalTextReads(n / 10);
      ValueSnoc(DecimalText(n / 10), ('0' as int + n % 10) as char);
    } else {
      ValueSnoc([], ('0' as int + n) as char);
      assert [] + DecimalText(n) == DecimalText(n);
    }
  }

  lemma {:induction false} LeadingZeros(z: nat, d: string)
    requires AllDigits(d)
    ensures AllDigits(ZeroText(z) + d) && Value(ZeroText(z) + d) == Value(d)
    decreases |d|
  {
    var init, c := d[..|d| - 1], d[|d| - 1];
    assert d == init + [c] && ZeroText(z) + d == (ZeroText(z) + init) + [c];
    if init == [] {
      AllZeros(z);
      assert ZeroText(z) + init == ZeroText(z);
    } else {
      LeadingZeros(z, init);
    }
    ValueSnoc(ZeroText(z) + init, c);
    ValueSnoc(init, c);
  }

  lemma {:induction false} AllZeros(z: nat)
    ensures Value(ZeroText(z)) == 0
  {
    if z > 0 {
      AllZeros(z - 1);
      ZeroSnoc(z - 1);
      hide Value, ZeroText;
      ValueSnoc(ZeroText(z - 1), '0');
    }
  }

  lemma ZeroSnoc(z: nat)
    ensures ZeroText(z + 1) == ZeroText(z) + ['0'] && forall x | x in ZeroText(z) :: IsDigit(x)
  {
  }

  lemma DecimalSnoc(m: nat, c: char)
    requires IsDigit(c)
    ensures var v := c as int - '0' as int;
            DecimalText(m * 10 + v) == if m == 0 then [c] else DecimalText(m) + [c]
  {
    var v := c as int - '0' as int;
    assert (m * 10 + v) / 10 == m && (m * 10 + v) % 10 == v;
  }

  lemma LastDigit(d: string)
    requires AllDigits(d)
    ensures var init, c := d[..|d| - 1], d[|d| - 1];
            && IsDigit(c) && (forall x | x in init :: IsDigit(x)) && (init != [] ==> AllDigits(init))
            && (init == [] ==> Value(init) == 0)
            && Value(d) == Value(init) * 10 + (c as int - '0' as int)
  {
    assert forall x | x in d[..|d| - 1] :: x in d;
  }

  // Digits are zeros and then the number without any.
  lemma {:induction false} DigitsWrite(d: string) returns (z: nat)
    requires AllDigits(d)
    ensures d == ZeroText(z) + DecimalText(Value(d))
    decreases |d|
  {
    assert d != [];
    LastDigit(d);
    hide *;
    var init, c := d[..|d| - 1], d[|d| - 1];
    assert d == init + [c];
    DecimalSnoc(Value(init), c);
    if init == [] {
      z := 0;
      assert [] + [c] == [c];
      assert ZeroText(0) == [];
    } else {
      z := DigitsWrite(init);
      if Value(init) == 0 {
        ZeroDigit();
        ZeroSnoc(z);
        z := z + 1;
      } else {
        ConcatAssociates(ZeroText(z), DecimalText(Value(init)), [c]);
      }
    }
  }

  lemma ZeroDigit()
    ensures DecimalText(0) == ['0']
  {
  }

  lemma ZeroInFront(z: nat, d: string)
    requires d != []
    ensures z > 0 ==> (ZeroText(z) + d)[0] == '0' && |ZeroText(z) + d| > 1
  {
    if z > 0 {
      assert ZeroText(z)[0] in ZeroText(z);
    }
  }

  lemma OctetIsOne(n: nat)
    requires n <= 255
    ensures IsOctet(DecimalText(n)) && '.' !in DecimalText(n)
  {
    DecimalTextReads(n);
    if n >= 10 {
      assert |DecimalText(n / 10)| <= 2;
    }
    OctetHasNoDot(DecimalText(n));
  }

  lemma OctetIsWritten(s: string) returns (n: nat)
    requires IsOctet(s)
    ensures n <= 255 && s == DecimalText(n)
  {
    n := Value(s);
    var z := DigitsWrite(s);
    DecimalTextReads(Value(s));
    ZeroInFront(z, DecimalText(Value(s)));
    hide DecimalText, Value;
    assert ZeroText(0) + DecimalText(Value(s)) == DecimalText(Value(s));
  }

  // An octet is a number up to 255 as it is usually written.
  lemma OctetExactly(s: string)
    ensures IsOctet(s) <==> exists n: nat :: n <= 255 && s == DecimalText(n)
  {
    hide IsOctet, DecimalText, Value;
    if IsOctet(s) {
      var n := OctetIsWritten(s);
    }
    if n: nat :| n <= 255 && s == DecimalText(n) {
      OctetIsOne(n);
    }
  }

  lemma OctetHasNoDot(s: string)
    requires AllDigits(s)
    ensures '.' !in s
  {
  }

  predicate Dotted(s: string, a: nat, b: nat, c: nat, d: nat)
  {
    && a <= 255 && b <= 255 && c <= 255 && d <= 255
    && s == DecimalText(a) + "." + DecimalText(b) + "." + DecimalText(c) + "." + DecimalText(d)
  }

  lemma JoinFour(a: string, b: string, c: string, d: string)
    ensures Join([a, b, c, d], '.') == a + "." + b + "." + c + "." + d
  {
    var three := [a, b, c];
    var two := [a, b];
    assert [a, b, c, d][..3] == three && three[..2] == two && two[..1] == [a];
    assert Join([a], '.') == a && Join(two, '.') == a + "." + b && Join(three, '.') == a + "." + b + "." + c;
  }

  // An address is read exactly when it is four such numbers with dots between them.
  lemma Ipv4Exactly(s: string)
    ensures IsIpv4(s) <==> exists a: nat, b: nat, c: nat, d: nat :: Dotted(s, a, b, c, d)
  {
    hide IsOctet, DecimalText, Split, Join, Value;
    if IsIpv4(s) {
      var p := Split(s, '.');
      SplitJoins(s, '.');
      JoinFour(p[0], p[1], p[2], p[3]);
      assert p == [p[0], p[1], p[2], p[3]];
      var a := OctetIsWritten(p[0]);
      var b := OctetIsWritten(p[1]);
      var c := OctetIsWritten(p[2]);
      var d := OctetIsWritten(p[3]);
      assert Dotted(s, a, b, c, d);
    }
    if a: nat, b: nat, c: nat, d: nat :| Dotted(s, a, b, c, d) {
      DottedIsIpv4(s, a, b, c, d);
    }
  }

  lemma DottedIsIpv4(s: string, a: nat, b: nat, c: nat, d: nat)
    requires Dotted(s, a, b, c, d)
    ensures IsIpv4(s)
  {
    hide IsOctet, DecimalText, Split, Join;
    var p := [DecimalText(a), DecimalText(b), DecimalText(c), DecimalText(d)];
    OctetIsOne(a);
    OctetIsOne(b);
    OctetIsOne(c);
    OctetIsOne(d);
    JoinFour(p[0], p[1], p[2], p[3]);
    JoinSplits(p, '.');
  }

  // A number with or without a sign, and with any zeros in front.
  predicate WritesNumber(s: string, n: int, sign: string, z: nat)
  {
    && (sign == "" || sign == "+" || sign == "-") && (if sign == "-" then n <= 0 else n >= 0)
    && s == sign + (ZeroText(z) + DecimalText(if n < 0 then -n else n))
  }

  lemma I32Exactly(s: string, n: int)
    ensures ParseI32(s) == Some(n) <==>
            -0x8000_0000 <= n < 0x8000_0000 && exists sign: string, z: nat :: WritesNumber(s, n, sign, z)
  {
    hide Value, DecimalText, ZeroText;
    if ParseI32(s) == Some(n) {
      var signed := s[0] == '+' || s[0] == '-';
      var sign, digits := if signed then s[..1] else "", if signed then s[1..] else s;
      assert s == sign + digits;
      var z := DigitsWrite(digits);
      assert WritesNumber(s, n, sign, z);
    }
    if -0x8000_0000 <= n < 0x8000_0000 {
      if sign: string, z: nat :| WritesNumber(s, n, sign, z) {
        WrittenIsRead(s, n, sign, z);
      }
    }
  }

  lemma StartsWithDigit(digits: string)
    requires AllDigits(digits)
    ensures digits[0] != '+' && digits[0] != '-'
  {
    assert digits[0] in digits;
  }

  lemma WrittenIsRead(s: string, n: int, sign: string, z: nat)
    requires -0x8000_0000 <= n < 0x8000_0000 && WritesNumber(s, n, sign, z)
    ensures ParseI32(s) == Some(n)
  {
    var m := if n < 0 then -n else n;
    DecimalTextReads(m);
    LeadingZeros(z, DecimalText(m));
    hide Value, DecimalText, ZeroText;
    var digits := ZeroText(z) + DecimalText(m);
    StartsWithDigit(digits);
    hide AllDigits;
    if sign != "" {
      assert s[0] == sign[0] && s[1..] == digits;
    } else {
      assert s == digits;
    }
  }

  // The words that mark an address as one for media, in any letter case.
  lemma TagExactly(w: string)
    ensures IsMediaTag(w) <==>
            || OnlyCaseDiffers(w, "media") || OnlyCaseDiffers(w, "true") || OnlyCaseDiffers(w, "m") || w == "1"
  {
    LowerExactly(w, "media");
    LowerExactly(w, "true");
    LowerExactly(w, "m");
    LowerExactly(w, "1");
    assert Lower("media") == "media" && Lower("true") == "true" && Lower("m") == "m" && Lower("1") == "1";
    hide Lower;
    if OnlyCaseDiffers(w, "1") {
      assert |w| == 1 && w[0] == '1';
    }
  }

  predicate Word(w: string)
  {
    w != [] && forall c | c in w :: !IsSpace(c) && c != '#'
  }

  // The word `w` is the next one at `i`, behind `blanks`.
  predicate WordAt(s: string, i: nat, blanks: string, w: string)
    requires i <= |s|
  {
    && i + |blanks| + |w| <= |s|
    && SkipSpaces(s, i) == i + |blanks| && WordEnd(s, i + |blanks|) == i + |blanks| + |w|
    && s[i + |blanks|..i + |blanks| + |w|] == w
  }

  lemma NextWord(s: string, i: nat, blanks: string, w: string, rest: string)
    requires i <= |s| && s[i..] == blanks + (w + rest) && AllSpaces(blanks) && (forall c | c in w :: !IsSpace(c))
    requires rest != [] ==> w != [] && IsSpace(rest[0])
    ensures WordAt(s, i, blanks, w) && s[i + |blanks| + |w|..] == rest
  {
    var a := i + |blanks|;
    hide *;
    forall k | i <= k < a ensures IsSpace(s[k]) {
      assert s[k] == s[i..][k - i] == blanks[k - i];
      OneOfSpaces(blanks, k - i);
    }
    forall k | a <= k < a + |w| ensures !IsSpace(s[k]) {
      assert s[k] == s[i..][k - i] == w[k - a];
    }
    if rest != [] {
      assert s[a + |w|] == s[i..][|blanks| + |w|] == rest[0];
    }
    assert w != [] ==> !IsSpace(s[a]);
    SkipSpacesAt(s, i, a);
    WordEndAt(s, a, a + |w|);
    assert s[a..a + |w|] == s[i..][|blanks|..|blanks| + |w|];
    assert s[a + |w|..] == s[i..][|blanks| + |w|..];
    IsWordAt(s, i, blanks, w);
  }

  lemma IsWordAt(s: string, i: nat, blanks: string, w: string)
    requires i <= |s| && i + |blanks| + |w| <= |s|
    requires SkipSpaces(s, i) == i + |blanks| && WordEnd(s, i + |blanks|) == i + |blanks| + |w|
    requires s[i + |blanks|..i + |blanks| + |w|] == w
    ensures WordAt(s, i, blanks, w)
  {
    hide SkipSpaces, WordEnd;
  }

  lemma OneOfSpaces(s: string, k: nat)
    requires AllSpaces(s) && k < |s|
    ensures IsSpace(s[k])
  {
    hide IsSpace;
  }

  lemma EmptyTail(c: string, tag: string, more: string)
    requires AllSpaces(c) && ((tag == [] && more == []) || c != [])
    ensures c + (tag + more) != [] ==> IsSpace((c + (tag + more))[0])
  {
    hide IsSpace;
    if c != [] {
      OneOfSpaces(c, 0);
    }
  }

  // Three words, one after another.
  lemma WordsParse(s: string, a: string, ip: string, b: string, num: string, c: string, tag: string, dc: int)
    requires |a| + |ip| + |b| + |num| <= |s| && ip != []
    requires WordAt(s, 0, a, ip) && WordAt(s, |a| + |ip|, b, num) && WordAt(s, |a| + |ip| + |b| + |num|, c, tag)
    requires IsIpv4(ip) && ParseI32(num) == Some(dc) && ValidDc(dc)
    ensures ParseWords(s) == Some(Entry(ip, Slot(dc, IsMediaTag(tag))))
  {
    hide IsIpv4, ParseI32, IsMediaTag, SkipSpaces, WordEnd, ParseWords, ValidDc;
    var p := |a| + |ip|;
    ParseShape(s, |a|, p, p + |b|, p + |b| + |num|);
  }

  lemma LineWords(s: string, a: string, ip: string, second: string, b: string, num: string, third: string,
                  c: string, tag: string, more: string, dc: int)
    requires s == a + (ip + second) && second == b + (num + third) && third == c + (tag + more)
    requires AllSpaces(a) && AllSpaces(b) && AllSpaces(c) && b != [] && ip != [] && num != []
    requires forall x | x in ip || x in num || x in tag :: !IsSpace(x)
    requires (tag == [] && more == []) || (c != [] && tag != [])
    requires more != [] ==> IsSpace(more[0])
    requires IsIpv4(ip) && ParseI32(num) == Some(dc) && ValidDc(dc)
    ensures ParseWords(s) == Some(Entry(ip, Slot(dc, IsMediaTag(tag))))
  {
    hide *;
    var p := |a| + |ip|;
    StartsBlank(b, num + third);
    EmptyTail(c, tag, more);
    assert s[0..] == s;
    NextWord(s, 0, a, ip, second);
    NextWord(s, p, b, num, third);
    NextWord(s, p + |b| + |num|, c, tag, more);
    WordsParse(s, a, ip, b, num, c, tag, dc);
  }

  lemma HashFree(x: string, y: string)
    requires '#' !in x && '#' !in y
    ensures '#' !in x + y
  {
  }

  // A line is read whatever the blanks around its words, whatever follows the third of them,
  // and whatever stands behind a '#'.
  lemma LineReads(a: string, ip: string, b: string, num: string, c: string, tag: string, more: string, comment: string,
                  dc: int)
    requires AllSpaces(a) && AllSpaces(b) && AllSpaces(c) && b != []
    requires IsIpv4(ip) && ParseI32(num) == Some(dc) && ValidDc(dc)
    requires (tag == [] && more == []) || (c != [] && Word(tag))
    requires '#' !in more && (more != [] ==> IsSpace(more[0]))
    requires comment != [] ==> comment[0] == '#'
    ensures ParseLine(a + (ip + (b + (num + (c + (tag + more))))) + comment)
         == Some(Entry(ip, Slot(dc, IsMediaTag(tag))))
  {
    Ipv4Chars(ip);
    NumberIsWord(num);
    WordsHaveNoSpace(ip, num, tag);
    NoHash(a, b, c);
    hide *;
    HashFree(tag, more);
    HashFree(c, tag + more);
    HashFree(num, c + (tag + more));
    HashFree(b, num + (c + (tag + more)));
    HashFree(ip, b + (num + (c + (tag + more))));
    HashFree(a, ip + (b + (num + (c + (tag + more)))));
    var third := c + (tag + more);
    var second := b + (num + third);
    var s := a + (ip + second);
    WithoutComment(s, comment);
    LineWords(s, a, ip, second, b, num, third, c, tag, more, dc);
    ParseIs(s + comment, s);
  }

  lemma ParseIs(line: string, s: string)
    requires CutComment(line) == s
    ensures ParseLine(line) == ParseWords(s)
  {
    hide CutComment, ParseWords;
  }

  lemma WithoutComment(s: string, comment: string)
    requires '#' !in s && (comment != [] ==> comment[0] == '#')
    ensures CutComment(s + comment) == s
  {
    CutConcat(s, comment);
    assert CutComment(comment) == [];
    assert s + [] == s;
  }

  lemma StartsBlank(blanks: string, rest: string)
    requires AllSpaces(blanks)
    ensures blanks != [] ==> blanks + rest != [] && IsSpace((blanks + rest)[0])
  {
    hide IsSpace;
    if blanks != [] {
      OneOfSpaces(blanks, 0);
    }
  }

  lemma NumberIsWord(num: string)
    requires ParseI32(num).Some?
    ensures num != [] && forall c | c in num :: IsDigit(c) || c == '+' || c == '-'
  {
    assert num == [num[0]] + num[1..];
  }

  lemma WordsHaveNoSpace(ip: string, num: string, tag: string)
    requires forall c | c in ip :: IsDigit(c) || c == '.'
    requires forall c | c in num :: IsDigit(c) || c == '+' || c == '-'
    requires tag == [] || Word(tag)
    ensures forall c | c in ip || c in num || c in tag :: !IsSpace(c) && c != '#'
  {
  }

  lemma NoHash(a: string, b: string, c: string)
    requires AllSpaces(a) && AllSpaces(b) && AllSpaces(c)
    ensures '#' !in a && '#' !in b && '#' !in c
  {
  }
}
