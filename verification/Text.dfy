/** The string operations the tables and lists of names share. */
module Text {
  import opened Seqs

  // Unicode White_Space, as Rust's `trim` and `split_whitespace` use it.
  predicate IsSpace(c: char)
  {
    var n := c as int;
    || 9 <= n <= 13 || n == 0x20 || n == 0x85 || n == 0xA0 || n == 0x1680 || 0x2000 <= n <= 0x200A
    || n == 0x2028 || n == 0x2029 || n == 0x202F || n == 0x205F || n == 0x3000
  }

  function TrimStart(s: string): (t: string)
    ensures t == [] || !IsSpace(t[0])
  {
    if s != [] && IsSpace(s[0]) then TrimStart(s[1..]) else s
  }

  function TrimEnd(s: string): (t: string)
    ensures t <= s
    ensures t == [] || !IsSpace(t[|t| - 1])
  {
    if s != [] && IsSpace(s[|s| - 1]) then TrimEnd(s[..|s| - 1]) else s
  }

  function Trim(s: string): (t: string)
    ensures t == [] || (!IsSpace(t[0]) && !IsSpace(t[|t| - 1]))
  {
    TrimEnd(TrimStart(s))
  }

  function LowerChar(c: char): char
  {
    if 'A' <= c <= 'Z' then (c as int + 32) as char else c
  }

  function Lower(s: string): (t: string)
    ensures |t| == |s|
  {
    seq(|s|, i requires 0 <= i < |s| => LowerChar(s[i]))
  }

  // The pieces between the separators: always one more than there are separators.
  function Split(s: string, sep: char): (parts: seq<string>)
    ensures |parts| > 0
  {
    if s == [] then [[]]
    else
      var parts := Split(s[..|s| - 1], sep);
      var last := |parts| - 1;
      if s[|s| - 1] == sep then parts + [[]] else parts[last := parts[last] + [s[|s| - 1]]]
  }

  // ---- What these operations come to ------------------------------------------------------

  // The k-th letter of the alphabet as a capital and as a small letter.
  predicate SameLetter(c: char, d: char)
  {
    'A' <= c <= 'Z' && 'a' <= d <= 'z' && c as int - 'A' as int == d as int - 'a' as int
  }

  predicate OnlyCaseDiffers(s: string, t: string)
  {
    |s| == |t| && forall i | 0 <= i < |s| :: s[i] == t[i] || SameLetter(s[i], t[i]) || SameLetter(t[i], s[i])
  }

  // Lower-casing leaves no capital, changes nothing but the case of letters, and makes two
  // texts equal exactly when they differ in nothing else.
  lemma LowerExactly(s: string, t: string)
    ensures forall c | c in Lower(s) :: !('A' <= c <= 'Z')
    ensures OnlyCaseDiffers(s, Lower(s))
    ensures Lower(s) == Lower(t) <==> OnlyCaseDiffers(s, t)
  {
    if Lower(s) == Lower(t) {
      forall i | 0 <= i < |s| ensures s[i] == t[i] || SameLetter(s[i], t[i]) || SameLetter(t[i], s[i]) {
        assert Lower(s)[i] == Lower(t)[i];
      }
    }
  }

  predicate AllSpaces(s: string)
  {
    forall c | c in s :: IsSpace(c)
  }

  predicate NoSpaceAtEnds(t: string)
  {
    t == [] || (!IsSpace(t[0]) && !IsSpace(t[|t| - 1]))
  }

  lemma {:induction false} TrimStartCuts(a: string, t: string)
    requires AllSpaces(a) && (t == [] || !IsSpace(t[0]))
    ensures TrimStart(a + t) == t
  {
    hide IsSpace;
    if a == [] {
      assert a + t == t;
    } else {
      assert (a + t)[1..] == a[1..] + t;
      TrimStartCuts(a[1..], t);
    }
  }

  lemma {:induction false} TrimEndCuts(t: string, b: string)
    requires AllSpaces(b) && (t == [] || !IsSpace(t[|t| - 1]))
    ensures TrimEnd(t + b) == t
    decreases |b|
  {
    hide IsSpace;
    if b == [] {
      assert t + b == t;
    } else {
      assert (t + b)[..|t + b| - 1] == t + b[..|b| - 1];
      TrimEndCuts(t, b[..|b| - 1]);
    }
  }

  lemma {:induction false} TrimStartSplits(s: string) returns (a: string)
    ensures AllSpaces(a) && s == a + TrimStart(s)
  {
    hide IsSpace;
    if s != [] && IsSpace(s[0]) {
      var rest := TrimStartSplits(s[1..]);
      assert TrimStart(s) == TrimStart(s[1..]);
      hide TrimStart;
      a := [s[0]] + rest;
      assert s == [s[0]] + s[1..];
    } else {
      a := [];
    }
  }

  lemma {:induction false} TrimEndSplits(s: string) returns (b: string)
    ensures AllSpaces(b) && s == TrimEnd(s) + b
  {
    hide IsSpace;
    if s != [] && IsSpace(s[|s| - 1]) {
      var rest := TrimEndSplits(s[..|s| - 1]);
      assert TrimEnd(s) == TrimEnd(s[..|s| - 1]);
      hide TrimEnd;
      b := rest + [s[|s| - 1]];
      assert s == s[..|s| - 1] + [s[|s| - 1]];
    } else {
      b := [];
    }
  }

  // `t` is `s` without the spaces at both ends.
  ghost predicate Trims(s: string, t: string)
  {
    NoSpaceAtEnds(t) && exists a, b :: AllSpaces(a) && AllSpaces(b) && s == a + t + b
  }

  lemma TrimExactly(s: string, t: string)
    ensures Trim(s) == t <==> Trims(s, t)
  {
    hide IsSpace, TrimStart, TrimEnd;
    if Trim(s) == t {
      var a := TrimStartSplits(s);
      var b := TrimEndSplits(TrimStart(s));
      assert s == a + t + b;
    }
    if Trims(s, t) {
      var a, b :| AllSpaces(a) && AllSpaces(b) && s == a + t + b;
      if t == [] {
        assert s == (a + b) + [] && AllSpaces(a + b);
        TrimStartCuts(a + b, []);
        TrimEndCuts([], []);
        assert [] + [] == "";
      } else {
        ConcatAssociates(a, t, b);
        TrimStartCuts(a, t + b);
        TrimEndCuts(t, b);
      }
    }
  }

  function Join(parts: seq<string>, sep: char): string
    requires |parts| > 0
  {
    var last := |parts| - 1;
    if last == 0 then parts[0] else Join(parts[..last], sep) + [sep] + parts[last]
  }

  lemma {:induction false} SplitSingle(s: string, sep: char)
    requires sep !in s
    ensures Split(s, sep) == [s]
  {
    if s != [] {
      SplitSingle(s[..|s| - 1], sep);
      assert s == s[..|s| - 1] + [s[|s| - 1]];
    }
  }

  lemma {:induction false} SplitText(s: string, x: string, sep: char)
    requires sep !in x
    ensures var parts := Split(s, sep); var last := |parts| - 1;
            Split(s + x, sep) == parts[last := parts[last] + x]
    decreases |x|
  {
    hide Split;
    var parts := Split(s, sep);
    var last := |parts| - 1;
    if x == [] {
      assert s + x == s && parts[last] + x == parts[last];
    } else {
      var init, c := x[..|x| - 1], x[|x| - 1];
      assert x == init + [c];
      SplitText(s, init, sep);
      ConcatAssociates(s, init, [c]);
      SplitChar(s + init, c, sep);
      ConcatAssociates(parts[last], init, [c]);
    }
  }

  lemma SplitChar(s: string, c: char, sep: char)
    requires c != sep
    ensures var parts := Split(s, sep); var last := |parts| - 1;
            Split(s + [c], sep) == parts[last := parts[last] + [c]]
  {
    assert (s + [c])[..|s|] == s;
  }

  lemma SplitBreak(s: string, sep: char)
    ensures Split(s + [sep], sep) == Split(s, sep) + [[]]
  {
    assert (s + [sep])[..|s|] == s;
  }


  lemma JoinGrows(parts: seq<string>, sep: char, c: char)
    requires |parts| > 0
    ensures var last := |parts| - 1;
            Join(parts[last := parts[last] + [c]], sep) == Join(parts, sep) + [c]
  {
    var last := |parts| - 1;
    assert parts[last := parts[last] + [c]][..last] == parts[..last];
  }

  // Splitting is the inverse of joining: the parts make up the text and hold no separator, and
  // no other parts do.
  lemma {:induction false} SplitJoins(s: string, sep: char)
    ensures Join(Split(s, sep), sep) == s && forall p | p in Split(s, sep) :: sep !in p
  {
    if s != [] {
      var init, c := s[..|s| - 1], s[|s| - 1];
      var parts := Split(init, sep);
      SplitJoins(init, sep);
      if c == sep {
        assert (parts + [[]])[..|parts|] == parts;
      } else {
        JoinGrows(parts, sep, c);
      }
      hide Join;
      assert s == init + [c];
    }
  }

  lemma {:induction false} JoinSplits(parts: seq<string>, sep: char)
    requires |parts| > 0 && forall p | p in parts :: sep !in p
    ensures Split(Join(parts, sep), sep) == parts
  {
    var last := |parts| - 1;
    if last == 0 {
      SplitSingle(parts[0], sep);
    } else {
      var head := Join(parts[..last], sep);
      JoinSplits(parts[..last], sep);
      assert Join(parts, sep) == head + [sep] + parts[last];
      hide Split, Join;
      SplitBreak(head, sep);
      SplitText(head + [sep], parts[last], sep);
      assert [] + parts[last] == parts[last];
      assert (parts[..last] + [[]])[last := parts[last]] == parts;
    }
  }
}
