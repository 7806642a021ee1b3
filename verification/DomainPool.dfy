/** Lists of fallback domains: what is a domain, a list made normal, the built-in list. */
module DomainPool {
  import opened CfBalancer
  import opened Text

  // ---- Normal lists -----------------------------------------------------------------------

  predicate Alphabetic(c: char)
  {
    'a' <= c <= 'z' || 'A' <= c <= 'Z'
  }

  predicate ValidLabel(part: string)
  {
    && 0 < |part| <= 63 && part[0] != '-' && part[|part| - 1] != '-'
    && forall c | c in part :: Alphabetic(c) || '0' <= c <= '9' || c == '-'
  }

  // Lengths are of ASCII text; any other has an invalid label.
  predicate IsValidDomain(domain: string)
  {
    && 0 < |domain| <= 253 && domain[0] != '.' && domain[|domain| - 1] != '.'
    && var labels := Split(domain, '.');
       var tld := labels[|labels| - 1];
       && |labels| >= 2 && (forall l | l in labels :: ValidLabel(l))
       && |tld| >= 2 && exists c :: c in tld && Alphabetic(c)
  }

  function Item(raw: string): string
  {
    Lower(Trim(raw))
  }

  function Normalized(raws: seq<string>): seq<string>
  {
    if raws == [] then []
    else
      var done, item := Normalized(raws[..|raws| - 1]), Item(raws[|raws| - 1]);
      if IsValidDomain(item) && item !in done then done + [item] else done
  }

  method NormalizeDomainPool(domains: seq<string>) returns (out: seq<string>)
    ensures out == Normalized(domains)
  {
    hide IsValidDomain, Item;
    var seen: set<string> := {};
    out := [];
    assert domains[..0] == [];
    for i := 0 to |domains|
      invariant out == Normalized(domains[..i]) && forall d :: d in seen <==> d in out
    {
      assert domains[..i + 1][..i] == domains[..i];
      var item := Item(domains[i]);
      if !IsValidDomain(item) || item in seen {
        continue;
      }
      seen := seen + {item};
      out := out + [item];
    }
    assert domains[..|domains|] == domains;
  }

  // A name as it is remembered after it connected.
  predicate Canonical(name: string)
  {
    name != "" && Item(name) == name
  }

  ghost predicate Proper(domains: seq<string>)
  {
    Distinct(domains) && forall d | d in domains :: Canonical(d)
  }

  lemma LowerTwice(s: string)
    ensures Lower(Lower(s)) == Lower(s)
    ensures forall i | 0 <= i < |s| :: IsSpace(Lower(s)[i]) <==> IsSpace(s[i])
  {
  }

  lemma NothingToTrim(s: string)
    requires s == [] || (!IsSpace(s[0]) && !IsSpace(s[|s| - 1]))
    ensures Trim(s) == s
  {
  }

  lemma ItemTwice(raw: string)
    ensures Item(Item(raw)) == Item(raw)
  {
    var t := Trim(raw);
    LowerTwice(t);
    hide Trim, IsSpace;
    NothingToTrim(Lower(t));
  }

  // Exactly the valid names of the raw list, each once, trimmed and in lower case.
  lemma {:induction false} NormalizedHolds(raws: seq<string>)
    ensures Proper(Normalized(raws))
    ensures forall d :: d in Normalized(raws) <==> IsValidDomain(d) && exists raw :: raw in raws && Item(raw) == d
  {
    hide IsValidDomain, Item;
    if raws != [] {
      var before, last := raws[..|raws| - 1], raws[|raws| - 1];
      NormalizedHolds(before);
      assert raws == before + [last];
      if IsValidDomain(Item(last)) {
        ItemTwice(last);
        ValidIsText(Item(last));
      }
    }
  }

  lemma ValidIsText(domain: string)
    requires IsValidDomain(domain)
    ensures domain != ""
  {
  }

  // A list is left as it is if and only if it is normal already; so no list that repeats a
  // name, or holds one in capitals, ever becomes a pool.
  lemma {:induction false} NormalizedIsSame(raws: seq<string>)
    ensures Normalized(raws) == raws <==> Proper(raws) && forall d | d in raws :: IsValidDomain(d)
  {
    NormalizedHolds(raws);
    if Proper(raws) && forall d | d in raws :: IsValidDomain(d) {
      NormalStays(raws);
    }
  }

  lemma {:induction false} NormalStays(raws: seq<string>)
    requires Proper(raws) && forall d | d in raws :: IsValidDomain(d)
    ensures Normalized(raws) == raws
  {
    hide IsValidDomain, Item;
    if raws != [] {
      var before, last := raws[..|raws| - 1], raws[|raws| - 1];
      assert raws == before + [last] && last in raws;
      assert forall d | d in before :: d in raws;
      assert last !in before;
      NormalStays(before);
    }
  }

  // ---- The built-in list --------------------------------------------------------------------

  const DEFAULT_ENCODED: seq<string> := [
    "virkgj.com", "vmmzovy.com", "mkuosckvso.com", "zaewayzmplad.com", "twdmbzcm.com",
    "awzwsldi.com", "clngqrflngqin.com", "tjacxbqtj.com", "bxaxtxmrw.com", "dmohrsgmohcrwb.com",
    "vwbmtmoi.com", "khgrre.com", "ulihssf.com", "tmhqsdqmfpmk.com", "xwuwoqbm.com",
    "orgcnunpj.com", "zhkuldz.com", "zypoljnslxa.com", "efabnxaowuzs.com", "zaftuzsftqdq.com"
  ]

  function Letters(s: string): nat
  {
    if s == [] then 0 else (if Alphabetic(s[0]) then 1 else 0) + Letters(s[1..])
  }

  function Turned(c: char, base: char, shift: nat): char
    requires base == 'a' || base == 'A'
  {
    (base as int + (c as int - base as int - shift) % 26) as char
  }

  function DecodeChar(c: char, shift: nat): char
  {
    if 'a' <= c <= 'z' then Turned(c, 'a', shift) else if 'A' <= c <= 'Z' then Turned(c, 'A', shift) else c
  }

  function DecodeAll(s: string, shift: nat): (t: string)
    ensures |t| == |s| && forall i | 0 <= i < |s| :: t[i] == DecodeChar(s[i], shift)
  {
    if s == [] then [] else [DecodeChar(s[0], shift)] + DecodeAll(s[1..], shift)
  }

  function Decode(s: string): string
  {
    if |s| < 4 || s[|s| - 4..] != ".com" then s
    else
      var prefix := s[..|s| - 4];
      DecodeAll(prefix, Letters(prefix)) + ".co.uk"
  }

  function DecodeEach(names: seq<string>): (out: seq<string>)
    ensures |out| == |names| && forall i | 0 <= i < |names| :: out[i] == Decode(names[i])
  {
    if names == [] then [] else [Decode(names[0])] + DecodeEach(names[1..])
  }

  function DefaultDomains(): seq<string>
  {
    DecodeEach(DEFAULT_ENCODED)
  }

  // Small letters and ".com".
  predicate Encoded(s: string)
  {
    var n := |s| - 4;
    && n > 0 && s[n] == '.' && s[n + 1] == 'c' && s[n + 2] == 'o' && s[n + 3] == 'm'
    && forall i | 0 <= i < n :: 'a' <= s[i] <= 'z'
  }

  lemma {:induction false} AllLetters(s: string)
    requires forall i | 0 <= i < |s| :: 'a' <= s[i] <= 'z'
    ensures Letters(s) == |s|
  {
    if s != [] {
      AllLetters(s[1..]);
    }
  }

  lemma Decoded(s: string)
    requires Encoded(s)
    ensures var n := |s| - 4;
            && |Decode(s)| == n + 6 && Decode(s)[n..] == ".co.uk"
            && forall i | 0 <= i < n :: Decode(s)[i] == Turned(s[i], 'a', n)
  {
    AllLetters(s[..|s| - 4]);
    assert s[|s| - 4..] == ".com";
  }

  lemma TurnedApart(c: char, d: char, shift: nat)
    requires 'a' <= c <= 'z' && 'a' <= d <= 'z' && Turned(c, 'a', shift) == Turned(d, 'a', shift)
    ensures c == d
  {
  }

  // Different names decode to different names: the length gives the shift away.
  lemma DecodeApart(a: string, b: string)
    requires Encoded(a) && Encoded(b) && Decode(a) == Decode(b)
    ensures a == b
  {
    Decoded(a);
    Decoded(b);
    hide Decode;
    var n := |a| - 4;
    forall i | 0 <= i < n ensures a[i] == b[i] {
      assert Decode(a)[i] == Decode(b)[i];
      TurnedApart(a[i], b[i], n);
    }
    assert a == a[..n] + a[n..] && b == b[..n] + b[n..];
  }

  lemma DecodeIsCanonical(s: string)
    requires Encoded(s)
    ensures Canonical(Decode(s))
  {
    Decoded(s);
    var d, n := Decode(s), |s| - 4;
    forall i | 0 <= i < |d| ensures !IsSpace(d[i]) && LowerChar(d[i]) == d[i] {
      if i >= n {
        assert d[i] == d[n..][i - n] == ".co.uk"[i - n];
      }
    }
    hide Decode, Trim, IsSpace;
    NothingToTrim(d);
  }

  // The first three letters as a number.
  function Code(s: string): nat
    requires |s| >= 3
  {
    (s[0] as int * 0x100 + s[1] as int) * 0x100 + s[2] as int
  }

  // Which of the built-in names has these three letters: no two do.
  function PlaceOf(code: nat): nat
  {
    if code == 0x766972 then 0 else if code == 0x766D6D then 1 else if code == 0x6D6B75 then 2
    else if code == 0x7A6165 then 3 else if code == 0x747764 then 4 else if code == 0x61777A then 5
    else if code == 0x636C6E then 6 else if code == 0x746A61 then 7 else if code == 0x627861 then 8
    else if code == 0x646D6F then 9 else if code == 0x767762 then 10 else if code == 0x6B6867 then 11
    else if code == 0x756C69 then 12 else if code == 0x746D68 then 13 else if code == 0x787775 then 14
    else if code == 0x6F7267 then 15 else if code == 0x7A686B then 16 else if code == 0x7A7970 then 17
    else if code == 0x656661 then 18 else 19
  }

  predicate EncodedAs(s: string, code: nat)
  {
    Encoded(s) && Code(s) == code && |s| <= 67
  }

  lemma Names0()
    ensures EncodedAs("virkgj.com", 0x766972) && EncodedAs("vmmzovy.com", 0x766D6D)
    ensures EncodedAs("mkuosckvso.com", 0x6D6B75) && EncodedAs("zaewayzmplad.com", 0x7A6165)
  {
  }

  lemma Names4()
    ensures EncodedAs("twdmbzcm.com", 0x747764) && EncodedAs("awzwsldi.com", 0x61777A)
    ensures EncodedAs("clngqrflngqin.com", 0x636C6E) && EncodedAs("tjacxbqtj.com", 0x746A61)
  {
  }

  lemma Names8()
    ensures EncodedAs("bxaxtxmrw.com", 0x627861) && EncodedAs("dmohrsgmohcrwb.com", 0x646D6F)
    ensures EncodedAs("vwbmtmoi.com", 0x767762) && EncodedAs("khgrre.com", 0x6B6867)
  {
  }

  lemma Names12()
    ensures EncodedAs("ulihssf.com", 0x756C69) && EncodedAs("tmhqsdqmfpmk.com", 0x746D68)
    ensures EncodedAs("xwuwoqbm.com", 0x787775) && EncodedAs("orgcnunpj.com", 0x6F7267)
  {
  }

  lemma Names16()
    ensures EncodedAs("zhkuldz.com", 0x7A686B) && EncodedAs("zypoljnslxa.com", 0x7A7970)
    ensures EncodedAs("efabnxaowuzs.com", 0x656661) && EncodedAs("zaftuzsftqdq.com", 0x7A6166)
  {
  }

  lemma DefaultsEncoded(i: nat)
    requires i < 20
    ensures |DEFAULT_ENCODED| == 20
    ensures Encoded(DEFAULT_ENCODED[i]) && PlaceOf(Code(DEFAULT_ENCODED[i])) == i && |DEFAULT_ENCODED[i]| <= 67
  {
    Names0();
    Names4();
    Names8();
    Names12();
    Names16();
    hide Encoded, Code;
  }

  lemma DefaultsAreProper()
    ensures |DefaultDomains()| == 20 && Proper(DefaultDomains())
  {
    DefaultsEncoded(0);
    hide *;
    DecodedEach(DEFAULT_ENCODED);
    forall i | 0 <= i < 20 ensures Encoded(DEFAULT_ENCODED[i]) && PlaceOf(Code(DEFAULT_ENCODED[i])) == i {
      DefaultsEncoded(i);
    }
    DecodedAreProper(DEFAULT_ENCODED);
  }

  lemma DecodedEach(names: seq<string>)
    ensures names == DEFAULT_ENCODED ==> DefaultDomains() == DecodeEach(names)
  {
  }

  lemma DecodedAreProper(names: seq<string>)
    requires forall i | 0 <= i < |names| :: Encoded(names[i]) && PlaceOf(Code(names[i])) == i
    ensures Proper(DecodeEach(names))
  {
    var out := DecodeEach(names);
    hide Encoded, PlaceOf, Code, Decode, Canonical, DecodeEach;
    forall i, j | 0 <= i < j < |out| ensures out[i] != out[j] {
      if out[i] == out[j] {
        DecodeApart(names[i], names[j]);
      }
    }
    forall d | d in out ensures Canonical(d) {
      var i :| 0 <= i < |out| && out[i] == d;
      DecodeIsCanonical(names[i]);
    }
  }

  // ---- What is a domain -------------------------------------------------------------------

  ghost predicate GoodLabels(labels: seq<string>)
  {
    && |labels| >= 2 && (forall l | l in labels :: ValidLabel(l))
    && var tld := labels[|labels| - 1];
       |tld| >= 2 && exists c :: c in tld && Alphabetic(c)
  }

  // A domain is two or more good labels with dots between them, of at most 253 characters.
  lemma ValidExactly(domain: string)
    ensures IsValidDomain(domain) <==>
            |domain| <= 253 && exists labels: seq<string> :: GoodLabels(labels) && domain == Join(labels, '.')
  {
    hide Join, Split;
    if IsValidDomain(domain) {
      SplitJoins(domain, '.');
      assert GoodLabels(Split(domain, '.'));
    }
    if |domain| <= 253 {
      if labels: seq<string> :| GoodLabels(labels) && domain == Join(labels, '.') {
        forall l | l in labels ensures '.' !in l {
          NoDotInLabel(l);
        }
        JoinSplits(labels, '.');
        JoinEnds(labels);
      }
    }
  }

  lemma NoDotInLabel(l: string)
    requires ValidLabel(l)
    ensures '.' !in l && l != ""
  {
  }

  lemma {:induction false} JoinEnds(labels: seq<string>)
    requires |labels| > 0 && forall l | l in labels :: '.' !in l && l != ""
    ensures var s := Join(labels, '.'); s != "" && s[0] != '.' && s[|s| - 1] != '.'
  {
    var last := |labels| - 1;
    assert labels[last] in labels;
    var l := labels[last];
    assert l[0] in l && l[|l| - 1] in l;
    if last > 0 {
      assert forall k | k in labels[..last] :: k in labels;
      JoinEnds(labels[..last]);
    }
  }

  // ---- Encoding -----------------------------------------------------------------------------

  // The next letter of the alphabet, in the same case, round from the last to the first.
  function NextLetter(c: char): char
  {
    if c == 'z' then 'a' else if c == 'Z' then 'A'
    else if Alphabetic(c) then (c as int + 1) as char else c
  }

  function TurnOn(c: char, k: nat): char
  {
    if k == 0 then c else NextLetter(TurnOn(c, k - 1))
  }

  // The x-th letter of an alphabet.
  function LetterAt(base: char, x: nat): char
    requires (base == 'a' || base == 'A') && x < 26
  {
    (base as int + x) as char
  }

  lemma NextAt(base: char, x: nat)
    requires (base == 'a' || base == 'A') && x < 26
    ensures NextLetter(LetterAt(base, x)) == LetterAt(base, if x == 25 then 0 else x + 1)
  {
  }

  lemma {:induction false} TurnOnAt(base: char, x: nat, k: nat)
    requires (base == 'a' || base == 'A') && x < 26
    ensures TurnOn(LetterAt(base, x), k) == LetterAt(base, (x + k) % 26)
  {
    hide LetterAt, NextLetter;
    if k == 0 {
      assert x % 26 == x;
    } else {
      TurnOnAt(base, x, k - 1);
      NextAt(base, (x + k - 1) % 26);
      RoundOnce(x + k - 1);
    }
  }

  lemma RoundOnce(y: nat)
    ensures (y + 1) % 26 == if y % 26 == 25 then 0 else y % 26 + 1
  {
  }

  lemma {:induction false} TurnOnOther(c: char, k: nat)
    requires !Alphabetic(c)
    ensures TurnOn(c, k) == c
  {
    if k > 0 {
      TurnOnOther(c, k - 1);
    }
  }

  lemma TurnedBack(x: nat, shift: nat)
    requires x < 26
    ensures ((x - shift) % 26 + shift) % 26 == x
  {
  }

  lemma TurnedAt(base: char, x: nat, shift: nat)
    requires (base == 'a' || base == 'A') && x < 26
    ensures Turned(LetterAt(base, x), base, shift) == LetterAt(base, (x - shift) % 26)
    ensures TurnOn(Turned(LetterAt(base, x), base, shift), shift) == LetterAt(base, x)
  {
    TurnOnAt(base, (x - shift) % 26, shift);
    TurnedBack(x, shift);
  }

  lemma DecodeCharExactly(c: char, shift: nat)
    ensures TurnOn(DecodeChar(c, shift), shift) == c && (Alphabetic(DecodeChar(c, shift)) <==> Alphabetic(c))
  {
    hide TurnOn, Turned;
    if 'a' <= c <= 'z' {
      TurnedAt('a', c as int - 'a' as int, shift);
    } else if 'A' <= c <= 'Z' {
      TurnedAt('A', c as int - 'A' as int, shift);
    } else {
      TurnOnOther(c, shift);
    }
  }

  function LetterPlaces(s: string): set<nat>
  {
    set i: nat | i < |s| && Alphabetic(s[i])
  }

  lemma {:induction false} LettersAre(a: string, b: string)
    ensures Letters(a + b) == Letters(a) + Letters(b)
  {
    if a == [] {
      assert a + b == b;
    } else {
      assert (a + b)[1..] == a[1..] + b;
      LettersAre(a[1..], b);
    }
  }

  lemma {:induction false} LettersCount(s: string)
    ensures Letters(s) == |LetterPlaces(s)|
  {
    if s != [] {
      var n := |s| - 1;
      var init, c := s[..n], s[n];
      LettersCount(init);
      assert s == init + [c];
      LettersAre(init, [c]);
      assert [c][1..] == [];
      assert LetterPlaces(s) == LetterPlaces(init) + if Alphabetic(c) then {n} else {};
    }
  }

  // For every name that ends in ".com": as many letters forward as there are letters in front
  // of the end, the decoded letters are the encoded ones.
  lemma DecodeExactly(s: string, prefix: string)
    requires s == prefix + ".com"
    ensures var n := |LetterPlaces(prefix)|;
            && |Decode(s)| == |prefix| + 6 && Decode(s)[|prefix|..] == ".co.uk"
            && (forall i | 0 <= i < |prefix| :: TurnOn(Decode(s)[i], n) == prefix[i])
            && LetterPlaces(Decode(s)[..|prefix|]) == LetterPlaces(prefix)
  {
    assert s[..|s| - 4] == prefix && s[|s| - 4..] == ".com";
    LettersCount(prefix);
    hide LetterPlaces, TurnOn, DecodeChar, Letters;
    var n := Letters(prefix);
    forall i | 0 <= i < |prefix|
      ensures TurnOn(Decode(s)[i], n) == prefix[i] && (Alphabetic(Decode(s)[i]) <==> Alphabetic(prefix[i]))
    {
      DecodeCharExactly(prefix[i], n);
    }
    SamePlaces(Decode(s)[..|prefix|], prefix);
  }

  lemma SamePlaces(s: string, t: string)
    requires |s| == |t| && forall i | 0 <= i < |s| :: Alphabetic(s[i]) <==> Alphabetic(t[i])
    ensures LetterPlaces(s) == LetterPlaces(t)
  {
  }

  lemma OtherNamesStay(s: string)
    requires !exists prefix: string :: s == prefix + ".com"
    ensures Decode(s) == s
  {
    if |s| >= 4 {
      assert s == s[..|s| - 4] + s[|s| - 4..];
    }
  }

  // The first of the built-in names.
  lemma DecodesFirst()
    ensures Decode("virkgj.com") == "pclead.co.uk"
  {
    Names0();
    hide *;
    FirstLetters();
    SixLetters("virkgj.com", "pclead");
    assert "pclead.co.uk" == "pclead" + ".co.uk";
  }

  lemma FirstLetters()
    ensures forall i | 0 <= i < 6 :: "pclead"[i] == Turned("virkgj.com"[i], 'a', 6)
    ensures EncodedAs("virkgj.com", 0x766972) ==> Encoded("virkgj.com")
  {
    hide Encoded;
  }

  lemma SixLetters(s: string, t: string)
    requires Encoded(s) && |s| == 10 && |t| == 6 && forall i | 0 <= i < 6 :: t[i] == Turned(s[i], 'a', 6)
    ensures Decode(s) == t + ".co.uk"
  {
    Decoded(s);
    hide *;
    var d := Decode(s);
    assert d[..6] == t;
    assert d == d[..6] + d[6..];
  }

  // A label of small letters, then "co.uk".
  lemma DecodeIsValid(s: string)
    requires Encoded(s) && |s| <= 67
    ensures IsValidDomain(Decode(s))
  {
    var n := |s| - 4;
    Decoded(s);
    ValidExactly(Decode(s));
    hide Decode, IsValidDomain;
    var d := Decode(s);
    var labels := [d[..n], "co", "uk"];
    assert d == d[..n] + ['.'] + "co" + ['.'] + "uk" by {
      assert d == d[..n] + d[n..];
      assert ".co.uk" == ['.'] + "co" + ['.'] + "uk";
    }
    JoinThree(d[..n], "co", "uk", '.');
    LabelsAreGood(d[..n]);
    assert GoodLabels(labels);
  }

  lemma LabelsAreGood(name: string)
    requires 0 < |name| <= 63 && forall i | 0 <= i < |name| :: 'a' <= name[i] <= 'z'
    ensures GoodLabels([name, "co", "uk"])
  {
    assert 'u' in "uk";
  }

  lemma JoinThree(a: string, b: string, c: string, sep: char)
    ensures Join([a, b, c], sep) == a + [sep] + b + [sep] + c
  {
    var two := [a, b];
    assert [a, b, c][..2] == two && two[..1] == [a];
    assert Join([a], sep) == a;
    assert Join(two, sep) == a + [sep] + b;
  }

  // The built-in list is in normal form: making it normal again drops none of its domains.
  lemma DefaultsAreNormal()
    ensures Normalized(DefaultDomains()) == DefaultDomains()
  {
    DefaultsAreProper();
    DefaultsEncoded(0);
    hide *;
    DecodedEach(DEFAULT_ENCODED);
    forall i | 0 <= i < 20 ensures Encoded(DEFAULT_ENCODED[i]) && |DEFAULT_ENCODED[i]| <= 67 {
      DefaultsEncoded(i);
    }
    DecodedAreValid(DEFAULT_ENCODED);
    NormalizedIsSame(DefaultDomains());
  }

  lemma DecodedAreValid(names: seq<string>)
    requires forall i | 0 <= i < |names| :: Encoded(names[i]) && |names[i]| <= 67
    ensures forall d | d in DecodeEach(names) :: IsValidDomain(d)
  {
    var out := DecodeEach(names);
    hide Encoded, Decode, IsValidDomain, DecodeEach;
    forall d | d in out ensures IsValidDomain(d) {
      var i :| 0 <= i < |out| && out[i] == d;
      DecodeIsValid(names[i]);
    }
  }
}
