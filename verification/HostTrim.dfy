/** What is left of a Host value when the reader has trimmed it. */
module HostTrim {
  import opened Bytes
  import opened HttpHost
  import opened Seqs
  import Text
  import opened Utf8

  predicate WhiteScalars(ns: seq<scalar>)
  {
    forall n | n in ns :: Text.IsSpace(n as char)
  }

  // The bytes that are trimmed are those of the white space of Unicode.
  lemma WhiteExactly(p: seq<byte>)
    ensures WhiteChar(p) <==> exists n: scalar :: Text.IsSpace(n as char) && Encoding(n) == p
  {
    hide WhiteChar, Encoding;
    if WhiteChar(p) {
      var n := WhiteScalar(p);
    }
    if n: scalar :| Text.IsSpace(n as char) && Encoding(n) == p {
      SpaceIsEncoded(n);
    }
  }

  lemma WhiteScalar(p: seq<byte>) returns (n: scalar)
    requires WhiteChar(p)
    ensures Text.IsSpace(n as char) && Encoding(n) == p
  {
    n := if |p| == 1 then p[0]
         else if |p| == 2 then p[1]
         else if p[0] == 0xE1 then 0x1680
         else if p[0] == 0xE3 then 0x3000
         else if p[1] == 0x81 then 0x205F
         else 0x2000 + (p[2] as int - 0x80);
  }

  lemma SpaceIsEncoded(n: scalar)
    requires Text.IsSpace(n as char)
    ensures WhiteChar(Encoding(n))
  {
  }

  lemma {:induction false} EncodedConcat(a: seq<scalar>, b: seq<scalar>)
    ensures Encoded(a + b) == Encoded(a) + Encoded(b)
  {
    if a == [] {
      assert a + b == b;
    } else {
      assert (a + b)[1..] == a[1..] + b;
      EncodedConcat(a[1..], b);
    }
  }

  lemma FrontStep(s: seq<byte>)
    ensures var k := WhiteStart(s);
            TrimFront(s) == (if k == 0 then s else TrimFront(s[k..])) && (k > 0 ==> WhiteChar(s[..k]))
  {
    hide WhiteChar;
  }

  lemma BackStep(s: seq<byte>)
    ensures var k := WhiteEnd(s);
            && TrimBack(s) == (if k == 0 then s else TrimBack(s[..|s| - k]))
            && (k > 0 ==> WhiteChar(s[|s| - k..]))
  {
    hide WhiteChar;
    WhiteAtEnd(s);
    hide WhiteEnd;
  }

  lemma WhiteAtEnd(s: seq<byte>)
    ensures var k := WhiteEnd(s); k > 0 ==> WhiteChar(s[|s| - k..])
  {
    hide WhiteChar;
  }

  lemma EncodedOne(n: scalar)
    ensures Encoded([n]) == Encoding(n) && Encoded([]) == []
  {
    hide Encoding;
    assert [n][1..] == [];
    assert Encoding(n) + [] == Encoding(n);
  }

  lemma {:induction false} FrontIsWhite(s: seq<byte>) returns (a: seq<scalar>)
    ensures WhiteScalars(a) && s == Encoded(a) + TrimFront(s) && WhiteStart(TrimFront(s)) == 0
    decreases |s|
  {
    FrontStep(s);
    hide WhiteStart, WhiteChar, TrimFront, Encoding, Encoded, Text.IsSpace;
    var k := WhiteStart(s);
    if k == 0 {
      a := [];
      EncodedOne(0);
    } else {
      var n := WhiteScalar(s[..k]);
      var rest := FrontIsWhite(s[k..]);
      a := [n] + rest;
      EncodedConcat([n], rest);
      EncodedOne(n);
      ConcatAssociates(Encoding(n), Encoded(rest), TrimFront(s[k..]));
      assert s == s[..k] + s[k..];
    }
  }

  lemma {:induction false} BackIsWhite(s: seq<byte>) returns (b: seq<scalar>)
    ensures WhiteScalars(b) && s == TrimBack(s) + Encoded(b) && WhiteEnd(TrimBack(s)) == 0 && TrimBack(s) <= s
    decreases |s|
  {
    BackStep(s);
    hide WhiteEnd, WhiteChar, TrimBack, Encoding, Encoded, Text.IsSpace;
    var k := WhiteEnd(s);
    if k == 0 {
      b := [];
      EncodedOne(0);
      assert s + [] == s;
    } else {
      var n := WhiteScalar(s[|s| - k..]);
      var rest := BackIsWhite(s[..|s| - k]);
      b := rest + [n];
      EncodedConcat(rest, [n]);
      EncodedOne(n);
      ConcatAssociates(TrimBack(s), Encoded(rest), Encoding(n));
      assert s == s[..|s| - k] + s[|s| - k..];
    }
  }

  // A start that is not white stays so in every prefix.
  lemma PrefixNotWhite(s: seq<byte>, t: seq<byte>)
    requires t <= s && WhiteStart(s) == 0
    ensures WhiteStart(t) == 0
  {
    hide WhiteChar;
    assert |t| >= 1 ==> t[..1] == s[..1];
    assert |t| >= 2 ==> t[..2] == s[..2];
    assert |t| >= 3 ==> t[..3] == s[..3];
  }

  lemma NoneAtEnds(t: seq<byte>)
    requires WhiteStart(t) == 0 && WhiteEnd(t) == 0
    ensures forall p | WhiteChar(p) && |p| <= |t| :: t[..|p|] != p && t[|t| - |p|..] != p
  {
    forall p | WhiteChar(p) && |p| <= |t| ensures t[..|p|] != p && t[|t| - |p|..] != p {
      OneToThree(p);
      hide WhiteChar;
    }
  }

  lemma OneToThree(p: seq<byte>)
    requires WhiteChar(p)
    ensures 1 <= |p| <= 3
  {
  }

  // Trimming takes the white space off both ends of the decoded text, and all of it.
  lemma TrimmedExactly(value: seq<byte>)
    ensures exists a: seq<scalar>, b: seq<scalar> ::
              && WhiteScalars(a) && WhiteScalars(b)
              && Decoded(value, Id, Same()) == Encoded(a) + Trimmed(value) + Encoded(b)
    ensures forall p | WhiteChar(p) && |p| <= |Trimmed(value)| ::
              Trimmed(value)[..|p|] != p && Trimmed(value)[|Trimmed(value)| - |p|..] != p
  {
    TrimmedOf(value);
    hide *;
    var text := Decoded(value, Id, Same());
    var a := FrontIsWhite(text);
    var b := BackIsWhite(TrimFront(text));
    ConcatAssociates(Encoded(a), Trimmed(value), Encoded(b));
    PrefixNotWhite(TrimFront(text), Trimmed(value));
    NoneAtEnds(Trimmed(value));
  }
}
