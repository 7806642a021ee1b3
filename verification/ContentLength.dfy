/** The length an HTTP request states for its body. */
module ContentLength {
  import opened Bytes
  import opened HttpHost
  import opened Wrappers

  // "\ncontent-length:", and the same after a carriage return.
  const LF_LENGTH: seq<byte> :=
    [0x0A, 0x63, 0x6F, 0x6E, 0x74, 0x65, 0x6E, 0x74, 0x2D, 0x6C, 0x65, 0x6E, 0x67, 0x74, 0x68, 0x3A]
  const CRLF_LENGTH: seq<byte> :=
    [0x0D, 0x0A, 0x63, 0x6F, 0x6E, 0x74, 0x65, 0x6E, 0x74, 0x2D, 0x6C, 0x65, 0x6E, 0x67, 0x74, 0x68, 0x3A]

  predicate LengthName(name: seq<byte>)
    ensures LengthName(name) ==> name != []
  {
    name == CRLF_LENGTH || name == LF_LENGTH
  }

  predicate Digit(b: byte)
  {
    0x30 <= b <= 0x39
  }

  function DigitsEnd(s: seq<byte>, from: nat): (to: nat)
    requires from <= |s|
    ensures from <= to <= |s|
    ensures forall k | from <= k < to :: Digit(s[k])
    ensures to == |s| || !Digit(s[to])
    decreases |s| - from
  {
    if from < |s| && Digit(s[from]) then DigitsEnd(s, from + 1) else from
  }

  function Number(digits: seq<byte>): nat
    requires forall b | b in digits :: Digit(b)
  {
    if digits == [] then 0
    else
      var last := digits[|digits| - 1];
      assert Digit(last);
      10 * Number(digits[..|digits| - 1]) + (last - 0x30)
  }

  // A digit behind the blanks.
  predicate Numbered(s: seq<byte>, start: nat)
  {
    start <= |s| && var v := SkipBlanks(s, start); v < |s| && Digit(s[v])
  }

  // A header line of this name at `k`, with a number behind its blanks.
  predicate NumberAt(s: seq<byte>, name: seq<byte>, k: nat)
  {
    MatchAt(s, name, k) && Numbered(s, k + |name|)
  }

  // The first such line at or after `from`.
  function NumberFrom(s: seq<byte>, name: seq<byte>, from: nat): (r: Option<nat>)
    ensures r.Some? ==> from <= r.value && NumberAt(s, name, r.value)
    ensures forall k | from <= k && NumberAt(s, name, k) :: r.Some? && r.value <= k
    decreases |s| - from
  {
    if from + |name| > |s| then None
    else if NumberAt(s, name, from) then Some(from)
    else NumberFrom(s, name, from + 1)
  }

  // The number of that line, unless it does not fit the machine's word.
  function ValueOf(s: seq<byte>, name: seq<byte>, k: nat, limit: nat): Option<nat>
    requires MatchAt(s, name, k)
  {
    var v := SkipBlanks(s, k + |name|);
    var n := Number(s[v..DigitsEnd(s, v)]);
    if n < limit then Some(n) else None
  }

  // A line after CRLF is preferred to any after a bare line feed.
  function Stated(headers: seq<byte>, limit: nat): Option<nat>
  {
    match NumberFrom(headers, CRLF_LENGTH, 0)
    case Some(k) => ValueOf(headers, CRLF_LENGTH, k, limit)
    case None =>
      match NumberFrom(headers, LF_LENGTH, 0)
      case Some(k) => ValueOf(headers, LF_LENGTH, k, limit)
      case None => None
  }

  // ---- The scan ---------------------------------------------------------------------------

  lemma NoOverlap(s: seq<byte>, name: seq<byte>, k: nat, j: nat)
    requires LengthName(name) && MatchAt(s, name, k) && k < j < k + |name|
    ensures !MatchAt(s, name, j)
  {
    assert LowerByte(s[k + (j - k)]) == name[j - k] != name[0];
    assert j + 0 == j;
  }

  lemma NumberFromLater(s: seq<byte>, name: seq<byte>, from: nat, to: nat)
    requires from <= to && forall k | from <= k < to :: !NumberAt(s, name, k)
    ensures NumberFrom(s, name, from) == NumberFrom(s, name, to)
  {
    hide NumberFrom, NumberAt;
  }

  method ScanNumber(s: seq<byte>, start: nat) returns (from: nat, to: nat)
    requires start <= |s|
    ensures from == SkipBlanks(s, start) && to == DigitsEnd(s, from)
    ensures to > from <==> Numbered(s, start)
  {
    from := start;
    while from < |s| && (s[from] == SPACE || s[from] == TAB)
      invariant from <= |s| && SkipBlanks(s, from) == SkipBlanks(s, start)
    {
      from := from + 1;
    }
    to := from;
    while to < |s| && Digit(s[to])
      invariant to <= |s| && DigitsEnd(s, to) == DigitsEnd(s, from)
    {
      to := to + 1;
    }
  }

  // The search goes on behind a match without a number.
  method FindNumber(s: seq<byte>, name: seq<byte>) returns (found: bool, from: nat, to: nat)
    requires LengthName(name)
    ensures found <==> NumberFrom(s, name, 0).Some?
    ensures found ==> from == SkipBlanks(s, NumberFrom(s, name, 0).value + |name|) && to == DigitsEnd(s, from)
  {
    hide *;
    var search := 0;
    while search + |name| <= |s|
      invariant NumberFrom(s, name, search) == NumberFrom(s, name, 0)
    {
      var at := FindFrom(s, name, search);
      NextMatch(s, name, search);
      if at.None? {
        return false, 0, 0;
      }
      from, to := ScanNumber(s, at.value + |name|);
      if to > from {
        return true, from, to;
      }
      search := at.value + |name|;
    }
    TooLate(s, name, search);
    return false, 0, 0;
  }

  lemma TooLate(s: seq<byte>, name: seq<byte>, search: nat)
    requires search + |name| > |s|
    ensures NumberFrom(s, name, search).None?
  {
  }

  // The next match gives its number, or the search goes on behind it.
  lemma NextMatch(s: seq<byte>, name: seq<byte>, search: nat)
    requires LengthName(name)
    ensures match FindFrom(s, name, search)
            case None => NumberFrom(s, name, search).None?
            case Some(k) =>
              && k + |name| <= |s|
              && if Numbered(s, k + |name|) then NumberFrom(s, name, search) == Some(k)
                 else NumberFrom(s, name, search) == NumberFrom(s, name, k + |name|)
  {
    hide NumberFrom, FindFrom, MatchAt, Numbered, LengthName;
    var at := FindFrom(s, name, search);
    if at.Some? {
      var k := at.value;
      Fits(s, name, k);
      if Numbered(s, k + |name|) {
        assert NumberAt(s, name, k);
      } else {
        forall j | search <= j < k + |name| ensures !NumberAt(s, name, j) {
          if k < j {
            NoOverlap(s, name, k, j);
          }
        }
        NumberFromLater(s, name, search, k + |name|);
      }
    }
  }

  lemma Fits(s: seq<byte>, name: seq<byte>, k: nat)
    requires MatchAt(s, name, k)
    ensures k + |name| <= |s|
  {
  }

  method ParseContentLength(headers: seq<byte>, limit: nat) returns (length: Option<nat>)
    ensures length == Stated(headers, limit)
  {
    hide NumberFrom, MatchAt, Number;
    var found, from, to := FindNumber(headers, CRLF_LENGTH);
    if !found {
      found, from, to := FindNumber(headers, LF_LENGTH);
    }
    if !found {
      return None;
    }
    var n := Number(headers[from..to]);
    return if n < limit then Some(n) else None;
  }

  // ---- A written length is read back ------------------------------------------------------

  function Decimal(n: nat): (digits: seq<byte>)
    ensures digits != [] && forall b | b in digits :: Digit(b)
  {
    if n < 10 then [(0x30 + n) as byte] else Decimal(n / 10) + [(0x30 + n % 10) as byte]
  }

  lemma {:induction false} NumberOfDecimal(n: nat)
    ensures Number(Decimal(n)) == n
  {
    if n >= 10 {
      var d := Decimal(n);
      NumberOfDecimal(n / 10);
      assert d[..|d| - 1] == Decimal(n / 10);
    } else {
      assert Decimal(n)[..0] == [];
    }
  }

  lemma {:induction false} SkipBlanksTo(s: seq<byte>, from: nat, to: nat)
    requires from <= to <= |s| && forall k | from <= k < to :: Blank(s[k])
    requires to == |s| || !Blank(s[to])
    ensures SkipBlanks(s, from) == to
  {
    hide SkipBlanks;
  }

  lemma {:induction false} DigitsEndAt(s: seq<byte>, from: nat, to: nat)
    requires from <= to <= |s| && forall k | from <= k < to :: Digit(s[k])
    requires to == |s| || !Digit(s[to])
    ensures DigitsEnd(s, from) == to
  {
    hide DigitsEnd;
  }

  // A line of this name, in any letter case, with spaces and tabs behind the colon and then
  // the digits of `n`, and nothing numbered under the name before it.
  predicate WrittenAt(head: seq<byte>, name: seq<byte>, k: nat, v: nat, n: nat)
  {
    && MatchAt(head, name, k) && k + |name| <= v && v + |Decimal(n)| <= |head|
    && (forall i | k + |name| <= i < v :: head[i] == 0x20 || head[i] == 0x09)
    && head[v..v + |Decimal(n)|] == Decimal(n)
    && (v + |Decimal(n)| < |head| ==> !(0x30 <= head[v + |Decimal(n)|] <= 0x39))
    && forall i: nat | i < k :: !NumberAt(head, name, i)
  }

  lemma WrittenIsFound(head: seq<byte>, name: seq<byte>, k: nat, v: nat, n: nat, limit: nat)
    requires LengthName(name) && WrittenAt(head, name, k, v, n)
    ensures NumberFrom(head, name, 0) == Some(k)
    ensures ValueOf(head, name, k, limit) == if n < limit then Some(n) else None
  {
    var e := v + |Decimal(n)|;
    hide Decimal, Number, MatchAt, NumberFrom, LengthName;
    forall i | v <= i < e ensures Digit(head[i]) {
      assert head[i] == Decimal(n)[i - v] && Decimal(n)[i - v] in Decimal(n);
    }
    SkipBlanksTo(head, k + |name|, v);
    DigitsEndAt(head, v, e);
    NumberOfDecimal(n);
    assert NumberAt(head, name, k);
  }

  // A Content-Length line gives its number, unless a line before it does, or it stands
  // behind a bare line feed and some line after a CRLF gives one.
  lemma WrittenLengthReads(head: seq<byte>, crlf: bool, k: nat, v: nat, n: nat, limit: nat)
    requires WrittenAt(head, if crlf then CRLF_LENGTH else LF_LENGTH, k, v, n)
    requires !crlf ==> forall i: nat :: !NumberAt(head, CRLF_LENGTH, i)
    ensures Stated(head, limit) == if n < limit then Some(n) else None
  {
    hide WrittenAt, ValueOf, NumberFrom, NumberAt;
    WrittenIsFound(head, if crlf then CRLF_LENGTH else LF_LENGTH, k, v, n, limit);
  }

  // With no numbered line at all there is no length.
  lemma NothingStated(head: seq<byte>, limit: nat)
    requires forall i: nat :: !NumberAt(head, CRLF_LENGTH, i) && !NumberAt(head, LF_LENGTH, i)
    ensures Stated(head, limit) == None
  {
    hide NumberFrom, NumberAt, ValueOf;
  }

  // What the searches look for.
  lemma NamesSpell(s: seq<byte>, k: nat)
    ensures MatchAt(s, CRLF_LENGTH, k) <==> SpelledAt(s, "\r\ncontent-length:", k)
    ensures MatchAt(s, LF_LENGTH, k) <==> SpelledAt(s, "\ncontent-length:", k)
  {
    hide MatchAt, SpelledAt;
    CrlfSpells();
    LfSpells();
    MatchSpells(s, CRLF_LENGTH, "\r\ncontent-length:", k);
    MatchSpells(s, LF_LENGTH, "\ncontent-length:", k);
  }

  lemma CrlfSpells()
    ensures IsText(CRLF_LENGTH, "\r\ncontent-length:")
  {
  }

  lemma LfSpells()
    ensures IsText(LF_LENGTH, "\ncontent-length:")
  {
  }
}
