/** Sequence facts the solver is better told than left to find. */
module Seqs {
  lemma ConcatAssociates<T>(a: seq<T>, b: seq<T>, c: seq<T>)
    ensures (a + b) + c == a + (b + c)
  {
  }

  lemma DropConcat<T>(a: seq<T>, b: seq<T>, i: nat, j: nat)
    requires i <= |a| && i + j <= |a| + |b|
    ensures (a + b)[i + j..] == (a[i..] + b)[j..]
  {
  }

  lemma DropDrop<T>(s: seq<T>, i: nat, j: nat)
    requires i <= j <= |s|
    ensures s[i..][j - i..] == s[j..]
  {
  }

  lemma TakeDrop<T>(s: seq<T>, i: nat, j: nat)
    requires i <= j <= |s|
    ensures s[..j][i..] == s[i..][..j - i]
  {
  }

  lemma PrefixOfConcat<T>(a: seq<T>, b: seq<T>, c: seq<T>)
    requires |b| <= |c| && c[..|b|] == b
    ensures (a + c)[..|a| + |b|] == a + b && a[..|a|] == a
  {
  }

  // The first `room` elements, or all there are.
  function Front<T>(s: seq<T>, room: nat): (r: seq<T>)
    ensures |r| <= room
  {
    if room < |s| then s[..room] else s
  }

  lemma FrontOfPrefix<T>(s: seq<T>, t: seq<T>, room: nat)
    requires s <= t && room <= |s|
    ensures Front(t, room) == Front(s, room)
  {
  }

  lemma FrontOfAll<T>(s: seq<T>, room: nat)
    requires |s| <= room
    ensures Front(s, room) == s
  {
  }

  // One element and four parts, taken apart.
  lemma FourParts<T>(first: T, a: seq<T>, b: seq<T>, c: seq<T>, d: seq<T>)
    ensures var s := [first] + a + b + c + d;
            && s[0] == first && s[1..] == a + (b + c + d)
            && s[1 + |a|..1 + |a| + |b|] == b && s[1 + |a| + |b|..1 + |a| + |b| + |c|] == c
  {
  }
}
