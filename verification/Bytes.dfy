/** Bytes, exclusive-or, and fixed-width big- and little-endian numbers. */
module Bytes {
  type byte = b: int | 0 <= b < 256

  // ---- Exclusive or, bit by bit from the low end --------------------------------

  function XorNat(a: nat, b: nat): nat
    decreases a + b
  {
    if a == 0 then b
    else if b == 0 then a
    else 2 * XorNat(a / 2, b / 2) + (if a % 2 == b % 2 then 0 else 1)
  }

  function Pow2(k: nat): (p: nat)
    ensures p > 0
  {
    if k == 0 then 1 else 2 * Pow2(k - 1)
  }

  lemma {:induction false} XorBound(a: nat, b: nat, k: nat)
    requires a < Pow2(k) && b < Pow2(k)
    ensures XorNat(a, b) < Pow2(k)
  {
    if k > 0 && a > 0 && b > 0 {
      XorBound(a / 2, b / 2, k - 1);
    }
  }

  lemma {:induction false} XorStep(a: nat, b: nat)
    ensures XorNat(a, b) / 2 == XorNat(a / 2, b / 2)
    ensures XorNat(a, b) % 2 == if a % 2 == b % 2 then 0 else 1
  {
  }

  lemma {:induction false} XorNatAssociative(a: nat, b: nat, c: nat)
    ensures XorNat(XorNat(a, b), c) == XorNat(a, XorNat(b, c))
    decreases a + b + c
  {
    if a > 0 || b > 0 || c > 0 {
      XorStep(a, b);
      XorStep(b, c);
      var l, r := XorNat(XorNat(a, b), c), XorNat(a, XorNat(b, c));
      XorStep(XorNat(a, b), c);
      XorStep(a, XorNat(b, c));
      XorNatAssociative(a / 2, b / 2, c / 2);
      assert l / 2 == r / 2 && l % 2 == r % 2;
    }
  }

  lemma {:induction false} XorNatCommutes(a: nat, b: nat)
    ensures XorNat(a, b) == XorNat(b, a)
    decreases a + b
  {
    if a > 0 && b > 0 {
      XorNatCommutes(a / 2, b / 2);
    }
  }

  lemma {:induction false} XorNatSelf(a: nat)
    ensures XorNat(a, a) == 0
  {
    if a > 0 {
      XorNatSelf(a / 2);
    }
  }

  function Xor(a: byte, b: byte): byte
  {
    assert Pow2(8) == 256;
    XorBound(a, b, 8);
    XorNat(a, b)
  }

  // The law the stream ciphers and the frame mask rest on.
  lemma XorCancels(a: byte, k: byte)
    ensures Xor(Xor(a, k), k) == a
  {
    XorNatAssociative(a, k, k);
    XorNatSelf(k);
  }

  // ---- Big-endian and little-endian numbers ------------------------------------

  function Pow256(k: nat): (p: nat)
    ensures p > 0
  {
    if k == 0 then 1 else 256 * Pow256(k - 1)
  }

  function BeNat(s: seq<byte>): (n: nat)
    ensures n < Pow256(|s|)
  {
    if |s| == 0 then 0 else BeNat(s[..|s| - 1]) * 256 + s[|s| - 1]
  }

  function BePut(n: nat, k: nat): (s: seq<byte>)
    requires n < Pow256(k)
    ensures |s| == k
    ensures BeNat(s) == n
  {
    if k == 0 then [] else
      var s := BePut(n / 256, k - 1) + [n % 256];
      assert s[..|s| - 1] == BePut(n / 256, k - 1);
      s
  }

  function LeNat(s: seq<byte>): (n: nat)
    ensures n < Pow256(|s|)
  {
    if |s| == 0 then 0 else LeNat(s[1..]) * 256 + s[0]
  }

  function LePut(n: nat, k: nat): (s: seq<byte>)
    requires n < Pow256(k)
    ensures |s| == k
    ensures LeNat(s) == n
  {
    if k == 0 then [] else
      var s := [n % 256] + LePut(n / 256, k - 1);
      assert s[1..] == LePut(n / 256, k - 1);
      s
  }

  // ---- What the numbers are, told by their digits --------------------------------

  lemma Scale(a: nat, p: nat, x: nat, b: nat)
    ensures (a * p + x) * 256 + b == a * (256 * p) + (x * 256 + b)
  {
  }

  lemma NextPower(k: nat)
    requires k > 0
    ensures Pow256(k) == 256 * Pow256(k - 1)
  {
  }

  lemma BeUnfolds(s: seq<byte>)
    requires s != []
    ensures BeNat(s) == BeNat(s[..|s| - 1]) * 256 + s[|s| - 1]
    ensures |s| == 1 ==> BeNat(s) == s[0] && BeNat(s[1..]) == 0
  {
  }

  lemma LeUnfolds(s: seq<byte>)
    requires s != []
    ensures LeNat(s) == LeNat(s[1..]) * 256 + s[0]
    ensures |s| == 1 ==> LeNat(s) == s[0] && LeNat(s[..0]) == 0
  {
  }

  // The first byte counts most ...
  lemma {:induction false} BeNatLeads(s: seq<byte>)
    requires s != []
    ensures BeNat(s) == s[0] * Pow256(|s| - 1) + BeNat(s[1..])
  {
    BeUnfolds(s);
    if |s| > 1 {
      hide BeNat, Pow256;
      var init, rest := s[..|s| - 1], s[1..];
      BeNatLeads(init);
      BeUnfolds(rest);
      assert rest[..|rest| - 1] == init[1..];
      NextPower(|s| - 1);
      Scale(s[0], Pow256(|s| - 2), BeNat(init[1..]), s[|s| - 1]);
    } else {
      assert Pow256(0) == 1;
    }
  }

  // ... or the last one does.
  lemma {:induction false} LeNatLeads(s: seq<byte>)
    requires s != []
    ensures LeNat(s) == s[|s| - 1] * Pow256(|s| - 1) + LeNat(s[..|s| - 1])
  {
    LeUnfolds(s);
    if |s| > 1 {
      hide LeNat, Pow256;
      var init, rest := s[..|s| - 1], s[1..];
      LeNatLeads(rest);
      LeUnfolds(init);
      assert rest[..|rest| - 1] == init[1..];
      NextPower(|s| - 1);
      Scale(s[|s| - 1], Pow256(|s| - 2), LeNat(init[1..]), s[0]);
    } else {
      assert Pow256(0) == 1;
    }
  }
}
