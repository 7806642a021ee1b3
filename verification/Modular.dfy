/** Remainders over any modulus, for the rotating cursors. */
module Modular {
  lemma Distribute(a: int, b: int, n: int)
    ensures (a + b) * n == a * n + b * n
  {
  }

  lemma AtLeast(k: int, n: nat)
    requires k >= 1
    ensures k * n >= n
  {
  }

  lemma SmallMultiple(d: int, n: nat)
    requires -(n as int) < d * n < n
    ensures d == 0
  {
    Distribute(-d, d, n);
    if d >= 1 {
      AtLeast(d, n);
    } else if d <= -1 {
      AtLeast(-d, n);
    }
  }

  // Division with remainder is unique.
  lemma ModUnique(x: nat, n: nat, q: int, r: nat)
    requires r < n && x == q * n + r
    ensures x % n == r
  {
    assert x == (x / n) * n + x % n;
    Distribute(q - x / n, x / n, n);
    assert (q - x / n) * n == x % n - r;
    SmallMultiple(q - x / n, n);
  }

  lemma ModPlus(x: nat, n: nat, q: nat)
    requires n > 0
    ensures (q * n + x) % n == x % n
  {
    assert x == (x / n) * n + x % n;
    Distribute(q, x / n, n);
    ModUnique(q * n + x, n, q + x / n, x % n);
  }

  lemma SmallMod(x: nat, n: nat)
    requires x < n
    ensures x % n == x
  {
    ModUnique(x, n, 0, x);
  }

  // Going round in steps: what is `ahead` of the cursor stays where it is.
  lemma StepRound(cursor: nat, window: nat, ahead: nat, n: nat)
    requires n > 0 && window <= ahead
    ensures ((cursor + window) % n + (ahead - window)) % n == (cursor + ahead) % n
  {
    var q := (cursor + window) / n;
    assert cursor + window == q * n + (cursor + window) % n;
    ModPlus((cursor + window) % n + (ahead - window), n, q);
  }

  // Only the remainder of a cursor matters.
  lemma ReduceFirst(x: nat, y: nat, n: nat)
    requires n > 0
    ensures (x % n + y) % n == (x + y) % n
  {
    ModPlus(x % n + y, n, x / n);
    assert x == (x / n) * n + x % n;
  }

  // Every place on the circle is less than a whole round ahead of any cursor.
  function Ahead(cursor: nat, place: nat, n: nat): (d: nat)
    requires cursor < n && place < n
    ensures d < n && (cursor + d) % n == place
  {
    var d := if cursor <= place then place - cursor else place + n - cursor;
    ModUnique(cursor + d, n, if cursor <= place then 0 else 1, place);
    d
  }
}
