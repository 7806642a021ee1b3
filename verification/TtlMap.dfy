/** A set whose members stay active for a time, pruned lazily on access. */
module TtlMap {
  type Time = nat

  // ---- Each call on the table, with one clock reading `now` --------------------------

  predicate Active<K>(m: map<K, Time>, key: K, now: Time)
  {
    key in m && now < m[key]
  }

  function MarkedIfAbsent<K>(m: map<K, Time>, key: K, ttl: nat, now: Time): map<K, Time>
  {
    if Active(m, key, now) then m else m[key := now + ttl]
  }

  function Probed<K>(m: map<K, Time>, key: K, now: Time): map<K, Time>
  {
    if Active(m, key, now) then m else m - {key}
  }

  class TtlMap<K(==)> {
    var inner: map<K, Time>

    constructor ()
      ensures inner == map[]
    {
      inner := map[];
    }

    method Mark(key: K, ttl: nat, now: Time)
      modifies this
      ensures inner == old(inner)[key := now + ttl]
    {
      inner := inner[key := now + ttl];
    }

    method MarkIfAbsent(key: K, ttl: nat, now: Time) returns (inserted: bool)
      modifies this
      ensures inserted == !Active(old(inner), key, now)
      ensures inner == MarkedIfAbsent(old(inner), key, ttl, now)
    {
      if key in inner {
        var expiry := inner[key];
        if now < expiry {
          return false;
        }
        inner := inner - {key};
      }
      inner := inner[key := now + ttl];
      return true;
    }

    method IsActive(key: K, now: Time) returns (active: bool)
      modifies this
      ensures active == Active(old(inner), key, now)
      ensures inner == Probed(old(inner), key, now)
    {
      if key in inner {
        if now < inner[key] {
          return true;
        }
        inner := inner - {key};
      }
      return false;
    }

    method Clear(key: K) returns (present: bool)
      modifies this
      ensures present == (key in old(inner))
      ensures inner == old(inner) - {key}
    {
      present := key in inner;
      inner := inner - {key};
    }

    method ClearAll()
      modifies this
      ensures inner == map[]
    {
      inner := map[];
    }
  }

  // ---- Runs -----------------------------------------------------------------------------

  datatype Op<K> = Mark(key: K, ttl: nat) | MarkIfAbsent(key: K, ttl: nat) | IsActive(key: K)
                 | Clear(key: K) | ClearAll

  datatype Call<K> = Call(op: Op<K>, at: Time)

  // One call: the table afterwards and the answer (`true` where the call answers nothing).
  function Do<K>(m: map<K, Time>, c: Call<K>): (map<K, Time>, bool)
  {
    match c.op
    case Mark(k, ttl) => (m[k := c.at + ttl], true)
    case MarkIfAbsent(k, ttl) => (MarkedIfAbsent(m, k, ttl, c.at), !Active(m, k, c.at))
    case IsActive(k) => (Probed(m, k, c.at), Active(m, k, c.at))
    case Clear(k) => (m - {k}, k in m)
    case ClearAll => (map[], true)
  }

  // What the calls seen so far say about one key, with no table at all: when it expires,
  // if a mark of it still counts. Only a mark, a clear, or an "if absent" mark of a key
  // whose time is over changes it.
  function Expiry<K(==)>(calls: seq<Call<K>>, key: K): (e: int)
    ensures e >= -1
  {
    if calls == [] then -1
    else
      var before := Expiry(calls[..|calls| - 1], key);
      var c := calls[|calls| - 1];
      match c.op
      case Mark(k, ttl) => if k == key then c.at + ttl else before
      case MarkIfAbsent(k, ttl) => if k == key && before <= c.at then c.at + ttl else before
      case IsActive(_) => before
      case Clear(k) => if k == key then -1 else before
      case ClearAll => -1
  }

  function After<K>(calls: seq<Call<K>>): map<K, Time>
  {
    if calls == [] then map[] else Do(After(calls[..|calls| - 1]), calls[|calls| - 1]).0
  }

  predicate Monotone<K>(calls: seq<Call<K>>)
  {
    forall i, j | 0 <= i < j < |calls| :: calls[i].at <= calls[j].at
  }

  // The table holds every key whose time is not over, with that time; an entry it holds is
  // never wrong, only possibly over, and one it lacks is one whose time is over.
  lemma {:induction false} TableFollowsHistory<K>(calls: seq<Call<K>>, key: K, now: Time)
    requires Monotone(calls) && forall i | 0 <= i < |calls| :: calls[i].at <= now
    ensures key in After(calls) ==> After(calls)[key] == Expiry(calls, key)
    ensures key !in After(calls) ==> Expiry(calls, key) <= now
  {
    if calls != [] {
      var last := |calls| - 1;
      TableFollowsHistory(calls[..last], key, calls[last].at);
    }
  }

  // Pruning is invisible: every activity answer and every "if absent" answer of a run is
  // the one the bare history gives.
  lemma PruningIsInvisible<K>(calls: seq<Call<K>>, key: K, ttl: nat, now: Time)
    requires Monotone(calls) && forall i | 0 <= i < |calls| :: calls[i].at <= now
    ensures Do(After(calls), Call(IsActive(key), now)).1 <==> now < Expiry(calls, key)
    ensures Do(After(calls), Call(MarkIfAbsent(key, ttl), now)).1 <==> Expiry(calls, key) <= now
  {
    TableFollowsHistory(calls, key, now);
  }

  // Calls that leave an active key alone: no plain mark of it and no clear.
  predicate LeavesAlone<K(==)>(c: Call<K>, key: K)
  {
    match c.op
    case Mark(k, _) => k != key
    case Clear(k) => k != key
    case ClearAll => false
    case MarkIfAbsent(_, _) => true
    case IsActive(_) => true
  }

  lemma {:induction false} ExpiryStands<K>(before: seq<Call<K>>, calls: seq<Call<K>>, key: K)
    requires forall c | c in calls :: c.at < Expiry(before, key) && LeavesAlone(c, key)
    ensures Expiry(before + calls, key) == Expiry(before, key)
    decreases |calls|
  {
    if calls == [] {
      assert before + calls == before;
    } else {
      var init := calls[..|calls| - 1];
      assert (before + calls)[..|before + calls| - 1] == before + init;
      ExpiryStands(before, init, key);
    }
  }

  // However many concurrent failures call `mark_if_absent`, an expiry that is still ahead
  // stays where it is, each of those calls answers that it inserted nothing, and every
  // probe finds the key active.
  lemma ActiveExpiryStands<K>(before: seq<Call<K>>, calls: seq<Call<K>>, key: K, i: nat)
    requires Monotone(before + calls) && i < |calls|
    requires forall c | c in calls :: c.at < Expiry(before, key) && LeavesAlone(c, key)
    ensures Expiry(before + calls[..i + 1], key) == Expiry(before, key)
    ensures var answer := Do(After(before + calls[..i]), calls[i]).1;
            && (calls[i].op.MarkIfAbsent? && calls[i].op.key == key ==> !answer)
            && (calls[i].op == IsActive(key) ==> answer)
  {
    ExpiryStands(before, calls[..i + 1], key);
    ExpiryStands(before, calls[..i], key);
    var now := calls[i].at;
    assert before + calls[..i] == (before + calls)[..|before| + i];
    assert now == (before + calls)[|before| + i].at;
    PrefixMonotone(before + calls, |before| + i);
    hide Expiry, After;
    TableFollowsHistory(before + calls[..i], key, now);
  }

  lemma PrefixMonotone<K>(calls: seq<Call<K>>, n: nat)
    requires Monotone(calls) && n < |calls|
    ensures Monotone(calls[..n]) && forall i | 0 <= i < n :: calls[..n][i].at <= calls[n].at
  {
  }

  // `clear` answers whether an entry was there, not whether the key was active: it never
  // misses an active key, and it differs from activity exactly on an entry that has run
  // out and was not probed since.
  lemma ClearTellsPresence<K>(calls: seq<Call<K>>, key: K, now: Time)
    requires Monotone(calls) && forall i | 0 <= i < |calls| :: calls[i].at <= now
    ensures now < Expiry(calls, key) ==> Do(After(calls), Call(Clear(key), now)).1
    ensures Do(After(calls), Call(Clear(key), now)).1 == (now < Expiry(calls, key)) <==>
            !(key in After(calls) && After(calls)[key] <= now)
  {
    TableFollowsHistory(calls, key, now);
  }

  // The same key, marked at 0 for 1 and cleared at 5: the answer turns on whether anyone
  // probed it in between.
  lemma ClearSeesPruning()
    ensures var mark, probe, clear := Call(Mark(7, 1), 0), Call(IsActive(7), 5), Call(Clear(7), 5);
            Do(After([mark]), clear).1 && !Do(After([mark, probe]), clear).1
  {
    var mark, probe := Call(Mark(7, 1), 0), Call(IsActive(7), 5);
    assert [mark][..0] == [] && [mark, probe][..1] == [mark];
    assert After([mark]) == map[7 := 1];
  }
}
