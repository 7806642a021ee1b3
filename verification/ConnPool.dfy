/**
 The pre-established connection pool: short lock sections over one map of slots, with
 slow connects between them, interleaved in any order.
 */
module ConnPool {
  import opened Wrappers

  type Key = (int, bool)
  type Time = nat
  type SocketId = nat

  datatype Pooled = Pooled(ws: SocketId, created: Time, via: string)

  datatype Slot = Slot(conns: seq<Pooled>, lastUsed: Time)

  const SLOT_IDLE_AFTER: nat := 600

  type Slots = map<Key, Slot>

  // ---- The lock sections ------------------------------------------------------------

  predicate Young(c: Pooled, ttl: nat, now: Time)
  {
    now <= c.created + ttl
  }

  // The two halves of `take_expired`, each in the order of the original list.
  function Kept(conns: seq<Pooled>, ttl: nat, now: Time): seq<Pooled>
  {
    if conns == [] then []
    else (if Young(conns[0], ttl, now) then [conns[0]] else []) + Kept(conns[1..], ttl, now)
  }

  function Expired(conns: seq<Pooled>, ttl: nat, now: Time): seq<Pooled>
  {
    if conns == [] then []
    else (if Young(conns[0], ttl, now) then [] else [conns[0]]) + Expired(conns[1..], ttl, now)
  }

  // `acquire`: slots afterwards, the connection handed out, the expired ones.
  function AcquireLocked(slots: Slots, key: Key, ttl: nat, now: Time): (Slots, Option<Pooled>, seq<Pooled>)
  {
    if key !in slots then (slots, None, [])
    else
      var kept := Kept(slots[key].conns, ttl, now);
      var expired := Expired(slots[key].conns, ttl, now);
      if kept == [] then (slots[key := Slot([], now)], None, expired)
      else (slots[key := Slot(kept[..|kept| - 1], now)], Some(kept[|kept| - 1]), expired)
  }

  function SlotOf(slots: Slots, key: Key, now: Time): Slot
  {
    if key in slots then slots[key] else Slot([], now)
  }

  // `fill` after a connect: slots afterwards, whether the socket is spare, the expired ones.
  function FillLocked(slots: Slots, key: Key, ws: SocketId, via: string, size: nat, ttl: nat, now: Time)
    : (Slots, bool, seq<Pooled>)
  {
    var slot := SlotOf(slots, key, now);
    var kept := Kept(slot.conns, ttl, now);
    var expired := Expired(slot.conns, ttl, now);
    if |kept| >= size then (slots[key := slot.(conns := kept)], true, expired)
    else (slots[key := slot.(conns := kept + [Pooled(ws, now, via)])], false, expired)
  }

  // `refill_one`: slots afterwards, and how many connects to attempt.
  function RefillLocked(slots: Slots, key: Key, size: nat, now: Time): (Slots, nat)
  {
    var slot := SlotOf(slots, key, now);
    (slots[key := slot.(lastUsed := now)], if size > |slot.conns| then size - |slot.conns| else 0)
  }

  // `active_slots`: slots afterwards, and the slots to keep warm.
  function ReapLocked(slots: Slots, ttl: nat, now: Time): (Slots, set<Key>)
  {
    (map k | k in slots :: slots[k].(conns := Kept(slots[k].conns, ttl, now)),
     set k | k in slots && now <= slots[k].lastUsed + SLOT_IDLE_AFTER)
  }

  function Ids(conns: seq<Pooled>): set<SocketId>
  {
    set c | c in conns :: c.ws
  }

  function ExpiredIds(slots: Slots, ttl: nat, now: Time): set<SocketId>
  {
    set k, c | k in slots && c in Expired(slots[k].conns, ttl, now) :: c.ws
  }

  /** The pool as an object: one method per lock section, run under the mutex. */
  class Pool {
    const size: nat
    const ttl: nat
    const servesMedia: bool
    var slots: Slots

    constructor (size: nat, ttl: nat, servesMedia: bool)
      ensures this.size == size && this.ttl == ttl && this.servesMedia == servesMedia && slots == map[]
    {
      this.size, this.ttl, this.servesMedia, slots := size, ttl, servesMedia, map[];
    }

    static method TakeExpired(conns: seq<Pooled>, ttl: nat, now: Time)
      returns (young: seq<Pooled>, expired: seq<Pooled>)
      ensures young == Kept(conns, ttl, now) && expired == Expired(conns, ttl, now)
    {
      young, expired := [], [];
      for i := 0 to |conns|
        invariant young + Kept(conns[i..], ttl, now) == Kept(conns, ttl, now)
        invariant expired + Expired(conns[i..], ttl, now) == Expired(conns, ttl, now)
      {
        assert conns[i..][1..] == conns[i + 1..];
        if Young(conns[i], ttl, now) {
          young := young + [conns[i]];
        } else {
          expired := expired + [conns[i]];
        }
      }
    }

    method Acquire(key: Key, now: Time) returns (conn: Option<Pooled>, expired: seq<Pooled>)
      modifies this
      ensures if key.1 && !servesMedia then slots == old(slots) && conn == None && expired == []
              else (slots, conn, expired) == AcquireLocked(old(slots), key, ttl, now)
    {
      if key.1 && !servesMedia {
        return None, [];
      }
      if key !in slots {
        return None, [];
      }
      var young;
      young, expired := TakeExpired(slots[key].conns, ttl, now);
      if |young| > 0 {
        conn := Some(young[|young| - 1]);
        young := young[..|young| - 1];
      } else {
        conn := None;
      }
      slots := slots[key := Slot(young, now)];
    }

    method FillOne(key: Key, ws: SocketId, via: string, now: Time) returns (spare: bool, expired: seq<Pooled>)
      modifies this
      ensures (slots, spare, expired) == FillLocked(old(slots), key, ws, via, size, ttl, now)
      ensures key in slots
      ensures var conns := slots[key].conns;
              if spare then |conns| >= size
              else 0 < |conns| <= size && conns[|conns| - 1] == Pooled(ws, now, via)
    {
      var slot := if key in slots then slots[key] else Slot([], now);
      var young;
      young, expired := TakeExpired(slot.conns, ttl, now);
      if |young| >= size {
        spare := true;
      } else {
        young := young + [Pooled(ws, now, via)];
        spare := false;
      }
      slots := slots[key := slot.(conns := young)];
    }

    method RefillOne(key: Key, now: Time) returns (need: nat)
      modifies this
      ensures (slots, need) == RefillLocked(old(slots), key, size, now)
      ensures var held := if key in old(slots) then |old(slots)[key].conns| else 0;
              need + held == if held < size then size else held
    {
      var slot := if key in slots then slots[key] else Slot([], now);
      slots := slots[key := slot.(lastUsed := now)];
      var have := |slot.conns|;
      need := if size > have then size - have else 0;
    }

    // `order` is the order in which the map happened to be walked.
    method ActiveSlots(now: Time) returns (active: set<Key>, expired: seq<Pooled>, ghost order: seq<Key>)
      modifies this
      ensures (slots, active) == ReapLocked(old(slots), ttl, now)
      ensures Walks(order, old(slots).Keys) && expired == ExpiredAlong(old(slots), order, ttl, now)
    {
      active, expired, order := {}, [], [];
      ghost var before := slots;
      var keys := slots.Keys;
      hide Kept, Expired, ExpiredAlong, Walks;
      WalkStarts(before, ttl, now);
      hide Reaping;
      while keys != {}
        invariant keys <= before.Keys && slots.Keys == before.Keys
        invariant Reaping(before, slots, keys, active, order, expired, ttl, now)
        decreases |keys|
      {
        var key :| key in keys;
        var young, gone := TakeExpired(slots[key].conns, ttl, now);
        WalkGoesOn(before, slots, keys, active, order, expired, ttl, now, key);
        order := order + [key];
        expired := expired + gone;
        slots := slots[key := slots[key].(conns := young)];
        if now <= slots[key].lastUsed + SLOT_IDLE_AFTER {
          active := active + {key};
        }
        keys := keys - {key};
      }
      WalkEnds(before, slots, active, order, expired, ttl, now);
    }
  }

  // The walk has reaped every slot but those of `keys`.
  ghost predicate Reaping(before: Slots, slots: Slots, keys: set<Key>, active: set<Key>, order: seq<Key>,
                          expired: seq<Pooled>, ttl: nat, now: Time)
  {
    && keys <= before.Keys && slots.Keys == before.Keys
    && (forall k | k in before :: slots[k] == if k in keys then before[k] else Reaped(before[k], ttl, now))
    && (forall k :: k in active <==> k in before && k !in keys && now <= before[k].lastUsed + SLOT_IDLE_AFTER)
    && Walks(order, before.Keys - keys) && expired == ExpiredAlong(before, order, ttl, now)
  }

  lemma WalkStarts(slots: Slots, ttl: nat, now: Time)
    ensures Reaping(slots, slots, slots.Keys, {}, [], [], ttl, now)
  {
  }

  lemma WalkGoesOn(before: Slots, slots: Slots, keys: set<Key>, active: set<Key>, order: seq<Key>,
                   expired: seq<Pooled>, ttl: nat, now: Time, key: Key)
    requires Reaping(before, slots, keys, active, order, expired, ttl, now) && key in keys && key in slots
    ensures slots[key] == before[key]
    ensures Reaping(before, slots[key := Reaped(slots[key], ttl, now)], keys - {key},
                    if now <= slots[key].lastUsed + SLOT_IDLE_AFTER then active + {key} else active,
                    order + [key], expired + Expired(slots[key].conns, ttl, now), ttl, now)
  {
    WalksOn(order, before.Keys, keys, key);
    assert forall k | k in order :: k in before;
    AlongGrows(before, order, key, ttl, now);
    hide Kept, Expired, ExpiredAlong;
  }

  lemma WalkEnds(before: Slots, slots: Slots, active: set<Key>, order: seq<Key>, expired: seq<Pooled>,
                 ttl: nat, now: Time)
    requires Reaping(before, slots, {}, active, order, expired, ttl, now)
    ensures (slots, active) == ReapLocked(before, ttl, now)
    ensures Walks(order, before.Keys) && expired == ExpiredAlong(before, order, ttl, now)
  {
    assert before.Keys - {} == before.Keys;
    assert slots == ReapLocked(before, ttl, now).0;
    assert active == ReapLocked(before, ttl, now).1;
  }

  // Every key exactly once.
  ghost predicate Walks(order: seq<Key>, keys: set<Key>)
  {
    && (forall k :: k in order <==> k in keys)
    && (forall i, j | 0 <= i < j < |order| :: order[i] != order[j])
  }

  function ExpiredAlong(slots: Slots, order: seq<Key>, ttl: nat, now: Time): seq<Pooled>
    requires forall k | k in order :: k in slots
  {
    if order == [] then []
    else
      var last := order[|order| - 1];
      ExpiredAlong(slots, order[..|order| - 1], ttl, now) + Expired(slots[last].conns, ttl, now)
  }

  lemma WalksOn(order: seq<Key>, all: set<Key>, keys: set<Key>, key: Key)
    requires Walks(order, all - keys) && key in keys && keys <= all
    ensures Walks(order + [key], all - (keys - {key}))
  {
  }

  lemma AlongGrows(slots: Slots, order: seq<Key>, key: Key, ttl: nat, now: Time)
    requires key in slots && forall k | k in order :: k in slots
    ensures ExpiredAlong(slots, order + [key], ttl, now)
         == ExpiredAlong(slots, order, ttl, now) + Expired(slots[key].conns, ttl, now)
  {
    assert (order + [key])[..|order|] == order;
  }

  function Reaped(slot: Slot, ttl: nat, now: Time): Slot
  {
    slot.(conns := Kept(slot.conns, ttl, now))
  }

  // Expiry goes through a list entry by entry and keeps its order.
  lemma {:induction false} ExpiryConcat(a: seq<Pooled>, b: seq<Pooled>, ttl: nat, now: Time)
    ensures Kept(a + b, ttl, now) == Kept(a, ttl, now) + Kept(b, ttl, now)
    ensures Expired(a + b, ttl, now) == Expired(a, ttl, now) + Expired(b, ttl, now)
  {
    if a == [] {
      assert a + b == b;
    } else {
      assert (a + b)[1..] == a[1..] + b;
      ExpiryConcat(a[1..], b, ttl, now);
    }
  }

  lemma ExpiryOfOne(c: Pooled, ttl: nat, now: Time)
    ensures if now <= c.created + ttl then Kept([c], ttl, now) == [c] && Expired([c], ttl, now) == []
            else Kept([c], ttl, now) == [] && Expired([c], ttl, now) == [c]
  {
    assert [c][1..] == [];
  }

  // The place of the newest connection that is still young.
  predicate NewestYoung(conns: seq<Pooled>, ttl: nat, now: Time, i: nat)
  {
    && i < |conns| && now <= conns[i].created + ttl
    && forall j | i < j < |conns| :: now > conns[j].created + ttl
  }

  lemma {:induction false} NoneYoung(conns: seq<Pooled>, ttl: nat, now: Time)
    requires forall i | 0 <= i < |conns| :: now > conns[i].created + ttl
    ensures Kept(conns, ttl, now) == []
  {
    if conns != [] {
      NoneYoung(conns[1..], ttl, now);
    }
  }

  lemma NewestIsLast(conns: seq<Pooled>, ttl: nat, now: Time, i: nat)
    requires NewestYoung(conns, ttl, now, i)
    ensures Kept(conns, ttl, now) == Kept(conns[..i], ttl, now) + [conns[i]]
  {
    hide Kept, Expired;
    assert conns == conns[..i] + ([conns[i]] + conns[i + 1..]);
    ExpiryConcat(conns[..i], [conns[i]] + conns[i + 1..], ttl, now);
    ExpiryConcat([conns[i]], conns[i + 1..], ttl, now);
    ExpiryOfOne(conns[i], ttl, now);
    NoneYoung(conns[i + 1..], ttl, now);
  }

  // A caller gets the newest connection that is still young, and nothing only when none is;
  // the young ones before it stay, in their order.
  lemma AcquireExactly(slots: Slots, key: Key, ttl: nat, now: Time)
    requires key in slots
    ensures var conns := slots[key].conns;
            var (after, conn, expired) := AcquireLocked(slots, key, ttl, now);
            match conn
            case None =>
              && (forall i | 0 <= i < |conns| :: now > conns[i].created + ttl)
              && after == slots[key := Slot([], now)]
            case Some(c) =>
              exists i: nat | NewestYoung(conns, ttl, now, i) ::
                c == conns[i] && after == slots[key := Slot(Kept(conns[..i], ttl, now), now)]
  {
    var conns := slots[key].conns;
    var i := |conns|;
    while i > 0 && now > conns[i - 1].created + ttl
      invariant 0 <= i <= |conns| && forall j | i <= j < |conns| :: now > conns[j].created + ttl
    {
      i := i - 1;
    }
    if i == 0 {
      NoneYoung(conns, ttl, now);
    } else {
      assert NewestYoung(conns, ttl, now, i - 1);
      NewestIsLast(conns, ttl, now, i - 1);
    }
  }
}
