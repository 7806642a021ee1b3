/** The pool under concurrency: any interleaving of lock sections, connects and time. */
module ConnPoolRuns {
  import opened Wrappers
  import opened ConnPool

  datatype Config = Config(size: nat, ttl: nat, servesMedia: bool)

  // A background fill: the attempts it has left, and the socket it holds once connected.
  datatype Fill = Connecting(key: Key, left: nat) | Connected(key: Key, left: nat, ws: SocketId, via: string)

  // A socket popped at `at` for a caller. It comes back at once, or, if other entries of the
  // slot had expired, after those have been closed.
  datatype Handout = Handout(ws: SocketId, created: Time, at: Time, waits: bool, back: Option<Time>)

  function Popped(c: Pooled, now: Time, waits: bool): Handout
  {
    Handout(c.ws, c.created, now, waits, if waits then None else Some(now))
  }

  datatype State = State(
    slots: Slots, now: Time, fills: map<nat, Fill>, next: SocketId, handed: seq<Handout>, closed: set<SocketId>)

  datatype Event =
    | Tick(secs: nat)
    | Acquire(key: Key)
    | Return(handout: nat)
    | Refill(task: nat, slot: Key)
    | ConnectFailed(failed: nat)
    | ConnectDone(done: nat, via: string)
    | Push(pusher: nat)
    | Reap

  function Init(): State
  {
    State(map[], 0, map[], 0, [], {})
  }

  function AfterAttempt(fills: map<nat, Fill>, t: nat): map<nat, Fill>
    requires t in fills
  {
    if fills[t].left <= 1 then fills - {t} else fills[t := Connecting(fills[t].key, fills[t].left - 1)]
  }

  function OnAcquire(cfg: Config, s: State, key: Key): State
  {
    if key.1 && !cfg.servesMedia then s
    else
      var (slots, conn, expired) := AcquireLocked(s.slots, key, cfg.ttl, s.now);
      s.(slots := slots,
         handed := if conn.None? then s.handed else s.handed + [Popped(conn.value, s.now, expired != [])],
         closed := s.closed + Ids(expired))
  }

  function OnReturn(s: State, i: nat): State
    requires i < |s.handed|
  {
    s.(handed := s.handed[i := s.handed[i].(back := Some(s.now))])
  }

  function OnRefill(cfg: Config, s: State, t: nat, key: Key): State
  {
    var (slots, need) := RefillLocked(s.slots, key, cfg.size, s.now);
    s.(slots := slots, fills := if need == 0 then s.fills else s.fills[t := Connecting(key, need)])
  }

  function OnConnected(s: State, t: nat, via: string): State
    requires t in s.fills
  {
    s.(fills := s.fills[t := Connected(s.fills[t].key, s.fills[t].left, s.next, via)], next := s.next + 1)
  }

  function OnPush(cfg: Config, s: State, t: nat): State
    requires t in s.fills && s.fills[t].Connected?
  {
    var f := s.fills[t];
    var (slots, spare, expired) := FillLocked(s.slots, f.key, f.ws, f.via, cfg.size, cfg.ttl, s.now);
    s.(slots := slots,
       fills := if spare then s.fills - {t} else AfterAttempt(s.fills, t),
       closed := s.closed + Ids(expired) + if spare then {f.ws} else {})
  }

  function OnReap(cfg: Config, s: State): State
  {
    s.(slots := ReapLocked(s.slots, cfg.ttl, s.now).0,
       closed := s.closed + ExpiredIds(s.slots, cfg.ttl, s.now))
  }

  // The state after an event, or None where the event cannot happen.
  function Step(cfg: Config, s: State, e: Event): Option<State>
  {
    match e
    case Tick(secs) => Some(s.(now := s.now + secs))
    case Acquire(key) => Some(OnAcquire(cfg, s, key))
    case Return(i) => if i < |s.handed| && s.handed[i].back.None? then Some(OnReturn(s, i)) else None
    case Refill(t, key) => if t in s.fills then None else Some(OnRefill(cfg, s, t, key))
    case ConnectFailed(t) =>
      if t in s.fills && s.fills[t].Connecting? then Some(s.(fills := AfterAttempt(s.fills, t))) else None
    case ConnectDone(t, via) =>
      if t in s.fills && s.fills[t].Connecting? then Some(OnConnected(s, t, via)) else None
    case Push(t) => if t in s.fills && s.fills[t].Connected? then Some(OnPush(cfg, s, t)) else None
    case Reap => Some(OnReap(cfg, s))
  }

  function Run(cfg: Config, events: seq<Event>): Option<State>
  {
    if events == [] then Some(Init())
    else
      match Run(cfg, events[..|events| - 1])
      case None => None
      case Some(s) => Step(cfg, s, events[|events| - 1])
  }

  // ---- Facts about expiry ---------------------------------------------------------------

  ghost predicate Distinct(conns: seq<Pooled>)
  {
    forall i, j | 0 <= i < j < |conns| :: conns[i].ws != conns[j].ws
  }

  lemma {:induction false} ExpiryPartitions(conns: seq<Pooled>, ttl: nat, now: Time)
    ensures forall c :: c in conns <==> c in Kept(conns, ttl, now) || c in Expired(conns, ttl, now)
    ensures forall c | c in Kept(conns, ttl, now) :: Young(c, ttl, now)
    ensures forall c | c in Expired(conns, ttl, now) :: !Young(c, ttl, now)
    ensures |Kept(conns, ttl, now)| <= |conns|
  {
    if conns != [] {
      ExpiryPartitions(conns[1..], ttl, now);
      assert conns == [conns[0]] + conns[1..];
    }
  }

  lemma DistinctCons(c: Pooled, rest: seq<Pooled>)
    ensures Distinct([c] + rest) <==> Distinct(rest) && forall d | d in rest :: d.ws != c.ws
  {
    var all := [c] + rest;
    assert forall i | 0 <= i < |rest| :: all[i + 1] == rest[i];
    if Distinct(all) {
      forall i | 0 <= i < |rest| ensures rest[i].ws != c.ws {
        assert all[0].ws != all[i + 1].ws;
      }
      forall i, j | 0 <= i < j < |rest| ensures rest[i].ws != rest[j].ws {
        assert all[i + 1].ws != all[j + 1].ws;
      }
    }
  }

  lemma {:induction false} ExpiryKeepsDistinct(conns: seq<Pooled>, ttl: nat, now: Time)
    requires Distinct(conns)
    ensures Distinct(Kept(conns, ttl, now))
    ensures forall a, b | a in Kept(conns, ttl, now) && b in Expired(conns, ttl, now) :: a.ws != b.ws
  {
    if conns != [] {
      var c, rest := conns[0], conns[1..];
      assert conns == [c] + rest;
      DistinctCons(c, rest);
      ExpiryKeepsDistinct(rest, ttl, now);
      ExpiryPartitions(rest, ttl, now);
      DistinctCons(c, Kept(rest, ttl, now));
      hide Distinct;
    }
  }

  lemma ExpirySplits(conns: seq<Pooled>, ttl: nat, now: Time)
    ensures forall c | c in Kept(conns, ttl, now) :: c in conns && Young(c, ttl, now)
    ensures |Kept(conns, ttl, now)| <= |conns|
    ensures Ids(conns) == Ids(Kept(conns, ttl, now)) + Ids(Expired(conns, ttl, now))
    ensures Distinct(conns) ==>
              Distinct(Kept(conns, ttl, now)) && Ids(Kept(conns, ttl, now)) !! Ids(Expired(conns, ttl, now))
  {
    ExpiryPartitions(conns, ttl, now);
    if Distinct(conns) {
      ExpiryKeepsDistinct(conns, ttl, now);
    }
    hide Kept, Expired;
  }

  // ---- Where every socket is -----------------------------------------------------------

  datatype Place = InPool(key: Key) | InFlight(task: nat) | WithCaller | Gone

  ghost predicate SlotOk(cfg: Config, s: State, place: map<SocketId, Place>, k: Key)
    requires k in s.slots
  {
    var conns := s.slots[k].conns;
    && |conns| <= cfg.size && Distinct(conns)
    && forall c | c in conns :: c.created <= s.now && c.ws in place && place[c.ws] == InPool(k)
  }

  ghost predicate PlaceOk(s: State, ws: SocketId, p: Place)
  {
    match p
    case InPool(k) => k in s.slots && ws in Ids(s.slots[k].conns)
    case InFlight(t) => t in s.fills && s.fills[t].Connected? && s.fills[t].ws == ws
    case WithCaller => exists h :: h in s.handed && h.ws == ws
    case Gone => ws in s.closed
  }

  // Young when popped, and back at the pop itself unless the caller had to wait.
  predicate HandoutOk(cfg: Config, h: Handout, now: Time)
  {
    && h.created <= h.at <= h.created + cfg.ttl && h.at <= now
    && (h.back.Some? ==> h.at <= h.back.value <= now)
    && (!h.waits ==> h.back == Some(h.at))
  }

  // Every socket ever produced has a place, and every container agrees with it.
  ghost predicate Inv(cfg: Config, s: State, place: map<SocketId, Place>)
  {
    && (forall ws: SocketId :: ws in place <==> ws < s.next)
    && (forall ws | ws in place :: PlaceOk(s, ws, place[ws]))
    && (forall k | k in s.slots :: SlotOk(cfg, s, place, k))
    && (forall t | t in s.fills ::
          && s.fills[t].left > 0
          && (s.fills[t].Connected? ==> s.fills[t].ws in place && place[s.fills[t].ws] == InFlight(t)))
    && (forall h | h in s.handed :: h.ws in place && place[h.ws] == WithCaller && HandoutOk(cfg, h, s.now))
    && (forall i, j | 0 <= i < j < |s.handed| :: s.handed[i].ws != s.handed[j].ws)
    && (forall ws | ws in s.closed :: ws in place && place[ws] == Gone)
  }

  function Moved(place: map<SocketId, Place>, gone: set<SocketId>): map<SocketId, Place>
  {
    map ws | ws in place :: if ws in gone then Gone else place[ws]
  }

  lemma IdsHold(conns: seq<Pooled>)
    ensures forall c | c in conns :: c.ws in Ids(conns)
  {
  }

  lemma PooledPlace(cfg: Config, s: State, place: map<SocketId, Place>, k: Key)
    requires k in s.slots && SlotOk(cfg, s, place, k)
    ensures forall ws | ws in Ids(s.slots[k].conns) :: ws in place && place[ws] == InPool(k)
  {
  }

  // Slot `k` keeps some of its connections, and the others are among `gone`.
  ghost predicate Drops(s: State, t: State, gone: set<SocketId>, k: Key)
    requires k in s.slots && k in t.slots
  {
    var conns, kept := s.slots[k].conns, t.slots[k].conns;
    && |kept| <= |conns| && Distinct(kept)
    && (forall c | c in kept :: c in conns && c.ws !in gone)
    && (forall ws | ws in Ids(conns) :: ws in Ids(kept) || ws in gone)
  }

  lemma DropKeepsInv(cfg: Config, s: State, place: map<SocketId, Place>, t: State, gone: set<SocketId>)
    requires Inv(cfg, s, place)
    requires t == s.(slots := t.slots, closed := s.closed + gone) && t.slots.Keys == s.slots.Keys
    requires forall k | k in s.slots :: Drops(s, t, gone, k)
    requires forall ws | ws in gone :: exists k :: k in s.slots && ws in Ids(s.slots[k].conns)
    ensures Inv(cfg, t, Moved(place, gone))
  {
    var place' := Moved(place, gone);
    forall ws | ws in gone
      ensures ws in place && place[ws].InPool?
    {
      var k :| k in s.slots && ws in Ids(s.slots[k].conns);
      PooledPlace(cfg, s, place, k);
    }
    forall k | k in t.slots
      ensures SlotOk(cfg, t, place', k)
    {
      DropKeepsSlot(cfg, s, place, t, gone, k);
    }
    forall ws | ws in place'
      ensures PlaceOk(t, ws, place'[ws])
    {
      DropKeepsPlace(s, ws, place[ws], t, gone);
    }
    hide SlotOk, PlaceOk, Drops, Ids;
  }

  lemma DropKeepsSlot(cfg: Config, s: State, place: map<SocketId, Place>, t: State, gone: set<SocketId>, k: Key)
    requires k in s.slots && k in t.slots && SlotOk(cfg, s, place, k) && Drops(s, t, gone, k) && t.now == s.now
    ensures SlotOk(cfg, t, Moved(place, gone), k)
  {
    hide Ids;
  }

  lemma DropKeepsPlace(s: State, ws: SocketId, p: Place, t: State, gone: set<SocketId>)
    requires PlaceOk(s, ws, p)
    requires t == s.(slots := t.slots, closed := s.closed + gone) && t.slots.Keys == s.slots.Keys
    requires p.InPool? && p.key in s.slots ==> Drops(s, t, gone, p.key)
    ensures PlaceOk(t, ws, if ws in gone then Gone else p)
  {
    hide Ids;
  }

  // Dropping the expired entries of one slot.
  lemma ExpireSlot(cfg: Config, s: State, place: map<SocketId, Place>, k: Key)
    returns (t: State, place': map<SocketId, Place>)
    requires Inv(cfg, s, place) && k in s.slots
    ensures var conns := s.slots[k].conns;
            && t == s.(slots := s.slots[k := s.slots[k].(conns := Kept(conns, cfg.ttl, s.now))],
                       closed := s.closed + Ids(Expired(conns, cfg.ttl, s.now)))
            && place' == Moved(place, Ids(Expired(conns, cfg.ttl, s.now))) && Inv(cfg, t, place')
  {
    var conns := s.slots[k].conns;
    var kept := Kept(conns, cfg.ttl, s.now);
    var gone := Ids(Expired(conns, cfg.ttl, s.now));
    ExpirySplits(conns, cfg.ttl, s.now);
    t := s.(slots := s.slots[k := s.slots[k].(conns := kept)], closed := s.closed + gone);
    place' := Moved(place, gone);
    forall j | j in s.slots
      ensures Drops(s, t, gone, j)
    {
      OneSlotOnly(cfg, s, place, j, k, gone);
      if j == k {
        IdsHold(kept);
      }
    }
    hide Kept, Expired, Ids, Drops, Inv;
    DropKeepsInv(cfg, s, place, t, gone);
  }

  // Sockets of slot `k` are in no other slot.
  lemma OneSlotOnly(cfg: Config, s: State, place: map<SocketId, Place>, j: Key, k: Key, gone: set<SocketId>)
    requires Inv(cfg, s, place) && j in s.slots && k in s.slots && gone <= Ids(s.slots[k].conns)
    ensures Distinct(s.slots[j].conns)
    ensures j != k ==> forall c | c in s.slots[j].conns :: c.ws !in gone
    ensures forall c | c in s.slots[j].conns :: c.ws in Ids(s.slots[j].conns)
  {
    assert SlotOk(cfg, s, place, j) && SlotOk(cfg, s, place, k);
    PooledPlace(cfg, s, place, k);
    IdsHold(s.slots[j].conns);
  }

  // A slot that appears, or is marked used, changes nothing else.
  lemma TouchSlot(cfg: Config, s: State, place: map<SocketId, Place>, k: Key, slot: Slot)
    requires Inv(cfg, s, place) && slot.conns == SlotOf(s.slots, k, s.now).conns
    ensures Inv(cfg, s.(slots := s.slots[k := slot]), place)
  {
    var t := s.(slots := s.slots[k := slot]);
    forall j | j in t.slots
      ensures SlotOk(cfg, t, place, j)
    {
      if j in s.slots {
        assert SlotOk(cfg, s, place, j);
      }
    }
    forall ws | ws in place
      ensures PlaceOk(t, ws, place[ws])
    {
      assert PlaceOk(s, ws, place[ws]);
    }
  }

  lemma HandOutSlots(cfg: Config, s: State, place: map<SocketId, Place>, k: Key, j: Key, t: State)
    requires k in s.slots && s.slots[k].conns != [] && SlotOk(cfg, s, place, k)
    requires j in s.slots && SlotOk(cfg, s, place, j) && t.now == s.now
    requires var conns := s.slots[k].conns; t.slots == s.slots[k := Slot(conns[..|conns| - 1], s.now)]
    ensures var conns := s.slots[k].conns; SlotOk(cfg, t, place[conns[|conns| - 1].ws := WithCaller], j)
  {
    var conns := s.slots[k].conns;
    var n := |conns| - 1;
    assert conns[n] in conns;
    assert forall d | d in conns[..n] :: d in conns;
  }

  lemma HandOutPlaces(s: State, k: Key, h: Handout, t: State, ws: SocketId, p: Place)
    requires k in s.slots && s.slots[k].conns != [] && Distinct(s.slots[k].conns) && PlaceOk(s, ws, p)
    requires var conns := s.slots[k].conns;
             && h.ws == conns[|conns| - 1].ws
             && t == s.(slots := s.slots[k := Slot(conns[..|conns| - 1], s.now)], handed := s.handed + [h])
    ensures PlaceOk(t, ws, if ws == h.ws then WithCaller else p)
  {
    IdsWithoutLast(s.slots[k].conns);
    hide Ids, Distinct;
    if ws == h.ws {
      assert h == t.handed[|s.handed|];
    } else if p.WithCaller? {
      var g :| g in s.handed && g.ws == ws;
      assert g in t.handed;
    }
  }

  // Handing the newest connection of a slot to a caller.
  lemma HandOut(cfg: Config, s: State, place: map<SocketId, Place>, k: Key, waits: bool)
    returns (t: State, place': map<SocketId, Place>)
    requires Inv(cfg, s, place) && k in s.slots && s.slots[k].conns != []
    requires forall c | c in s.slots[k].conns :: Young(c, cfg.ttl, s.now)
    ensures var conns := s.slots[k].conns;
            var c := conns[|conns| - 1];
            && t == s.(slots := s.slots[k := Slot(conns[..|conns| - 1], s.now)],
                       handed := s.handed + [Popped(c, s.now, waits)])
            && place' == place[c.ws := WithCaller] && Inv(cfg, t, place')
  {
    var conns := s.slots[k].conns;
    var n := |conns| - 1;
    var c := conns[n];
    var h := Popped(c, s.now, waits);
    assert SlotOk(cfg, s, place, k) && c in conns;
    t := s.(slots := s.slots[k := Slot(conns[..n], s.now)], handed := s.handed + [h]);
    place' := place[c.ws := WithCaller];
    assert c.ws in place && place[c.ws] == InPool(k) && c.created <= h.at && Distinct(conns);
    hide SlotOk, PlaceOk, Distinct;
    forall j | j in t.slots
      ensures SlotOk(cfg, t, place', j)
    {
      HandOutSlots(cfg, s, place, k, j, t);
    }
    forall ws | ws in place'
      ensures PlaceOk(t, ws, place'[ws])
    {
      HandOutPlaces(s, k, h, t, ws, place[ws]);
    }
    HandedStay(cfg, s, place, place', h);
  }

  lemma HandedStay(cfg: Config, s: State, place: map<SocketId, Place>, place': map<SocketId, Place>, h: Handout)
    requires Inv(cfg, s, place) && h.ws in place && place[h.ws].InPool? && place' == place[h.ws := WithCaller]
    requires HandoutOk(cfg, h, s.now)
    ensures var handed := s.handed + [h];
            && (forall g | g in handed :: g.ws in place' && place'[g.ws] == WithCaller && HandoutOk(cfg, g, s.now))
            && (forall i, j | 0 <= i < j < |handed| :: handed[i].ws != handed[j].ws)
  {
    hide SlotOk, PlaceOk;
    forall i | 0 <= i < |s.handed|
      ensures s.handed[i].ws != h.ws
    {
      assert s.handed[i] in s.handed;
    }
  }

  lemma IdsWithoutLast(conns: seq<Pooled>)
    requires conns != [] && Distinct(conns)
    ensures var n := |conns| - 1;
            Ids(conns[..n]) == Ids(conns) - {conns[n].ws}
  {
    var n := |conns| - 1;
    forall ws | ws in Ids(conns) && ws != conns[n].ws
      ensures ws in Ids(conns[..n])
    {
      var c :| c in conns && c.ws == ws;
      assert c in conns[..n];
    }
  }

  lemma SettleSlots(cfg: Config, s: State, place: map<SocketId, Place>, k: Key, j: Key, c: Pooled, u: State)
    requires k in s.slots && j in s.slots && SlotOk(cfg, s, place, j) && SlotOk(cfg, s, place, k)
    requires c.ws in place && place[c.ws].InFlight? && c.created == s.now == u.now && |s.slots[k].conns| < cfg.size
    requires u.slots == s.slots[k := s.slots[k].(conns := s.slots[k].conns + [c])]
    ensures SlotOk(cfg, u, place[c.ws := InPool(k)], j)
  {
    var conns := s.slots[k].conns;
    forall i | 0 <= i < |conns| ensures conns[i].ws != c.ws {
      assert conns[i] in conns;
    }
  }

  lemma SettlePlaces(s: State, k: Key, c: Pooled, u: State, t: nat, ws: SocketId, p: Place)
    requires k in s.slots && t in s.fills && s.fills[t].Connected? && s.fills[t].ws == c.ws
    requires PlaceOk(s, ws, p) && (p == InFlight(t) ==> ws == c.ws)
    requires u.slots == s.slots[k := s.slots[k].(conns := s.slots[k].conns + [c])]
    requires u.handed == s.handed && u.closed == s.closed
    requires forall j | j in s.fills && j != t :: j in u.fills && u.fills[j] == s.fills[j]
    ensures PlaceOk(u, ws, if ws == c.ws then InPool(k) else p)
  {
    var conns := s.slots[k].conns;
    assert Ids(conns + [c]) == Ids(conns) + {c.ws};
    hide Ids;
  }

  // The fills other than `t` are as they were.
  ghost predicate OthersSame(s: State, fills: map<nat, Fill>, t: nat)
  {
    && (forall j | j in s.fills && j != t :: j in fills && fills[j] == s.fills[j])
    && (forall j | j in fills && j != t :: j in s.fills)
    && (t in fills ==> fills[t].Connecting? && fills[t].left > 0)
  }

  lemma AttemptOthers(s: State, t: nat)
    requires t in s.fills && s.fills[t].left > 0
    ensures OthersSame(s, s.fills - {t}, t) && OthersSame(s, AfterAttempt(s.fills, t), t)
  {
  }

  lemma SettleSpare(cfg: Config, s: State, place: map<SocketId, Place>, t: nat, u: State)
    requires Inv(cfg, s, place) && t in s.fills && s.fills[t].Connected? && OthersSame(s, u.fills, t)
    requires u == s.(fills := u.fills, closed := s.closed + {s.fills[t].ws})
    ensures Inv(cfg, u, place[s.fills[t].ws := Gone])
  {
    var place' := place[s.fills[t].ws := Gone];
    assert place[s.fills[t].ws] == InFlight(t);
    hide Ids;
    forall j | j in u.slots ensures SlotOk(cfg, u, place', j) {
      assert SlotOk(cfg, s, place, j);
    }
    forall ws | ws in place' ensures PlaceOk(u, ws, place'[ws]) {
      assert PlaceOk(s, ws, place[ws]);
    }
    hide SlotOk, PlaceOk;
  }

  lemma SettlePooled(cfg: Config, s: State, place: map<SocketId, Place>, t: nat, c: Pooled, u: State)
    requires Inv(cfg, s, place) && t in s.fills && s.fills[t].Connected? && OthersSame(s, u.fills, t)
    requires s.fills[t].key in s.slots && |s.slots[s.fills[t].key].conns| < cfg.size
    requires c.ws == s.fills[t].ws && c.created == s.now
    requires var k := s.fills[t].key;
             u == s.(fills := u.fills, slots := s.slots[k := s.slots[k].(conns := s.slots[k].conns + [c])])
    ensures Inv(cfg, u, place[c.ws := InPool(s.fills[t].key)])
  {
    var k := s.fills[t].key;
    var place' := place[c.ws := InPool(k)];
    hide SlotOk, PlaceOk;
    forall j | j in u.slots ensures SlotOk(cfg, u, place', j) {
      SettleSlots(cfg, s, place, k, j, c, u);
    }
    forall ws | ws in place' ensures PlaceOk(u, ws, place'[ws]) {
      if place[ws] == InFlight(t) {
        FlightIsOne(s, ws, place[ws], t);
      }
      SettlePlaces(s, k, c, u, t, ws, place[ws]);
    }
  }

  lemma FlightIsOne(s: State, ws: SocketId, p: Place, t: nat)
    requires PlaceOk(s, ws, p) && p == InFlight(t)
    ensures t in s.fills && s.fills[t].Connected? && s.fills[t].ws == ws
  {
  }

  // A connected socket leaves its fill for the pool, or, past capacity, for good.
  lemma Settle(cfg: Config, s: State, place: map<SocketId, Place>, t: nat, fills: map<nat, Fill>)
    returns (u: State, place': map<SocketId, Place>)
    requires Inv(cfg, s, place) && t in s.fills && s.fills[t].Connected? && s.fills[t].key in s.slots
    requires fills == s.fills - {t} || fills == AfterAttempt(s.fills, t)
    ensures var f := s.fills[t];
            var slot := s.slots[f.key];
            && u == (if |slot.conns| >= cfg.size then s.(fills := fills, closed := s.closed + {f.ws})
                     else s.(fills := fills,
                             slots := s.slots[f.key := slot.(conns := slot.conns + [Pooled(f.ws, s.now, f.via)])]))
            && place' == place[f.ws := if |slot.conns| >= cfg.size then Gone else InPool(f.key)]
            && Inv(cfg, u, place')
  {
    var f := s.fills[t];
    var slot := s.slots[f.key];
    var c := Pooled(f.ws, s.now, f.via);
    assert f.left > 0;
    AttemptOthers(s, t);
    hide Inv, OthersSame, AfterAttempt;
    if |slot.conns| >= cfg.size {
      u := s.(fills := fills, closed := s.closed + {f.ws});
      place' := place[f.ws := Gone];
      SettleSpare(cfg, s, place, t, u);
    } else {
      u := s.(fills := fills, slots := s.slots[f.key := slot.(conns := slot.conns + [c])]);
      place' := place[f.ws := InPool(f.key)];
      SettlePooled(cfg, s, place, t, c, u);
    }
  }

  // Dropping the expired entries of every slot.
  lemma ReapKeepsInv(cfg: Config, s: State, place: map<SocketId, Place>)
    requires Inv(cfg, s, place)
    ensures Inv(cfg, OnReap(cfg, s), Moved(place, ExpiredIds(s.slots, cfg.ttl, s.now)))
  {
    var t := OnReap(cfg, s);
    var gone := ExpiredIds(s.slots, cfg.ttl, s.now);
    forall ws | ws in gone
      ensures exists k :: k in s.slots && ws in Ids(s.slots[k].conns)
    {
      var k, c :| k in s.slots && c in Expired(s.slots[k].conns, cfg.ttl, s.now) && c.ws == ws;
      ExpirySplits(s.slots[k].conns, cfg.ttl, s.now);
    }
    forall k | k in s.slots
      ensures Drops(s, t, gone, k)
    {
      ReapDrops(cfg, s, place, k);
    }
    hide Kept, Expired, Ids, Drops, Inv, ExpiredIds;
    DropKeepsInv(cfg, s, place, t, gone);
  }

  lemma ReapDrops(cfg: Config, s: State, place: map<SocketId, Place>, k: Key)
    requires Inv(cfg, s, place) && k in s.slots
    ensures Drops(s, OnReap(cfg, s), ExpiredIds(s.slots, cfg.ttl, s.now), k)
  {
    var conns := s.slots[k].conns;
    var kept := Kept(conns, cfg.ttl, s.now);
    var gone := ExpiredIds(s.slots, cfg.ttl, s.now);
    ExpirySplits(conns, cfg.ttl, s.now);
    assert SlotOk(cfg, s, place, k);
    PooledPlace(cfg, s, place, k);
    forall ws | ws in gone
      ensures ws !in Ids(kept)
    {
      var j, d :| j in s.slots && d in Expired(s.slots[j].conns, cfg.ttl, s.now) && d.ws == ws;
      ExpirySplits(s.slots[j].conns, cfg.ttl, s.now);
      PooledPlace(cfg, s, place, j);
      assert SlotOk(cfg, s, place, j);
      assert place[ws] == InPool(j);
      assert ws in Ids(kept) ==> j == k;
    }
    IdsHold(kept);
    forall ws | ws in Ids(conns)
      ensures ws in Ids(kept) || ws in gone
    {
      if ws in Ids(Expired(conns, cfg.ttl, s.now)) {
        var d :| d in Expired(conns, cfg.ttl, s.now) && d.ws == ws;
      }
    }
  }

  lemma StepKeepsInv(cfg: Config, s: State, e: Event, place: map<SocketId, Place>)
    returns (place': map<SocketId, Place>)
    requires Inv(cfg, s, place) && Step(cfg, s, e).Some?
    ensures Inv(cfg, Step(cfg, s, e).value, place')
  {
    place' := place;
    hide Inv, OnAcquire, OnPush, AfterAttempt, ReapLocked, ExpiredIds;
    match e {
      case Tick(secs) => TimeKeepsInv(cfg, s, place, secs);
      case Acquire(key) => place' := AcquireKeepsInv(cfg, s, key, place);
      case Return(i) => ReturnKeepsInv(cfg, s, place, i);
      case Refill(t, key) =>
        TouchSlot(cfg, s, place, key, SlotOf(s.slots, key, s.now).(lastUsed := s.now));
        NewFill(cfg, s.(slots := RefillLocked(s.slots, key, cfg.size, s.now).0), place, t, key,
                RefillLocked(s.slots, key, cfg.size, s.now).1);
      case ConnectFailed(t) => AttemptOver(cfg, s, place, t);
      case ConnectDone(t, via) => place' := ConnectedKeepsInv(cfg, s, place, t, via);
      case Push(t) => place' := PushKeepsInv(cfg, s, place, t);
      case Reap =>
        ReapKeepsInv(cfg, s, place);
        place' := Moved(place, ExpiredIds(s.slots, cfg.ttl, s.now));
    }
  }

  // The same slots and hand-outs with different fills or a later clock.
  lemma FrameInv(cfg: Config, s: State, t: State, place: map<SocketId, Place>)
    requires Inv(cfg, s, place)
    requires t.slots == s.slots && t.handed == s.handed && t.closed == s.closed && t.next == s.next && s.now <= t.now
    requires forall j | j in t.fills :: t.fills[j].left > 0
    requires forall j | j in t.fills && t.fills[j].Connected? :: j in s.fills && s.fills[j] == t.fills[j]
    requires forall j | j in s.fills && s.fills[j].Connected? :: j in t.fills && s.fills[j] == t.fills[j]
    ensures Inv(cfg, t, place)
  {
    forall k | k in t.slots
      ensures SlotOk(cfg, t, place, k)
    {
      assert SlotOk(cfg, s, place, k);
    }
    forall ws | ws in place
      ensures PlaceOk(t, ws, place[ws])
    {
      assert PlaceOk(s, ws, place[ws]);
    }
  }

  lemma TimeKeepsInv(cfg: Config, s: State, place: map<SocketId, Place>, secs: nat)
    requires Inv(cfg, s, place)
    ensures Inv(cfg, s.(now := s.now + secs), place)
  {
    FrameInv(cfg, s, s.(now := s.now + secs), place);
  }

  lemma NewFill(cfg: Config, s: State, place: map<SocketId, Place>, t: nat, key: Key, need: nat)
    requires Inv(cfg, s, place) && t !in s.fills
    ensures Inv(cfg, s.(fills := if need == 0 then s.fills else s.fills[t := Connecting(key, need)]), place)
  {
    FrameInv(cfg, s, s.(fills := if need == 0 then s.fills else s.fills[t := Connecting(key, need)]), place);
  }

  lemma AttemptOver(cfg: Config, s: State, place: map<SocketId, Place>, t: nat)
    requires Inv(cfg, s, place) && t in s.fills && s.fills[t].Connecting?
    ensures Inv(cfg, s.(fills := AfterAttempt(s.fills, t)), place)
  {
    FrameInv(cfg, s, s.(fills := AfterAttempt(s.fills, t)), place);
  }

  lemma ConnectedKeepsInv(cfg: Config, s: State, place: map<SocketId, Place>, t: nat, via: string)
    returns (place': map<SocketId, Place>)
    requires Inv(cfg, s, place) && t in s.fills && s.fills[t].Connecting?
    ensures Inv(cfg, OnConnected(s, t, via), place')
  {
    var u := OnConnected(s, t, via);
    place' := place[s.next := InFlight(t)];
    forall k | k in u.slots
      ensures SlotOk(cfg, u, place', k)
    {
      assert SlotOk(cfg, s, place, k);
    }
    forall ws | ws in place'
      ensures PlaceOk(u, ws, place'[ws])
    {
      assert ws != s.next ==> PlaceOk(s, ws, place[ws]);
    }
  }

  // What an acquire takes out: the connection for the caller, and the expired ones.
  function Taken(cfg: Config, s: State, key: Key): (Option<Pooled>, seq<Pooled>)
  {
    if key.1 && !cfg.servesMedia then (None, [])
    else (AcquireLocked(s.slots, key, cfg.ttl, s.now).1, AcquireLocked(s.slots, key, cfg.ttl, s.now).2)
  }

  function AfterAcquire(place: map<SocketId, Place>, conn: Option<Pooled>, expired: seq<Pooled>)
    : map<SocketId, Place>
  {
    var moved := Moved(place, Ids(expired));
    if conn.None? then moved else moved[conn.value.ws := WithCaller]
  }

  // An acquire that finds no slot, or is for media where media is not served.
  lemma AcquireNothing(cfg: Config, s: State, key: Key, place: map<SocketId, Place>)
    requires (key.1 && !cfg.servesMedia) || key !in s.slots
    ensures OnAcquire(cfg, s, key) == s && Taken(cfg, s, key) == (None, [])
    ensures AfterAcquire(place, None, []) == place
  {
    assert s.closed + Ids([]) == s.closed;
  }

  lemma AcquireFrom(cfg: Config, s: State, key: Key)
    requires !(key.1 && !cfg.servesMedia) && key in s.slots
    ensures var conns := s.slots[key].conns;
            var kept, expired := Kept(conns, cfg.ttl, s.now), Expired(conns, cfg.ttl, s.now);
            var t := s.(closed := s.closed + Ids(expired));
            && Taken(cfg, s, key) == (if kept == [] then None else Some(kept[|kept| - 1]), expired)
            && OnAcquire(cfg, s, key) ==
               if kept == [] then t.(slots := s.slots[key := Slot([], s.now)])
               else t.(slots := s.slots[key := Slot(kept[..|kept| - 1], s.now)],
                       handed := s.handed + [Popped(kept[|kept| - 1], s.now, expired != [])])
  {
    hide Kept, Expired, Ids;
  }

  // The socket taken goes to its caller and the expired ones are closed; every other socket
  // stays where it is.
  lemma AcquireKeepsInv(cfg: Config, s: State, key: Key, place: map<SocketId, Place>)
    returns (place': map<SocketId, Place>)
    requires Inv(cfg, s, place)
    ensures Inv(cfg, OnAcquire(cfg, s, key), place')
    ensures var (conn, expired) := Taken(cfg, s, key); place' == AfterAcquire(place, conn, expired)
  {
    hide Kept, Expired, Inv, Ids, OnAcquire, Taken, Moved;
    if (key.1 && !cfg.servesMedia) || key !in s.slots {
      place' := place;
      AcquireNothing(cfg, s, key, place);
    } else {
      AcquireFrom(cfg, s, key);
      var conns := s.slots[key].conns;
      var kept, expired := Kept(conns, cfg.ttl, s.now), Expired(conns, cfg.ttl, s.now);
      ExpirySplits(conns, cfg.ttl, s.now);
      var t, p := ExpireSlot(cfg, s, place, key);
      Overwrite(s.slots, key, s.slots[key].(conns := kept),
                Slot(if kept == [] then [] else kept[..|kept| - 1], s.now));
      if kept == [] {
        TouchSlot(cfg, t, p, key, Slot([], s.now));
        place' := p;
      } else {
        var u, q := HandOut(cfg, t, p, key, expired != []);
        place' := q;
      }
    }
  }

  // The caller gets the socket after the wait; nothing else moves.
  lemma ReturnKeepsInv(cfg: Config, s: State, place: map<SocketId, Place>, i: nat)
    requires Inv(cfg, s, place) && i < |s.handed| && s.handed[i].back.None?
    ensures Inv(cfg, OnReturn(s, i), place)
  {
    var t := OnReturn(s, i);
    forall k | k in t.slots
      ensures SlotOk(cfg, t, place, k)
    {
      assert SlotOk(cfg, s, place, k);
    }
    hide SlotOk;
    forall ws | ws in place
      ensures PlaceOk(t, ws, place[ws])
    {
      ReturnKeepsPlace(s, i, ws, place[ws]);
    }
    hide PlaceOk;
    ReturnKeepsHanded(cfg, s, place, i);
  }

  lemma ReturnKeepsPlace(s: State, i: nat, ws: SocketId, p: Place)
    requires i < |s.handed| && PlaceOk(s, ws, p)
    ensures PlaceOk(OnReturn(s, i), ws, p)
  {
    hide Ids;
    if p.WithCaller? {
      var j :| 0 <= j < |s.handed| && s.handed[j].ws == ws;
      var handed := OnReturn(s, i).handed;
      assert handed[j] in handed && handed[j].ws == ws;
    }
  }

  lemma ReturnKeepsHanded(cfg: Config, s: State, place: map<SocketId, Place>, i: nat)
    requires Inv(cfg, s, place) && i < |s.handed| && s.handed[i].back.None?
    ensures var handed := OnReturn(s, i).handed;
            && (forall g | g in handed :: g.ws in place && place[g.ws] == WithCaller && HandoutOk(cfg, g, s.now))
            && (forall j, k | 0 <= j < k < |handed| :: handed[j].ws != handed[k].ws)
  {
    hide SlotOk, PlaceOk;
    var handed := OnReturn(s, i).handed;
    forall g | g in handed
      ensures g.ws in place && place[g.ws] == WithCaller && HandoutOk(cfg, g, s.now)
    {
      var j :| 0 <= j < |handed| && handed[j] == g;
      assert s.handed[j] in s.handed;
    }
  }

  lemma Overwrite(slots: Slots, k: Key, first: Slot, second: Slot)
    ensures slots[k := first][k := second] == slots[k := second]
  {
  }

  // The socket of the fill goes to its slot, or is closed if the slot filled up meanwhile; the
  // expired ones are closed, and every other socket stays where it is.
  lemma PushKeepsInv(cfg: Config, s: State, place: map<SocketId, Place>, t: nat)
    returns (place': map<SocketId, Place>)
    requires Inv(cfg, s, place) && t in s.fills && s.fills[t].Connected?
    ensures Inv(cfg, OnPush(cfg, s, t), place')
    ensures var f := s.fills[t];
            var (_, spare, expired) := FillLocked(s.slots, f.key, f.ws, f.via, cfg.size, cfg.ttl, s.now);
            place' == Moved(place, Ids(expired))[f.ws := if spare then Gone else InPool(f.key)]
  {
    hide Kept, Expired, Inv, Ids, SlotOf;
    var f := s.fills[t];
    var slot := SlotOf(s.slots, f.key, s.now);
    var kept := Kept(slot.conns, cfg.ttl, s.now);
    TouchSlot(cfg, s, place, f.key, slot);
    var a := s.(slots := s.slots[f.key := slot]);
    var b, p := ExpireSlot(cfg, a, place, f.key);
    Overwrite(s.slots, f.key, slot, slot.(conns := kept));
    Overwrite(s.slots, f.key, slot.(conns := kept), slot.(conns := kept + [Pooled(f.ws, s.now, f.via)]));
    assert b.slots == s.slots[f.key := slot.(conns := kept)];
    var spare := |kept| >= cfg.size;
    var u, q := Settle(cfg, b, p, t, if spare then s.fills - {t} else AfterAttempt(s.fills, t));
    place' := q;
    assert u.closed + {} == u.closed;
  }

  lemma {:induction false} RunKeepsInv(cfg: Config, events: seq<Event>) returns (place: map<SocketId, Place>)
    requires Run(cfg, events).Some?
    ensures Inv(cfg, Run(cfg, events).value, place)
    decreases |events|
  {
    if events == [] {
      place := map[];
      assert Run(cfg, events) == Some(Init());
    } else {
      var before := events[..|events| - 1];
      var p := RunKeepsInv(cfg, before);
      place := StepKeepsInv(cfg, Run(cfg, before).value, events[|events| - 1], p);
    }
  }

  // ---- What every interleaving keeps ------------------------------------------------------

  ghost predicate Pools(s: State, ws: SocketId, k: Key)
  {
    k in s.slots && ws in Ids(s.slots[k].conns)
  }

  ghost predicate Holds(s: State, ws: SocketId, t: nat)
  {
    t in s.fills && s.fills[t].Connected? && s.fills[t].ws == ws
  }

  ghost predicate HandedOut(s: State, ws: SocketId)
  {
    exists h :: h in s.handed && h.ws == ws
  }

  // No slot ever exceeds the pool size.
  lemma Capacity(cfg: Config, events: seq<Event>)
    requires Run(cfg, events).Some?
    ensures var s := Run(cfg, events).value;
            forall k | k in s.slots :: |s.slots[k].conns| <= cfg.size
  {
    var place := RunKeepsInv(cfg, events);
    var s := Run(cfg, events).value;
    assert forall k | k in s.slots :: SlotOk(cfg, s, place, k);
  }

  // Every socket a connect produced is in exactly one place: one slot, once; one fill;
  // with one caller; or closed.
  lemma ExactlyOnePlace(cfg: Config, events: seq<Event>, ws: SocketId)
    requires Run(cfg, events).Some? && ws < Run(cfg, events).value.next
    ensures var s := Run(cfg, events).value;
            && ((exists k :: Pools(s, ws, k)) || (exists t :: Holds(s, ws, t)) || HandedOut(s, ws) || ws in s.closed)
            && (forall k :: Pools(s, ws, k) ==>
                  && (forall j :: Pools(s, ws, j) ==> j == k)
                  && (forall i, j | 0 <= i < j < |s.slots[k].conns| :: s.slots[k].conns[i].ws != s.slots[k].conns[j].ws)
                  && !(exists t :: Holds(s, ws, t)) && !HandedOut(s, ws) && ws !in s.closed)
            && (forall t :: Holds(s, ws, t) ==>
                  (forall u :: Holds(s, ws, u) ==> u == t) && !HandedOut(s, ws) && ws !in s.closed)
            && !(HandedOut(s, ws) && ws in s.closed)
  {
    var place := RunKeepsInv(cfg, events);
    var s := Run(cfg, events).value;
    hide Run, Step;
    assert PlaceOk(s, ws, place[ws]);
    if place[ws].InPool? {
      assert Pools(s, ws, place[ws].key);
    } else if place[ws].InFlight? {
      assert Holds(s, ws, place[ws].task);
    }
    forall k | Pools(s, ws, k)
      ensures place[ws] == InPool(k) && Distinct(s.slots[k].conns)
    {
      assert SlotOk(cfg, s, place, k);
    }
    assert forall t | Holds(s, ws, t) :: place[ws] == InFlight(t);
  }

  // Nothing is handed out twice. Everything is young when it is popped, and still is when its
  // caller gets it unless the caller had to wait for expired entries of the slot to be closed.
  lemma HandedOnceAndYoung(cfg: Config, events: seq<Event>)
    requires Run(cfg, events).Some?
    ensures var s := Run(cfg, events).value;
            && (forall i, j | 0 <= i < j < |s.handed| :: s.handed[i].ws != s.handed[j].ws)
            && (forall h | h in s.handed ::
                  && h.ws < s.next && h.created <= h.at <= h.created + cfg.ttl
                  && (!h.waits ==> h.back.Some? && h.back.value <= h.created + cfg.ttl))
  {
    var place := RunKeepsInv(cfg, events);
    hide Run, SlotOk, PlaceOk;
  }

  lemma Then(cfg: Config, events: seq<Event>, s: State, e: Event)
    requires Run(cfg, events) == Some(s)
    ensures Run(cfg, events + [e]) == Step(cfg, s, e)
  {
    assert (events + [e])[..|events|] == events;
  }

  // ---- The age on return --------------------------------------------------------------------

  // A hand-out keeps everything but the moment it comes back, once that is set.
  predicate SameHandout(h: Handout, g: Handout)
  {
    g.ws == h.ws && g.created == h.created && g.at == h.at && g.waits == h.waits
    && (h.back.Some? ==> g.back == h.back)
  }

  lemma StepKeepsHanded(cfg: Config, s: State, e: Event, i: nat)
    requires Step(cfg, s, e).Some? && i < |s.handed|
    ensures var t := Step(cfg, s, e).value;
            |s.handed| <= |t.handed| && SameHandout(s.handed[i], t.handed[i])
  {
    hide Kept, Expired, Ids, FillLocked, RefillLocked, ReapLocked, AfterAttempt, ExpiredIds;
  }

  lemma {:induction false} RunKeepsHanded(cfg: Config, events: seq<Event>, rest: seq<Event>, i: nat)
    requires Run(cfg, events + rest).Some?
    ensures Run(cfg, events).Some?
    ensures var s, t := Run(cfg, events).value, Run(cfg, events + rest).value;
            i < |s.handed| ==> |s.handed| <= |t.handed| && SameHandout(s.handed[i], t.handed[i])
    decreases |rest|
  {
    var all := events + rest;
    if rest == [] {
      assert all == events;
    } else {
      var before := rest[..|rest| - 1];
      assert all[..|all| - 1] == events + before && all[|all| - 1] == rest[|rest| - 1];
      RunKeepsHanded(cfg, events, before, i);
      var s, t := Run(cfg, events).value, Run(cfg, events + before).value;
      if i < |s.handed| {
        StepKeepsHanded(cfg, t, rest[|rest| - 1], i);
      }
      hide Step;
    }
  }

  // Back with its caller, it is no older than the ttl.
  predicate YoungBack(cfg: Config, h: Handout)
  {
    h.back.Some? ==> h.back.value <= h.created + cfg.ttl
  }

  ghost predicate YoungWhenever(cfg: Config, events: seq<Event>, i: nat)
  {
    forall rest :: Run(cfg, events + rest).Some? && i < |Run(cfg, events + rest).value.handed|
                   ==> YoungBack(cfg, Run(cfg, events + rest).value.handed[i])
  }

  // A caller still waiting gets an old one if the wait outlasts the ttl.
  lemma PendingComesBackOld(cfg: Config, events: seq<Event>, i: nat)
    requires Run(cfg, events).Some? && i < |Run(cfg, events).value.handed|
    requires Run(cfg, events).value.handed[i].back.None?
    ensures Run(cfg, events).value.handed[i].waits
    ensures var t := Run(cfg, events + ([Tick(cfg.ttl + 1)] + [Return(i)]));
            t.Some? && i < |t.value.handed| && t.value.handed[i].back.Some? && !YoungBack(cfg, t.value.handed[i])
  {
    var s := Run(cfg, events).value;
    PendingWaits(cfg, events, i);
    PoppedBefore(cfg, events, i);
    hide Run, OnReturn;
    WaitsAndReturns(cfg, events, s, i, cfg.ttl + 1);
    ReturnedLate(cfg, s.(now := s.now + cfg.ttl + 1), i);
  }

  lemma WaitsAndReturns(cfg: Config, events: seq<Event>, s: State, i: nat, secs: nat)
    requires Run(cfg, events) == Some(s) && i < |s.handed| && s.handed[i].back.None?
    ensures Run(cfg, events + ([Tick(secs)] + [Return(i)])) == Some(OnReturn(s.(now := s.now + secs), i))
  {
    hide Run, OnReturn;
    Then(cfg, events, s, Tick(secs));
    Then(cfg, events + [Tick(secs)], s.(now := s.now + secs), Return(i));
    assert events + ([Tick(secs)] + [Return(i)]) == events + [Tick(secs)] + [Return(i)];
  }

  lemma ReturnedLate(cfg: Config, s: State, i: nat)
    requires i < |s.handed| && s.now > s.handed[i].created + cfg.ttl
    ensures var t := OnReturn(s, i);
            i < |t.handed| && t.handed[i].back.Some? && !YoungBack(cfg, t.handed[i])
  {
  }

  lemma PendingWaits(cfg: Config, events: seq<Event>, i: nat)
    requires Run(cfg, events).Some? && i < |Run(cfg, events).value.handed|
    requires Run(cfg, events).value.handed[i].back.None?
    ensures Run(cfg, events).value.handed[i].waits
  {
    HandedOnceAndYoung(cfg, events);
    assert Run(cfg, events).value.handed[i] in Run(cfg, events).value.handed;
    hide Run;
  }

  lemma PoppedBefore(cfg: Config, events: seq<Event>, i: nat)
    requires Run(cfg, events).Some? && i < |Run(cfg, events).value.handed|
    ensures Run(cfg, events).value.handed[i].created <= Run(cfg, events).value.now
  {
    var place := RunKeepsInv(cfg, events);
    hide Run, SlotOk, PlaceOk;
    var s := Run(cfg, events).value;
    assert s.handed[i] in s.handed;
  }

  // What an acquire hands out is young when its caller gets it, whatever happens until then,
  // if and only if nothing in the slot had expired.
  lemma YoungBackIffNothingExpired(cfg: Config, events: seq<Event>, key: Key)
    requires Run(cfg, events).Some? && Taken(cfg, Run(cfg, events).value, key).0.Some?
    ensures var s := Run(cfg, events).value;
            && Run(cfg, events + [Acquire(key)]).Some?
            && |Run(cfg, events + [Acquire(key)]).value.handed| == |s.handed| + 1
            && (YoungWhenever(cfg, events + [Acquire(key)], |s.handed|) <==> Taken(cfg, s, key).1 == [])
  {
    var s := Run(cfg, events).value;
    var i := |s.handed|;
    var more := events + [Acquire(key)];
    Then(cfg, events, s, Acquire(key));
    TakenIsHanded(cfg, s, key);
    var t := OnAcquire(cfg, s, key);
    hide Run, OnAcquire, Taken, YoungBack;
    assert Run(cfg, more) == Some(t);
    if t.handed[i].waits {
      PendingComesBackOld(cfg, more, i);
      assert !YoungWhenever(cfg, more, i);
    } else {
      forall rest | Run(cfg, more + rest).Some? && i < |Run(cfg, more + rest).value.handed|
        ensures YoungBack(cfg, Run(cfg, more + rest).value.handed[i])
      {
        RunKeepsHanded(cfg, more, rest, i);
        YoungUnlessWaiting(cfg, more + rest, i);
      }
    }
  }

  lemma TakenIsHanded(cfg: Config, s: State, key: Key)
    requires Taken(cfg, s, key).0.Some?
    ensures var (conn, expired) := Taken(cfg, s, key);
            OnAcquire(cfg, s, key).handed == s.handed + [Popped(conn.value, s.now, expired != [])]
  {
    hide Kept, Expired, Ids;
  }

  lemma YoungUnlessWaiting(cfg: Config, events: seq<Event>, i: nat)
    requires Run(cfg, events).Some? && i < |Run(cfg, events).value.handed|
    requires !Run(cfg, events).value.handed[i].waits
    ensures YoungBack(cfg, Run(cfg, events).value.handed[i])
  {
    HandedOnceAndYoung(cfg, events);
    assert Run(cfg, events).value.handed[i] in Run(cfg, events).value.handed;
    hide Run;
  }

  // ---- The pools that never give back an old one ------------------------------------------------

  // All entries of a slot have the same age.
  ghost predicate SameAge(conns: seq<Pooled>)
  {
    forall c, d | c in conns && d in conns :: c.created == d.created
  }

  ghost predicate NobodyWaits(s: State)
  {
    && (forall k | k in s.slots :: SameAge(s.slots[k].conns))
    && (forall h | h in s.handed :: !h.waits)
  }

  lemma {:induction false} AgesTogether(conns: seq<Pooled>, ttl: nat, now: Time)
    requires SameAge(conns)
    ensures SameAge(Kept(conns, ttl, now))
    ensures Kept(conns, ttl, now) == [] || Expired(conns, ttl, now) == []
  {
    ExpiryPartitions(conns, ttl, now);
    var kept, expired := Kept(conns, ttl, now), Expired(conns, ttl, now);
    assert kept != [] ==> kept[0] in kept;
    assert expired != [] ==> expired[0] in expired;
  }

  // With room for one, or without a ttl, a pushed connection finds nothing older.
  lemma PushKeepsAge(cfg: Config, conns: seq<Pooled>, c: Pooled, now: Time)
    requires cfg.size < 2 || cfg.ttl == 0
    requires SameAge(conns) && c.created == now && forall d | d in conns :: d.created <= now
    ensures var kept := Kept(conns, cfg.ttl, now); |kept| < cfg.size ==> SameAge(kept + [c])
  {
    ExpiryPartitions(conns, cfg.ttl, now);
  }

  lemma AcquireKeepsAge(cfg: Config, s: State, key: Key)
    requires NobodyWaits(s)
    ensures NobodyWaits(OnAcquire(cfg, s, key))
  {
    hide Kept, Expired, Ids;
    if !(key.1 && !cfg.servesMedia) && key in s.slots {
      var conns := s.slots[key].conns;
      AgesTogether(conns, cfg.ttl, s.now);
      AcquireFrom(cfg, s, key);
      var kept := Kept(conns, cfg.ttl, s.now);
      if kept != [] {
        assert forall c | c in kept[..|kept| - 1] :: c in kept;
      }
    } else {
      AcquireNothing(cfg, s, key, map[]);
    }
  }

  lemma FillKeepsAge(cfg: Config, s: State, t: nat)
    requires cfg.size < 2 || cfg.ttl == 0
    requires NobodyWaits(s) && t in s.fills && s.fills[t].Connected?
    requires forall k, c | k in s.slots && c in s.slots[k].conns :: c.created <= s.now
    ensures NobodyWaits(OnPush(cfg, s, t))
  {
    hide Kept, Expired, Ids, AfterAttempt, SameAge;
    var f := s.fills[t];
    var conns := SlotOf(s.slots, f.key, s.now).conns;
    NothingAges();
    AgesTogether(conns, cfg.ttl, s.now);
    PushKeepsAge(cfg, conns, Pooled(f.ws, s.now, f.via), s.now);
  }

  lemma NothingAges()
    ensures SameAge([])
  {
  }

  lemma OthersKeepAge(cfg: Config, s: State, e: Event)
    requires NobodyWaits(s) && Step(cfg, s, e).Some? && !e.Acquire? && !e.Push?
    ensures NobodyWaits(Step(cfg, s, e).value)
  {
    hide Kept, Expired, Ids, AfterAttempt, SameAge;
    NothingAges();
    if e.Reap? {
      forall k | k in s.slots ensures SameAge(Kept(s.slots[k].conns, cfg.ttl, s.now)) {
        AgesTogether(s.slots[k].conns, cfg.ttl, s.now);
      }
    }
    if e.Return? {
      assert s.handed[e.handout] in s.handed;
    }
  }

  lemma {:induction false} NobodyEverWaits(cfg: Config, events: seq<Event>)
    requires (cfg.size < 2 || cfg.ttl == 0) && Run(cfg, events).Some?
    ensures NobodyWaits(Run(cfg, events).value)
    decreases |events|
  {
    if events != [] {
      var before, e := events[..|events| - 1], events[|events| - 1];
      NobodyEverWaits(cfg, before);
      var s := Run(cfg, before).value;
      match e {
        case Acquire(key) => AcquireKeepsAge(cfg, s, key);
        case Push(t) =>
          EntriesAreOlder(cfg, before);
          FillKeepsAge(cfg, s, t);
        case _ => OthersKeepAge(cfg, s, e);
      }
    }
  }

  lemma EntriesAreOlder(cfg: Config, events: seq<Event>)
    requires Run(cfg, events).Some?
    ensures var s := Run(cfg, events).value;
            forall k, c | k in s.slots && c in s.slots[k].conns :: c.created <= s.now
  {
    var place := RunKeepsInv(cfg, events);
    var s := Run(cfg, events).value;
    hide Run;
    forall k, c | k in s.slots && c in s.slots[k].conns ensures c.created <= s.now {
      assert SlotOk(cfg, s, place, k);
    }
  }

  ghost predicate AllYoungBack(cfg: Config)
  {
    forall events, i: nat ::
      Run(cfg, events).Some? && i < |Run(cfg, events).value.handed| ==> YoungBack(cfg, Run(cfg, events).value.handed[i])
  }

  // Which pools promise it: no caller ever gets a connection older than the ttl, in any run,
  // if and only if the slots hold at most one, or the ttl is zero.
  lemma AllYoungBackIff(cfg: Config)
    ensures AllYoungBack(cfg) <==> cfg.size < 2 || cfg.ttl == 0
  {
    hide Run, YoungBack;
    if cfg.size < 2 || cfg.ttl == 0 {
      forall events, i: nat | Run(cfg, events).Some? && i < |Run(cfg, events).value.handed|
        ensures YoungBack(cfg, Run(cfg, events).value.handed[i])
      {
        NobodyEverWaits(cfg, events);
        assert Run(cfg, events).value.handed[i] in Run(cfg, events).value.handed;
        YoungUnlessWaiting(cfg, events, i);
      }
    } else {
      OldOnReturn(cfg, (2, false), "");
    }
  }

  // One fill that connects twice, a second apart.
  function Filled(cfg: Config, key: Key, via: string): seq<Event>
  {
    [Refill(0, key)] + [ConnectDone(0, via)] + [Push(0)] + [Tick(1)] + [ConnectDone(0, via)] + [Push(0)]
  }

  // Every other pool can: the ttl later one entry has expired, the other is popped just
  // young, and closing the first takes a second.
  lemma OldOnReturn(cfg: Config, key: Key, via: string)
    requires cfg.size >= 2 && cfg.ttl >= 1 && (key.1 ==> cfg.servesMedia)
    ensures var s := Run(cfg, Filled(cfg, key, via) + [Tick(cfg.ttl)] + [Acquire(key)] + [Tick(1)] + [Return(0)]);
            && s.Some? && s.value.handed == [Handout(1, 1, cfg.ttl + 1, true, Some(cfg.ttl + 2))]
            && !YoungBack(cfg, s.value.handed[0])
  {
    var filled := Filled(cfg, key, via);
    var s6 := TwoPooled(cfg, key, via);
    var h := Popped(Pooled(1, 1, via), cfg.ttl + 1, true);
    hide Run, OnAcquire, Filled;
    var s7 := s6.(now := cfg.ttl + 1);
    Then(cfg, filled, s6, Tick(cfg.ttl));
    var s8 := PopsSecond(cfg, s7, key, via);
    Then(cfg, filled + [Tick(cfg.ttl)], s7, Acquire(key));
    var s9 := s8.(now := cfg.ttl + 2);
    Then(cfg, filled + [Tick(cfg.ttl)] + [Acquire(key)], s8, Tick(1));
    Then(cfg, filled + [Tick(cfg.ttl)] + [Acquire(key)] + [Tick(1)], s9, Return(0));
    assert OnReturn(s9, 0).handed == [h.(back := Some(cfg.ttl + 2))];
  }

  lemma PopsSecond(cfg: Config, s: State, key: Key, via: string) returns (t: State)
    requires (key.1 ==> cfg.servesMedia) && cfg.ttl >= 1 && key in s.slots && s.now == cfg.ttl + 1 && s.handed == []
    requires s.slots[key].conns == [Pooled(0, 0, via), Pooled(1, 1, via)]
    ensures t == OnAcquire(cfg, s, key) && t.now == s.now
    ensures t.handed == [Popped(Pooled(1, 1, via), cfg.ttl + 1, true)]
  {
    FirstExpires(Pooled(0, 0, via), Pooled(1, 1, via), cfg.ttl);
    AcquireFrom(cfg, s, key);
    hide Kept, Expired, Ids, OnAcquire;
    t := OnAcquire(cfg, s, key);
  }

  lemma FirstExpires(a: Pooled, b: Pooled, ttl: nat)
    requires a.created == 0 && b.created == 1 && ttl >= 1
    ensures Kept([a, b], ttl, ttl + 1) == [b] && Expired([a, b], ttl, ttl + 1) == [a]
  {
    assert [a, b][1..] == [b] && [b][1..] == [];
    assert Kept([b], ttl, ttl + 1) == [b] && Expired([b], ttl, ttl + 1) == [];
  }

  lemma AllYoung(a: Pooled, ttl: nat)
    requires a.created == 0 && ttl >= 1
    ensures Kept([], ttl, 0) == [] && Expired([], ttl, 0) == []
    ensures Kept([a], ttl, 1) == [a] && Expired([a], ttl, 1) == []
  {
    assert [a][1..] == [];
  }

  // A push that finds everything young, and room.
  lemma Pushes(cfg: Config, s: State, t: nat)
    requires t in s.fills && s.fills[t].Connected? && s.fills[t].key in s.slots
    requires var conns := s.slots[s.fills[t].key].conns;
             && Kept(conns, cfg.ttl, s.now) == conns && Expired(conns, cfg.ttl, s.now) == [] && |conns| < cfg.size
    ensures var f := s.fills[t];
            var slot := s.slots[f.key];
            OnPush(cfg, s, t) ==
            s.(slots := s.slots[f.key := slot.(conns := slot.conns + [Pooled(f.ws, s.now, f.via)])],
               fills := AfterAttempt(s.fills, t))
  {
    hide Kept, Expired, AfterAttempt;
    assert s.closed + Ids([]) + {} == s.closed;
  }

  lemma TwoPooled(cfg: Config, key: Key, via: string) returns (s: State)
    requires cfg.size >= 2 && cfg.ttl >= 1
    ensures && Run(cfg, Filled(cfg, key, via)) == Some(s) && s.now == 1 && s.handed == [] && key in s.slots
            && s.slots[key].conns == [Pooled(0, 0, via), Pooled(1, 1, via)]
  {
    var a := Pooled(0, 0, via);
    AllYoung(a, cfg.ttl);
    var e1 := [Refill(0, key)];
    var e3 := e1 + [ConnectDone(0, via)] + [Push(0)];
    var s3 := OnePooled(cfg, key, via);
    hide Run;
    var s4 := s3.(now := 1);
    Then(cfg, e3, s3, Tick(1));
    s := ConnectsAndPushes(cfg, e3 + [Tick(1)], s4, via);
    assert [a] + [Pooled(1, 1, via)] == [a, Pooled(1, 1, via)];
  }

  lemma OnePooled(cfg: Config, key: Key, via: string) returns (s: State)
    requires cfg.size >= 2 && cfg.ttl >= 1
    ensures Run(cfg, [Refill(0, key)] + [ConnectDone(0, via)] + [Push(0)]) == Some(s)
    ensures s == State(map[key := Slot([Pooled(0, 0, via)], 0)], 0, map[0 := Connecting(key, cfg.size - 1)], 1, [], {})
  {
    RunsNothing(cfg);
    AllYoung(Pooled(0, 0, via), cfg.ttl);
    var e1 := [Refill(0, key)];
    var s1 := State(map[key := Slot([], 0)], 0, map[0 := Connecting(key, cfg.size)], 0, [], {});
    hide Run;
    assert Step(cfg, Init(), Refill(0, key)) == Some(s1);
    Then(cfg, [], Init(), Refill(0, key));
    assert [] + e1 == e1;
    s := ConnectsAndPushes(cfg, e1, s1, via);
    assert [] + [Pooled(0, 0, via)] == [Pooled(0, 0, via)];
  }

  lemma ConnectsAndPushes(cfg: Config, events: seq<Event>, s: State, via: string) returns (t: State)
    requires Run(cfg, events) == Some(s) && 0 in s.fills && s.fills[0].Connecting? && s.fills[0].key in s.slots
    requires var conns := s.slots[s.fills[0].key].conns;
             && Kept(conns, cfg.ttl, s.now) == conns && Expired(conns, cfg.ttl, s.now) == [] && |conns| < cfg.size
    ensures Run(cfg, events + [ConnectDone(0, via)] + [Push(0)]) == Some(t)
    ensures var f := s.fills[0];
            var slot := s.slots[f.key];
            var u := OnConnected(s, 0, via);
            t == u.(slots := u.slots[f.key := slot.(conns := slot.conns + [Pooled(s.next, s.now, via)])],
                    fills := AfterAttempt(u.fills, 0))
  {
    hide Run, OnPush, AfterAttempt, Kept, Expired;
    var u := OnConnected(s, 0, via);
    Then(cfg, events, s, ConnectDone(0, via));
    Pushes(cfg, u, 0);
    t := OnPush(cfg, u, 0);
    Then(cfg, events + [ConnectDone(0, via)], u, Push(0));
  }

  lemma RunsNothing(cfg: Config)
    ensures Run(cfg, []) == Some(Init())
  {
  }

  // ---- Which slots are kept warm ----------------------------------------------------------

  function Clock(events: seq<Event>): Time
  {
    if events == [] then 0
    else
      var e := events[|events| - 1];
      Clock(events[..|events| - 1]) + if e.Tick? then e.secs else 0
  }

  // When the key was last refilled or asked for, by the events alone. Only a refill opens a
  // slot; asking for media connections of a pool that serves none is no use of it.
  function LastUse(cfg: Config, events: seq<Event>, key: Key): Option<Time>
  {
    if events == [] then None
    else
      var before, e := events[..|events| - 1], events[|events| - 1];
      var last := LastUse(cfg, before, key);
      match e
      case Refill(_, k) => if k == key then Some(Clock(before)) else last
      case Acquire(k) =>
        if k == key && last.Some? && (cfg.servesMedia || !key.1) then Some(Clock(before)) else last
      case _ => last
  }

  ghost predicate UseOk(s: State, key: Key, last: Option<Time>)
  {
    && (key in s.slots <==> last.Some?)
    && (last.Some? ==> s.slots[key].lastUsed == last.value)
  }

  // Every fill is for a slot that is there.
  ghost predicate FillsHaveSlots(s: State)
  {
    forall t | t in s.fills :: s.fills[t].key in s.slots
  }

  lemma StepKeepsFills(cfg: Config, s: State, e: Event)
    requires FillsHaveSlots(s) && Step(cfg, s, e).Some?
    ensures FillsHaveSlots(Step(cfg, s, e).value)
  {
    hide Kept, Expired, ExpiredIds, Ids;
  }

  lemma StepKeepsUse(cfg: Config, s: State, e: Event, key: Key, last: Option<Time>)
    requires FillsHaveSlots(s) && UseOk(s, key, last) && Step(cfg, s, e).Some?
    ensures var t := Step(cfg, s, e).value;
            && t.now == s.now + (if e.Tick? then e.secs else 0)
            && UseOk(t, key,
                     match e
                     case Refill(_, k) => if k == key then Some(s.now) else last
                     case Acquire(k) =>
                       if k == key && last.Some? && (cfg.servesMedia || !key.1) then Some(s.now) else last
                     case _ => last)
  {
    hide Kept, Expired, ExpiredIds, Ids, AfterAttempt;
  }

  lemma {:induction false} RunKeepsUse(cfg: Config, events: seq<Event>, key: Key)
    requires Run(cfg, events).Some?
    ensures var s := Run(cfg, events).value;
            FillsHaveSlots(s) && UseOk(s, key, LastUse(cfg, events, key)) && s.now == Clock(events)
  {
    hide Step, UseOk, FillsHaveSlots;
    if events == [] {
      NothingUsed(key);
    } else {
      var before, e := events[..|events| - 1], events[|events| - 1];
      RunKeepsUse(cfg, before, key);
      StepKeepsFills(cfg, Run(cfg, before).value, e);
      StepKeepsUse(cfg, Run(cfg, before).value, e, key, LastUse(cfg, before, key));
    }
  }

  lemma NothingUsed(key: Key)
    ensures FillsHaveSlots(Init()) && UseOk(Init(), key, None)
  {
  }

  // The slots kept warm are exactly those used within the last ten minutes, in every run.
  lemma WarmExactly(cfg: Config, events: seq<Event>, key: Key)
    requires Run(cfg, events).Some?
    ensures var s := Run(cfg, events).value;
            var last := LastUse(cfg, events, key);
            key in ReapLocked(s.slots, cfg.ttl, s.now).1 <==> last.Some? && Clock(events) <= last.value + 600
  {
    hide Run, LastUse, Clock;
    RunKeepsUse(cfg, events, key);
  }

  // A refill asks for what is missing to the size, in every run.
  lemma RefillCompletes(cfg: Config, events: seq<Event>, key: Key)
    requires Run(cfg, events).Some?
    ensures var s := Run(cfg, events).value;
            var held := if key in s.slots then |s.slots[key].conns| else 0;
            held + RefillLocked(s.slots, key, cfg.size, s.now).1 == cfg.size
  {
    hide Run;
    var place := RunKeepsInv(cfg, events);
    SlotFits(cfg, Run(cfg, events).value, place, key);
  }

  lemma SlotFits(cfg: Config, s: State, place: map<SocketId, Place>, key: Key)
    requires Inv(cfg, s, place)
    ensures key in s.slots ==> |s.slots[key].conns| <= cfg.size
  {
    hide PlaceOk, HandoutOk, Distinct;
  }
}
