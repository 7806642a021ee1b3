/**
 The fallback domains over whole runs: configuration, reloads and hourly refreshes of the
 list, and sessions that pick, connect and fail, in any order.
 */
module CfRuns {
  import opened CfBalancer
  import opened DomainPool
  import opened Text
  import opened Wrappers

  const MIN_VALID_DOMAINS: nat := 3

  // `builtIn` below stands for any proper list, as the built-in one is (`DefaultsAreProper`).

  // `live` is the list a reload read before it applied the file; `offered` says which names
  // were ever selected for which DC.
  datatype State = State(pool: Pool, live: seq<string>, offered: set<(int, string)>)

  datatype Action =
    | Configure(raw: seq<string>)
    | SeedDefaults
    | Fetched(lines: seq<string>)
    | ReadLive
    | Reloaded(file: seq<string>, auto: bool)
    | Session(event: Event)

  function Init(): State
  {
    State(Pool([], map[], Cursors(map[], 0)), [], {})
  }

  // The list a reload leaves: the file's, or with automatic domains and none in the file the
  // list that was live, or the built-in one.
  function AfterReload(builtIn: seq<string>, file: seq<string>, live: seq<string>, auto: bool): seq<string>
  {
    if file != [] || !auto then file else if live == [] then builtIn else live
  }

  // A session reports only a domain it was given, and what was given to it came from a
  // selection for its DC.
  function Step(builtIn: seq<string>, s: State, a: Action): Option<State>
  {
    match a
    case Configure(raw) => Some(s.(pool := Refreshed(s.pool, Normalized(raw))))
    case SeedDefaults => Some(s.(pool := Refreshed(s.pool, builtIn)))
    case Fetched(lines) =>
      var list := Normalized(lines);
      Some(if |list| >= MIN_VALID_DOMAINS then s.(pool := Refreshed(s.pool, list)) else s)
    case ReadLive => Some(s.(live := s.pool.domains))
    case Reloaded(file, auto) =>
      Some(s.(pool := Refreshed(s.pool, AfterReload(builtIn, Normalized(file), s.live, auto))))
    case Session(e) =>
      if e.Connect? && (e.dc, e.domain) !in s.offered then None
      else Some(s.(pool := Apply(s.pool, e), offered := s.offered + OfferedBy(s.pool, e)))
  }

  function OfferedBy(p: Pool, e: Event): set<(int, string)>
  {
    if e.Pick? then set d | d in Selected(p, e.dc).0 :: (e.dc, d) else {}
  }

  function Run(builtIn: seq<string>, s: State, actions: seq<Action>): Option<State>
    decreases |actions|
  {
    if actions == [] then Some(s)
    else
      match Step(builtIn, s, actions[0])
      case None => None
      case Some(t) => Run(builtIn, t, actions[1..])
  }

  // ---- What every run keeps ---------------------------------------------------------------

  ghost predicate PoolOk(p: Pool)
  {
    Proper(p.domains) && forall dc | dc in p.sticky :: Canonical(p.sticky[dc])
  }

  ghost predicate OfferedOk(offered: set<(int, string)>)
  {
    forall o | o in offered :: Canonical(o.1)
  }

  ghost predicate Inv(s: State)
  {
    PoolOk(s.pool) && Proper(s.live) && OfferedOk(s.offered)
  }

  lemma InitInv()
    ensures Inv(Init())
  {
  }

  lemma RefreshKeepsPool(p: Pool, domains: seq<string>)
    requires PoolOk(p) && Proper(domains)
    ensures PoolOk(Refreshed(p, domains))
  {
    hide Proper, Canonical;
  }

  lemma PickKeepsPool(p: Pool, dc: int)
    requires PoolOk(p)
    ensures PoolOk(Selected(p, dc).1)
  {
    hide Proper, Canonical, StickySurvives, Promoted, Ordered;
  }

  lemma PickOffers(p: Pool, dc: int)
    requires PoolOk(p)
    ensures OfferedOk(OfferedBy(p, Pick(dc)))
  {
    SelectionIsPermutation(p, dc);
    hide Selected, StickySurvives, Canonical, Distinct;
  }

  lemma ConnectKeepsPool(p: Pool, dc: int, domain: string)
    requires PoolOk(p) && Canonical(domain)
    ensures Connected(p, dc, domain) == p.(sticky := p.sticky[dc := domain]) && PoolOk(Connected(p, dc, domain))
  {
    CanonicalIsRemembered(domain);
    hide Proper, Canonical, Lower, Trim;
  }

  lemma FailKeepsPool(p: Pool, dc: int, window: nat)
    requires PoolOk(p)
    ensures var q := Advanced(p, dc, window); PoolOk(q) && q.domains == p.domains && q.sticky == p.sticky - {dc}
  {
    hide Proper, Canonical, Entered, DomainAt;
  }

  // A canonical name is remembered as it is.
  lemma CanonicalIsRemembered(name: string)
    requires Canonical(name)
    ensures Lower(Trim(name)) == name && name != ""
  {
  }

  // What a session's report does to the state.
  lemma SessionStep(builtIn: seq<string>, s: State, e: Event)
    requires Step(builtIn, s, Session(e)).Some?
    ensures e.Connect? ==> (e.dc, e.domain) in s.offered
    ensures Step(builtIn, s, Session(e)).value ==
            match e
            case Pick(dc) => s.(pool := Selected(s.pool, dc).1, offered := s.offered + OfferedBy(s.pool, e))
            case Connect(dc, domain) => s.(pool := Connected(s.pool, dc, domain))
            case Fail(dc, window) => s.(pool := Advanced(s.pool, dc, window))
  {
    hide Selected, Connected, Advanced;
    assert e.Connect? || e.Fail? ==> s.offered + OfferedBy(s.pool, e) == s.offered;
  }

  lemma OfferedJoin(a: set<(int, string)>, b: set<(int, string)>)
    requires OfferedOk(a) && OfferedOk(b)
    ensures OfferedOk(a + b)
  {
    hide Canonical;
  }

  lemma WasOffered(s: State, dc: int, domain: string)
    requires Inv(s) && (dc, domain) in s.offered
    ensures Canonical(domain)
  {
    hide Canonical, PoolOk, Proper;
    assert (dc, domain).1 == domain;
  }

  lemma SessionKeepsInv(builtIn: seq<string>, s: State, e: Event)
    requires Inv(s) && Step(builtIn, s, Session(e)).Some?
    ensures Inv(Step(builtIn, s, Session(e)).value)
  {
    hide Step, PoolOk, Proper, OfferedOk, Canonical, OfferedBy, Selected, Connected, Advanced;
    SessionStep(builtIn, s, e);
    match e
    case Pick(dc) =>
      PickKeepsPool(s.pool, dc);
      PickOffers(s.pool, dc);
      OfferedJoin(s.offered, OfferedBy(s.pool, e));
    case Connect(dc, domain) =>
      WasOffered(s, dc, domain);
      ConnectKeepsPool(s.pool, dc, domain);
    case Fail(dc, window) => FailKeepsPool(s.pool, dc, window);
  }

  lemma StepKeepsInv(builtIn: seq<string>, s: State, a: Action)
    requires Proper(builtIn) && Inv(s) && Step(builtIn, s, a).Some?
    ensures Inv(Step(builtIn, s, a).value)
  {
    hide PoolOk, Proper, OfferedOk, Normalized, Apply, OfferedBy, Refreshed;
    match a
    case Configure(raw) =>
      NormalizedHolds(raw);
      RefreshKeepsPool(s.pool, Normalized(raw));
    case SeedDefaults =>
      RefreshKeepsPool(s.pool, builtIn);
    case Fetched(lines) =>
      NormalizedHolds(lines);
      RefreshKeepsPool(s.pool, Normalized(lines));
    case ReadLive => PoolIsProper(s.pool);
    case Reloaded(file, auto) =>
      NormalizedHolds(file);
      RefreshKeepsPool(s.pool, AfterReload(builtIn, Normalized(file), s.live, auto));
    case Session(e) => SessionKeepsInv(builtIn, s, e);
  }

  lemma PoolIsProper(p: Pool)
    requires PoolOk(p)
    ensures Proper(p.domains)
  {
    hide Proper, Canonical;
  }

  lemma {:induction false} RunKeepsInv(builtIn: seq<string>, s: State, actions: seq<Action>)
    requires Proper(builtIn) && Inv(s) && Run(builtIn, s, actions).Some?
    ensures Inv(Run(builtIn, s, actions).value)
    decreases |actions|
  {
    hide Inv, Step;
    if actions != [] {
      StepKeepsInv(builtIn, s, actions[0]);
      RunKeepsInv(builtIn, Step(builtIn, s, actions[0]).value, actions[1..]);
    }
  }

  // ---- The promises, in every state a run reaches ---------------------------------------------

  // Every selection is a permutation of the pool without repetition, a surviving sticky
  // first: no domain is ever left out, and none dialled twice.
  lemma SelectionInRuns(builtIn: seq<string>, actions: seq<Action>, dc: int)
    requires Proper(builtIn)
    requires Run(builtIn, Init(), actions).Some?
    ensures var p := Run(builtIn, Init(), actions).value.pool;
            var out := Selected(p, dc).0;
            && multiset(out) == multiset(p.domains) && Distinct(out)
            && (StickySurvives(p, dc) ==> out != [] && out[0] == p.sticky[dc])
  {
    InitInv();
    hide Run, Selected, StickySurvives, Distinct, Canonical;
    RunKeepsInv(builtIn, Init(), actions);
    DistinctSelection(Run(builtIn, Init(), actions).value.pool, dc);
  }

  lemma DistinctSelection(p: Pool, dc: int)
    requires Distinct(p.domains)
    ensures var out := Selected(p, dc).0;
            && multiset(out) == multiset(p.domains) && Distinct(out)
            && (StickySurvives(p, dc) ==> out != [] && out[0] == p.sticky[dc])
  {
    hide Selected, StickySurvives, Distinct;
    SelectionIsPermutation(p, dc);
    forall x ensures multiset(Selected(p, dc).0)[x] <= 1 {
      DistinctCounts(p.domains, x);
    }
    CountsDistinct(Selected(p, dc).0);
  }

  // No session of `dc` reports anything.
  predicate Undisturbed(actions: seq<Action>, dc: int)
  {
    forall a | a in actions :: a.Session? && a.event.dc == dc ==> a.event.Pick?
  }

  lemma StickyStays(builtIn: seq<string>, s: State, a: Action, dc: int)
    requires Step(builtIn, s, a).Some? && dc in s.pool.sticky
    requires a.Session? && a.event.dc == dc ==> a.event.Pick?
    ensures var p := Step(builtIn, s, a).value.pool; dc in p.sticky && p.sticky[dc] == s.pool.sticky[dc]
  {
    hide Normalized, Lower, Trim, Ordered, Promoted, OfferedBy, StickySurvives, Entered, DomainAt;
  }

  lemma {:induction false} StickyStaysInRuns(builtIn: seq<string>, s: State, actions: seq<Action>, dc: int)
    requires Run(builtIn, s, actions).Some? && dc in s.pool.sticky && Undisturbed(actions, dc)
    ensures var p := Run(builtIn, s, actions).value.pool; dc in p.sticky && p.sticky[dc] == s.pool.sticky[dc]
    decreases |actions|
  {
    hide Step;
    if actions != [] {
      assert actions[0] in actions && forall a | a in actions[1..] :: a in actions;
      StickyStays(builtIn, s, actions[0], dc);
      StickyStaysInRuns(builtIn, Step(builtIn, s, actions[0]).value, actions[1..], dc);
    }
  }

  lemma {:induction false} RunTwice(builtIn: seq<string>, s: State, a: seq<Action>, b: seq<Action>)
    requires Run(builtIn, s, a + b).Some?
    ensures Run(builtIn, s, a).Some? && Run(builtIn, s, a + b) == Run(builtIn, Run(builtIn, s, a).value, b)
    decreases |a|
  {
    hide Step;
    if a == [] {
      assert a + b == b;
    } else {
      assert (a + b)[1..] == a[1..] + b && (a + b)[0] == a[0];
      RunTwice(builtIn, Step(builtIn, s, a[0]).value, a[1..], b);
    }
  }

  // A domain that connected is the first choice of its DC if and only if the pool lists it,
  // in every state from then on until the DC reports again: whatever other DCs do, and
  // whatever refreshes and reloads do to the list, also when they drop it and bring it back.
  lemma ConnectedStaysFirst(builtIn: seq<string>, before: seq<Action>, dc: int, domain: string, after: seq<Action>)
    requires Proper(builtIn)
    requires Run(builtIn, Init(), before + ([Session(Connect(dc, domain))] + after)).Some? && Undisturbed(after, dc)
    ensures var p := Run(builtIn, Init(), before + ([Session(Connect(dc, domain))] + after)).value.pool;
            var out := Selected(p, dc).0;
            && dc in p.sticky && p.sticky[dc] == domain
            && (out != [] && out[0] == domain <==> domain in p.domains)
  {
    InitInv();
    hide *;
    var a := Session(Connect(dc, domain));
    RunTwice(builtIn, Init(), before, [a] + after);
    var s := Run(builtIn, Init(), before).value;
    RunKeepsInv(builtIn, Init(), before);
    RunFirst(builtIn, s, a, after);
    var t := ConnectIsRemembered(builtIn, s, dc, domain);
    StickyStaysInRuns(builtIn, t, after, dc);
    SelectionListsFirst(Run(builtIn, t, after).value.pool, dc, domain);
  }

  lemma RunFirst(builtIn: seq<string>, s: State, a: Action, rest: seq<Action>)
    requires Run(builtIn, s, [a] + rest).Some?
    ensures Step(builtIn, s, a).Some? && Run(builtIn, s, [a] + rest) == Run(builtIn, Step(builtIn, s, a).value, rest)
  {
    hide Step;
    assert ([a] + rest)[1..] == rest;
  }

  lemma ConnectIsRemembered(builtIn: seq<string>, s: State, dc: int, domain: string) returns (t: State)
    requires Inv(s) && Step(builtIn, s, Session(Connect(dc, domain))).Some?
    ensures Step(builtIn, s, Session(Connect(dc, domain))) == Some(t)
    ensures dc in t.pool.sticky && t.pool.sticky[dc] == domain
  {
    hide Step, PoolOk, Proper, OfferedOk, Canonical, OfferedBy, Selected, Connected, Advanced;
    SessionStep(builtIn, s, Connect(dc, domain));
    WasOffered(s, dc, domain);
    ConnectKeepsPool(s.pool, dc, domain);
    t := Step(builtIn, s, Session(Connect(dc, domain))).value;
  }

  lemma SelectionListsFirst(p: Pool, dc: int, domain: string)
    requires dc in p.sticky && p.sticky[dc] == domain
    ensures var out := Selected(p, dc).0; out != [] && out[0] == domain <==> domain in p.domains
  {
    SelectionIsPermutation(p, dc);
    hide Selected;
    var out := Selected(p, dc).0;
    if out != [] {
      assert out[0] in out;
    }
  }

  // A sticky domain that failed is never the first choice of the next session, in a pool of
  // at least two.
  lemma FailedIsNotFirst(builtIn: seq<string>, actions: seq<Action>, dc: int, window: nat)
    requires Proper(builtIn)
    requires Run(builtIn, Init(), actions).Some?
    requires var p := Run(builtIn, Init(), actions).value.pool; |p.domains| >= 2 && dc in p.sticky
    ensures var p := Run(builtIn, Init(), actions).value.pool;
            var q := Run(builtIn, Init(), actions + [Session(Fail(dc, window))]);
            && q.Some? && dc !in q.value.pool.sticky
            && Selected(q.value.pool, dc).0 != [] && Selected(q.value.pool, dc).0[0] != p.sticky[dc]
  {
    InitInv();
    hide Step, Run, Selected, Advanced, Landed, Canonical, Distinct;
    RunKeepsInv(builtIn, Init(), actions);
    var s := Run(builtIn, Init(), actions).value;
    RunOneMore(builtIn, Init(), actions, Session(Fail(dc, window)));
    FailSteps(builtIn, s, dc, window);
    FailKeepsPool(s.pool, dc, window);
    FailedStickyIsNotFirst(s.pool, dc, window);
  }

  lemma FailSteps(builtIn: seq<string>, s: State, dc: int, window: nat)
    ensures var t := Step(builtIn, s, Session(Fail(dc, window)));
            t.Some? && t.value.pool == Advanced(s.pool, dc, window)
  {
    hide Advanced;
  }

  lemma {:induction false} RunOneMore(builtIn: seq<string>, s: State, actions: seq<Action>, a: Action)
    requires Run(builtIn, s, actions).Some?
    ensures Run(builtIn, s, actions + [a]) == Step(builtIn, Run(builtIn, s, actions).value, a)
    decreases |actions|
  {
    hide Step;
    if actions == [] {
      assert [] + [a] == [a] && [a][1..] == [];
      if Step(builtIn, s, a).Some? {
        assert Run(builtIn, Step(builtIn, s, a).value, []) == Step(builtIn, s, a);
      }
    } else {
      assert (actions + [a])[1..] == actions[1..] + [a] && (actions + [a])[0] == actions[0];
      RunOneMore(builtIn, Step(builtIn, s, actions[0]).value, actions[1..], a);
    }
  }

  // ---- Refreshes leave the rotation alone ---------------------------------------------------

  // No session acts.
  predicate OnlyRefreshes(actions: seq<Action>)
  {
    forall a | a in actions :: !a.Session?
  }

  lemma RefreshStep(builtIn: seq<string>, s: State, a: Action)
    requires !a.Session?
    ensures var t := Step(builtIn, s, a);
            t.Some? && t.value.pool.sticky == s.pool.sticky && t.value.pool.cursors == s.pool.cursors
  {
    hide Normalized, AfterReload;
  }

  lemma {:induction false} RefreshesKeepPlaces(builtIn: seq<string>, s: State, actions: seq<Action>)
    requires OnlyRefreshes(actions)
    ensures var t := Run(builtIn, s, actions);
            t.Some? && t.value.pool.sticky == s.pool.sticky && t.value.pool.cursors == s.pool.cursors
    decreases |actions|
  {
    hide Step;
    if actions != [] {
      assert actions[0] in actions && forall a | a in actions[1..] :: a in actions;
      RefreshStep(builtIn, s, actions[0]);
      RefreshesKeepPlaces(builtIn, Step(builtIn, s, actions[0]).value, actions[1..]);
    }
  }

  // Refreshes and reloads that end with the list they began with leave every selection, and
  // what it does to the cursors, as it was: also when the list was another one in between.
  lemma RefreshIsUnseen(builtIn: seq<string>, s: State, actions: seq<Action>, dc: int)
    requires OnlyRefreshes(actions)
    requires Run(builtIn, s, actions).Some? ==> Run(builtIn, s, actions).value.pool.domains == s.pool.domains
    ensures Run(builtIn, s, actions).Some?
    ensures Selected(Run(builtIn, s, actions).value.pool, dc) == Selected(s.pool, dc)
  {
    hide Run, Selected;
    RefreshesKeepPlaces(builtIn, s, actions);
    assert Run(builtIn, s, actions).value.pool == s.pool;
  }

  function EventsOf(actions: seq<Action>): seq<Event>
  {
    if actions == [] then []
    else (if actions[0].Session? then [actions[0].event] else []) + EventsOf(actions[1..])
  }

  // The list is the same one throughout.
  predicate ListStays(builtIn: seq<string>, s: State, actions: seq<Action>, list: seq<string>)
    requires Run(builtIn, s, actions).Some?
    decreases |actions|
  {
    && s.pool.domains == list
    && (actions == [] || ListStays(builtIn, Step(builtIn, s, actions[0]).value, actions[1..], list))
  }

  // Every domain in a window of a session of `dc` along the run.
  function WindowsOf(builtIn: seq<string>, s: State, actions: seq<Action>, dc: int, attempts: nat): set<string>
    requires Run(builtIn, s, actions).Some?
    decreases |actions|
  {
    if actions == [] then {}
    else (if actions[0] == Session(Pick(dc)) then set d | d in Window(s.pool, dc, attempts) else {})
         + WindowsOf(builtIn, Step(builtIn, s, actions[0]).value, actions[1..], dc, attempts)
  }

  lemma {:induction false} RefreshesDropOut(builtIn: seq<string>, s: State, actions: seq<Action>, dc: int,
                                            attempts: nat)
    requires Run(builtIn, s, actions).Some? && ListStays(builtIn, s, actions, s.pool.domains)
    ensures WindowsOf(builtIn, s, actions, dc, attempts) == InWindows(s.pool, EventsOf(actions), dc, attempts)
    decreases |actions|
  {
    hide Step, Window, Apply;
    if actions != [] {
      var a, rest := actions[0], actions[1..];
      var t := Step(builtIn, s, a).value;
      assert t.pool.domains == s.pool.domains;
      RefreshesDropOut(builtIn, t, rest, dc, attempts);
      if a.Session? {
        SessionApplies(builtIn, s, a.event);
        assert EventsOf(actions)[1..] == EventsOf(rest);
      } else {
        RefreshStep(builtIn, s, a);
        assert t.pool == s.pool;
        assert EventsOf(actions) == EventsOf(rest);
      }
    }
  }

  lemma SessionApplies(builtIn: seq<string>, s: State, e: Event)
    requires Step(builtIn, s, Session(e)).Some?
    ensures Step(builtIn, s, Session(e)).value.pool == Apply(s.pool, e)
  {
    hide Apply;
  }

  // Failing sessions of one DC go round the whole pool however often the list is refreshed
  // between and during them, as long as it stays the same list.
  lemma CoverageAcrossRefreshes(builtIn: seq<string>, s: State, actions: seq<Action>, dc: int, attempts: nat)
    requires Run(builtIn, s, actions).Some? && ListStays(builtIn, s, actions, s.pool.domains)
    requires attempts > 0 && s.pool.domains != [] && dc !in s.pool.sticky
    requires var w := Smaller(attempts, |s.pool.domains|);
             && AllFail(EventsOf(actions), dc, w, false)
             && Sessions(EventsOf(actions), dc) == (|s.pool.domains| + w - 1) / w
    ensures forall d | d in s.pool.domains :: d in WindowsOf(builtIn, s, actions, dc, attempts)
  {
    hide Run, AllFail, Sessions, EventsOf, ListStays, InWindows, WindowsOf;
    RefreshesDropOut(builtIn, s, actions, dc, attempts);
    FailureCoverage(s.pool, EventsOf(actions), dc, attempts);
  }

  // A reload reads the list that is live, applies the file, and then puts the list in place
  // that belongs there: with automatic domains and no valid domain in the file the one that was
  // live, cursors and stickies with it, and never an empty one.
  lemma ReloadKeepsLive(builtIn: seq<string>, s: State, file: seq<string>)
    requires builtIn != []
    ensures var t := Run(builtIn, s, [ReadLive, Configure(file), Reloaded(file, true)]);
            && t.Some? && t.value.pool.domains != []
            && ((forall raw | raw in file :: !IsValidDomain(Item(raw))) && s.pool.domains != [] ==>
                  t.value.pool == s.pool)
  {
    hide IsValidDomain, Item, Normalized;
    RunThree(builtIn, s, ReadLive, Configure(file), Reloaded(file, true));
    NormalizedHolds(file);
    FirstIsIn(Normalized(file));
  }

  lemma FirstIsIn(list: seq<string>)
    ensures list != [] ==> list[0] in list
  {
  }

  lemma RunThree(builtIn: seq<string>, s: State, a: Action, b: Action, c: Action)
    requires !a.Session? && !b.Session? && !c.Session?
    ensures var t := Step(builtIn, s, a).value;
            var u := Step(builtIn, t, b).value;
            Run(builtIn, s, [a, b, c]) == Step(builtIn, u, c)
  {
    hide Normalized, AfterReload;
    var all := [a, b, c];
    assert all[1..] == [b, c] && all[1..][1..] == [c] && all[1..][1..][1..] == [];
    var t := Step(builtIn, s, a).value;
    var u := Step(builtIn, t, b).value;
    hide Step;
    assert Run(builtIn, u, [c]) == Step(builtIn, u, c);
  }
}
