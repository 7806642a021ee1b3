/** Round-robin selection over fallback domains: per-DC cursor, sticky entry, refreshes. */
module CfBalancer {
  import opened Modular
  import opened Text
  import opened Wrappers

  const WORD: nat := 0x1_0000_0000_0000_0000

  // ---- The selection state as a value ------------------------------------------------

  datatype Cursors = Cursors(idx: map<int, nat>, rr: nat)

  datatype Pool = Pool(domains: seq<string>, sticky: map<int, string>, cursors: Cursors)

  // The first use of a DC draws its cursor from the shared round-robin counter.
  function Entered(c: Cursors, dc: int, len: nat): Cursors
    requires len > 0
  {
    if dc in c.idx then c else Cursors(c.idx[dc := c.rr % len], (c.rr + 1) % WORD)
  }

  function Rotation(domains: seq<string>, start: nat): (r: seq<string>)
    requires start < |domains|
    ensures |r| == |domains|
  {
    domains[start..] + domains[..start]
  }

  // A list of at most one entry never touches the cursors.
  function Ordered(c: Cursors, domains: seq<string>, dc: int): (seq<string>, Cursors)
  {
    if |domains| <= 1 then (domains, c)
    else
      var next := Entered(c, dc, |domains|);
      (Rotation(domains, next.idx[dc] % |domains|), next)
  }

  // `ordered` appended to `out`, skipping what `out` already has.
  function Promoted(out: seq<string>, ordered: seq<string>): seq<string>
    decreases |ordered|
  {
    if ordered == [] then out
    else Promoted(if ordered[0] in out then out else out + [ordered[0]], ordered[1..])
  }

  predicate StickySurvives(p: Pool, dc: int)
  {
    dc in p.sticky && p.sticky[dc] in p.domains
  }

  function Selected(p: Pool, dc: int): (seq<string>, Pool)
  {
    var (ordered, cursors) := Ordered(p.cursors, p.domains, dc);
    (if StickySurvives(p, dc) then Promoted([p.sticky[dc]], ordered) else ordered, p.(cursors := cursors))
  }

  function Connected(p: Pool, dc: int, domain: string): Pool
  {
    var name := Lower(Trim(domain));
    if name == "" then p else p.(sticky := p.sticky[dc := name])
  }

  function StickyOf(p: Pool, dc: int): Option<string>
  {
    if dc in p.sticky then Some(p.sticky[dc]) else None
  }

  function DomainAt(domains: seq<string>, i: nat): Option<string>
  {
    if i < |domains| then Some(domains[i]) else None
  }

  function Advanced(p: Pool, dc: int, n: nat): Pool
  {
    var len := if |p.domains| == 0 then 1 else |p.domains|;
    var cursors := Entered(p.cursors, dc, len);
    var i := (cursors.idx[dc] + n) % len;
    var j := if DomainAt(p.domains, i) == StickyOf(p, dc) then (i + 1) % len else i;
    Pool(p.domains, p.sticky - {dc}, cursors.(idx := cursors.idx[dc := j]))
  }

  function Refreshed(p: Pool, domains: seq<string>): Pool
  {
    p.(domains := domains)
  }

  // ---- The balancer: every call changes the shared lists and maps in place -------------

  class Balancer {
    var workerDomains: seq<string>
    var workerIdx: map<int, nat>
    var workerRr: nat
    var proxyDomains: seq<string>
    var proxyIdx: map<int, nat>
    var proxyRr: nat
    var proxySticky: map<int, string>

    ghost function Proxies(): Pool
      reads this
    {
      Pool(proxyDomains, proxySticky, Cursors(proxyIdx, proxyRr))
    }

    ghost function Workers(): Pool
      reads this
    {
      Pool(workerDomains, map[], Cursors(workerIdx, workerRr))
    }

    constructor ()
      ensures Proxies() == Workers() == Pool([], map[], Cursors(map[], 0))
    {
      workerDomains, workerIdx, workerRr := [], map[], 0;
      proxyDomains, proxyIdx, proxyRr, proxySticky := [], map[], 0, map[];
    }

    method SetWorkerDomains(domains: seq<string>)
      modifies this
      ensures Workers() == Pool(domains, map[], Cursors(map[], 0))
      ensures Proxies() == old(Proxies())
    {
      workerDomains := domains;
      workerRr := 0;
      workerIdx := map[];
    }

    // Only the list changes: cursors and sticky domains survive a refresh.
    method SetProxyDomains(domains: seq<string>)
      modifies this
      ensures Proxies() == Refreshed(old(Proxies()), domains)
      ensures proxyIdx == old(proxyIdx) && proxyRr == old(proxyRr) && proxySticky == old(proxySticky)
      ensures Workers() == old(Workers())
    {
      proxyDomains := domains;
    }

    static method RotateFrom(domains: seq<string>, start: nat) returns (out: seq<string>)
      requires start < |domains|
      ensures out == Rotation(domains, start)
    {
      out := [];
      hide Rotation;
      for i := 0 to |domains|
        invariant out == Rotation(domains, start)[..i]
      {
        RotationAt(domains, start, i);
        out := out + [domains[(start + i) % |domains|]];
      }
    }

    static method OrderedDomains(domains: seq<string>, dc: int, idx: map<int, nat>, rr: nat)
      returns (out: seq<string>, newIdx: map<int, nat>, newRr: nat)
      ensures (out, Cursors(newIdx, newRr)) == Ordered(Cursors(idx, rr), domains, dc)
    {
      newIdx, newRr := idx, rr;
      if |domains| <= 1 {
        return domains, idx, rr;
      }
      if dc !in newIdx {
        newRr := (rr + 1) % WORD;
        newIdx := newIdx[dc := rr % |domains|];
      }
      out := RotateFrom(domains, newIdx[dc] % |domains|);
    }

    method WorkerDomainsForDc(dc: int) returns (out: seq<string>)
      modifies this
      ensures (out, Workers()) == Selected(old(Workers()), dc)
      ensures Proxies() == old(Proxies())
    {
      out, workerIdx, workerRr := OrderedDomains(workerDomains, dc, workerIdx, workerRr);
    }

    method ProxyDomainsForDc(dc: int) returns (out: seq<string>)
      modifies this
      ensures (out, Proxies()) == Selected(old(Proxies()), dc)
      ensures Workers() == old(Workers())
    {
      out, proxyIdx, proxyRr := OrderedDomains(proxyDomains, dc, proxyIdx, proxyRr);
      if dc in proxySticky && proxySticky[dc] in proxyDomains {
        var ordered := out;
        out := [proxySticky[dc]];
        for i := 0 to |ordered|
          invariant Promoted(out, ordered[i..]) == Promoted([proxySticky[dc]], ordered)
        {
          assert ordered[i..][1..] == ordered[i + 1..];
          if ordered[i] !in out {
            out := out + [ordered[i]];
          }
        }
      }
    }

    method UpdateProxyDomainForDc(dc: int, rawDomain: string)
      modifies this
      ensures Proxies() == Connected(old(Proxies()), dc, rawDomain)
      ensures Workers() == old(Workers())
    {
      var domain := Lower(Trim(rawDomain));
      if domain == "" {
        return;
      }
      if dc in proxySticky && proxySticky[dc] == domain {
        return;
      }
      proxySticky := proxySticky[dc := domain];
    }

    method AdvanceProxyDomainsForDc(dc: int, n: nat)
      modifies this
      ensures Proxies() == Advanced(old(Proxies()), dc, n)
      ensures Workers() == old(Workers())
    {
      var sticky := if dc in proxySticky then Some(proxySticky[dc]) else None;
      proxySticky := proxySticky - {dc};
      var len := if |proxyDomains| == 0 then 1 else |proxyDomains|;
      if dc !in proxyIdx {
        proxyIdx := proxyIdx[dc := proxyRr % len];
        proxyRr := (proxyRr + 1) % WORD;
      }
      var i := (proxyIdx[dc] + n) % len;
      if DomainAt(proxyDomains, i) == sticky {
        i := (i + 1) % len;
      }
      proxyIdx := proxyIdx[dc := i];
    }
  }

  lemma RotationAt(domains: seq<string>, start: nat, i: nat)
    requires start < |domains| && i < |domains|
    ensures Rotation(domains, start)[i] == domains[(start + i) % |domains|]
  {
    var n := |domains|;
    if start + i < n {
      SmallMod(start + i, n);
    } else {
      ModUnique(start + i, n, 1, start + i - n);
    }
  }

  // ---- Selection is a permutation -------------------------------------------------------

  ghost predicate Distinct(s: seq<string>)
  {
    forall i, j | 0 <= i < j < |s| :: s[i] != s[j]
  }

  lemma RotationPermutes(domains: seq<string>, start: nat)
    requires start < |domains|
    ensures multiset(Rotation(domains, start)) == multiset(domains)
  {
    assert domains == domains[..start] + domains[start..];
  }

  lemma {:induction false} DistinctCounts(s: seq<string>, x: string)
    requires Distinct(s)
    ensures multiset(s)[x] == if x in s then 1 else 0
  {
    if s != [] {
      assert s == [s[0]] + s[1..];
      DistinctCounts(s[1..], x);
    }
  }

  lemma {:induction false} CountsDistinct(s: seq<string>)
    requires forall x :: multiset(s)[x] <= 1
    ensures Distinct(s)
  {
    if s != [] {
      assert s == [s[0]] + s[1..];
      forall x ensures multiset(s[1..])[x] <= 1 {
        assert multiset(s)[x] <= 1;
      }
      CountsDistinct(s[1..]);
      assert multiset(s)[s[0]] == 1 + multiset(s[1..])[s[0]] <= 1;
      assert s[0] !in multiset(s[1..]);
    }
  }

  // What the sticky loop builds: the sticky first, every other domain once.
  lemma {:induction false} PromotedHolds(out: seq<string>, ordered: seq<string>)
    requires Distinct(out)
    ensures Distinct(Promoted(out, ordered)) && out <= Promoted(out, ordered)
    ensures forall x :: x in Promoted(out, ordered) <==> x in out || x in ordered
    decreases |ordered|
  {
    if ordered != [] {
      PromotedHolds(if ordered[0] in out then out else out + [ordered[0]], ordered[1..]);
    }
  }

  lemma SameElements(a: seq<string>, b: seq<string>)
    requires multiset(a) == multiset(b)
    ensures forall x :: x in a <==> x in b
  {
    forall x ensures x in a <==> x in b {
      assert x in multiset(a) <==> x in multiset(b);
    }
  }

  lemma OrderedPermutes(c: Cursors, domains: seq<string>, dc: int)
    ensures multiset(Ordered(c, domains, dc).0) == multiset(domains)
  {
    if |domains| > 1 {
      RotationPermutes(domains, Entered(c, dc, |domains|).idx[dc] % |domains|);
    }
  }

  lemma DistinctPermutation(a: seq<string>, b: seq<string>)
    requires Distinct(a) && forall x :: x in a <==> x in b
    ensures multiset(a) == multiset(b) <==> Distinct(b)
  {
    hide Distinct;
    if Distinct(b) {
      forall x ensures multiset(a)[x] == multiset(b)[x] {
        DistinctCounts(a, x);
        DistinctCounts(b, x);
      }
    }
    if multiset(a) == multiset(b) {
      forall x ensures multiset(b)[x] <= 1 {
        DistinctCounts(a, x);
      }
      CountsDistinct(b);
    }
  }

  // In every state: a surviving sticky is first, and the selection is a permutation of the
  // pool, unless a sticky drops the copies of a domain that the pool lists twice.
  lemma SelectionIsPermutation(p: Pool, dc: int)
    ensures var out := Selected(p, dc).0;
            && (StickySurvives(p, dc) ==> out != [] && out[0] == p.sticky[dc])
            && (multiset(out) == multiset(p.domains) <==> !StickySurvives(p, dc) || Distinct(p.domains))
            && (forall x :: x in out <==> x in p.domains)
  {
    var ordered := Ordered(p.cursors, p.domains, dc).0;
    OrderedPermutes(p.cursors, p.domains, dc);
    SameElements(ordered, p.domains);
    if StickySurvives(p, dc) {
      PromotedHolds([p.sticky[dc]], ordered);
      DistinctPermutation(Selected(p, dc).0, p.domains);
    }
  }

  // The domain the DC's cursor points at.
  function FirstInOrder(p: Pool, dc: int): string
    requires p.domains != []
  {
    Ordered(p.cursors, p.domains, dc).0[0]
  }

  // A domain that connected is the first choice afterwards if and only if the pool lists the
  // trimmed lower-case form it is remembered in and that is the domain itself, or the pool
  // does not list that form and the cursor happens to stand on the domain. A domain that
  // trims to nothing changes nothing.
  lemma ConnectedIsFirst(p: Pool, dc: int, domain: string)
    requires p.domains != []
    ensures var q, name := Connected(p, dc, domain), Lower(Trim(domain));
            if name == "" then q == p
            else
              && Selected(q, dc).0 != []
              && (Selected(q, dc).0[0] == domain <==>
                  if name in p.domains then name == domain else FirstInOrder(p, dc) == domain)
  {
    hide Lower, Trim;
    SelectionIsPermutation(Connected(p, dc, domain), dc);
  }

  // ---- After a failure --------------------------------------------------------------------

  function Cursor(p: Pool, dc: int): (c: nat)
    requires dc in p.cursors.idx && p.domains != []
    ensures c < |p.domains|
  {
    p.cursors.idx[dc] % |p.domains|
  }

  lemma SelectionStartsAtCursor(p: Pool, dc: int)
    requires |p.domains| >= 2 && dc in p.cursors.idx && dc !in p.sticky
    ensures Selected(p, dc).1 == p
    ensures Selected(p, dc).0 == Rotation(p.domains, Cursor(p, dc))
  {
  }

  // Where an advance leaves the cursor.
  function Landed(p: Pool, dc: int, n: nat): (i: nat)
    requires p.domains != []
    ensures i < |p.domains|
  {
    (Entered(p.cursors, dc, |p.domains|).idx[dc] + n) % |p.domains|
  }

  function After(i: nat, n: nat): (j: nat)
    requires i < n
    ensures j < n && (n >= 2 ==> j != i)
  {
    if i + 1 == n then 0 else i + 1
  }

  lemma AdvanceLands(p: Pool, dc: int, n: nat)
    requires |p.domains| >= 2
    ensures var q, i := Advanced(p, dc, n), Landed(p, dc, n);
            && dc in q.cursors.idx && dc !in q.sticky && q.domains == p.domains
            && q.cursors.idx[dc] == if Some(p.domains[i]) == StickyOf(p, dc) then After(i, |p.domains|) else i
  {
    var len := |p.domains|;
    var i := Landed(p, dc, n);
    if i + 1 == len {
      ModUnique(i + 1, len, 1, 0);
    } else {
      SmallMod(i + 1, len);
    }
  }

  // Right after an advance the failed sticky is gone, and it is not the first choice again
  // unless the pool lists it at both places the cursor could stop at.
  lemma FailedStickyIsNotFirst(p: Pool, dc: int, n: nat)
    requires |p.domains| >= 2 && dc in p.sticky
    ensures var i := Landed(p, dc, n);
            var first := Selected(Advanced(p, dc, n), dc).0;
            && first != []
            && (first[0] != p.sticky[dc] <==>
                !(p.domains[i] == p.sticky[dc] && p.domains[After(i, |p.domains|)] == p.sticky[dc]))
            && (Distinct(p.domains) ==> first[0] != p.sticky[dc])
  {
    AdvanceLands(p, dc, n);
    var next := Advanced(p, dc, n);
    var i := Landed(p, dc, n);
    hide Advanced, Landed;
    SmallMod(next.cursors.idx[dc], |p.domains|);
    SelectionStartsAtCursor(next, dc);
    assert Selected(next, dc).0[0] == p.domains[next.cursors.idx[dc]];
  }

  // ---- Failure coverage ---------------------------------------------------------------------

  // What sessions do to the pool: pick an order, then report success or a failed window.
  datatype Event = Pick(dc: int) | Connect(dc: int, domain: string) | Fail(dc: int, window: nat)

  function Apply(p: Pool, e: Event): Pool
  {
    match e
    case Pick(dc) => Selected(p, dc).1
    case Connect(dc, domain) => Connected(p, dc, domain)
    case Fail(dc, window) => Advanced(p, dc, window)
  }

  function Smaller(a: nat, b: nat): nat
  {
    if a < b then a else b
  }

  // The window of one session: the first `attempts` of its order. A domain in it may still be
  // skipped while it cools down after a 429.
  function Window(p: Pool, dc: int, attempts: nat): seq<string>
  {
    Selected(p, dc).0[..Smaller(attempts, |Selected(p, dc).0|)]
  }

  function InWindows(p: Pool, events: seq<Event>, dc: int, attempts: nat): set<string>
    decreases |events|
  {
    if events == [] then {}
    else (if events[0] == Pick(dc) then set d | d in Window(p, dc, attempts) else {})
         + InWindows(Apply(p, events[0]), events[1..], dc, attempts)
  }

  // The sessions of `dc` run one after another and all fail, each reporting the length of
  // its window; sessions of other DCs may do anything in between. `open` says whether a session
  // of `dc` has picked but not yet failed.
  predicate AllFail(events: seq<Event>, dc: int, window: nat, open: bool)
    decreases |events|
  {
    events == [] ||
    if events[0].dc != dc then AllFail(events[1..], dc, window, open)
    else if open then events[0] == Fail(dc, window) && AllFail(events[1..], dc, window, false)
    else events[0] == Pick(dc) && AllFail(events[1..], dc, window, true)
  }

  function Sessions(events: seq<Event>, dc: int): nat
  {
    if events == [] then 0 else (if events[0] == Pick(dc) then 1 else 0) + Sessions(events[1..], dc)
  }

  lemma OthersLeaveAlone(p: Pool, e: Event, dc: int)
    requires e.dc != dc
    ensures var q := Apply(p, e);
            && q.domains == p.domains && (dc in q.sticky <==> dc in p.sticky)
            && (dc in q.cursors.idx <==> dc in p.cursors.idx)
            && (dc in p.cursors.idx ==> q.cursors.idx[dc] == p.cursors.idx[dc])
  {
  }

  lemma WindowHolds(p: Pool, dc: int, attempts: nat, ahead: nat)
    requires |p.domains| >= 2 && dc in p.cursors.idx && dc !in p.sticky
    requires ahead < Smaller(attempts, |p.domains|)
    ensures p.domains[(Cursor(p, dc) + ahead) % |p.domains|] in Window(p, dc, attempts)
  {
    RotationAt(p.domains, Cursor(p, dc), ahead);
    assert Window(p, dc, attempts)[ahead] == p.domains[(Cursor(p, dc) + ahead) % |p.domains|];
  }

  // The places the windows of the remaining sessions of `dc` still take in, `window` each.
  function Reach(events: seq<Event>, dc: int, window: nat): nat
  {
    if events == [] then 0 else (if events[0] == Pick(dc) then window else 0) + Reach(events[1..], dc, window)
  }

  lemma {:induction false} ReachIsProduct(events: seq<Event>, dc: int, window: nat)
    ensures Reach(events, dc, window) == Sessions(events, dc) * window
  {
    if events != [] {
      ReachIsProduct(events[1..], dc, window);
      Distribute(1, Sessions(events[1..], dc), window);
    }
  }

  // A failed session moves the cursor by its window: what was `ahead` of it is nearer.
  lemma FailMovesOn(p: Pool, dc: int, window: nat, ahead: nat)
    requires |p.domains| >= 2 && dc in p.cursors.idx && dc !in p.sticky && window <= ahead
    ensures var q, n := Advanced(p, dc, window), |p.domains|;
            && q.domains == p.domains && dc in q.cursors.idx && dc !in q.sticky
            && (Cursor(q, dc) + (ahead - window)) % n == (Cursor(p, dc) + ahead) % n
  {
    var n := |p.domains|;
    AdvanceLands(p, dc, window);
    ReduceFirst(p.cursors.idx[dc], window, n);
    SmallMod(Landed(p, dc, window), n);
    StepRound(Cursor(p, dc), window, ahead, n);
  }

  lemma {:induction false} CoveredAhead(p: Pool, events: seq<Event>, dc: int, attempts: nat, open: bool, ahead: nat)
    requires |p.domains| >= 2 && dc in p.cursors.idx && dc !in p.sticky && ahead < |p.domains|
    requires var w := Smaller(attempts, |p.domains|);
             && AllFail(events, dc, w, open)
             && (if open then w <= ahead < w + Reach(events, dc, w) else ahead < Reach(events, dc, w))
    ensures p.domains[(Cursor(p, dc) + ahead) % |p.domains|] in InWindows(p, events, dc, attempts)
    decreases |events|
  {
    hide Promoted, Rotation, Ordered, Entered, Connected, Advanced, Selected, Window, Cursor, Lower, Trim;
    var w := Smaller(attempts, |p.domains|);
    if events != [] {
      var e, rest := events[0], events[1..];
      var q := Apply(p, e);
      if e.dc != dc {
        OthersLeaveAlone(p, e, dc);
        hide Apply;
        assert Cursor(q, dc) == Cursor(p, dc) by {
          SameCursor(p, q, dc);
        }
        CoveredAhead(q, rest, dc, attempts, open, ahead);
      } else if open {
        FailMovesOn(p, dc, w, ahead);
        assert q == Advanced(p, dc, w);
        hide Apply;
        CoveredAhead(q, rest, dc, attempts, false, ahead - w);
      } else if ahead < w {
        WindowHolds(p, dc, attempts, ahead);
        hide Apply;
      } else {
        SelectionStartsAtCursor(p, dc);
        assert q == p;
        hide Apply;
        CoveredAhead(p, rest, dc, attempts, true, ahead);
      }
    }
  }

  lemma SameCursor(p: Pool, q: Pool, dc: int)
    requires p.domains != [] && p.domains == q.domains
    requires dc in p.cursors.idx && dc in q.cursors.idx && p.cursors.idx[dc] == q.cursors.idx[dc]
    ensures Cursor(p, dc) == Cursor(q, dc)
  {
  }

  lemma PickOnly(p: Pool, dc: int, attempts: nat)
    requires |p.domains| == 1 && dc !in p.sticky && attempts > 0
    ensures p.domains[0] in Window(p, dc, attempts)
  {
    assert Window(p, dc, attempts) == p.domains;
  }

  // Picking once fixes the cursor; the same pick from there gives the same order.
  lemma PickTwice(p: Pool, dc: int, attempts: nat)
    requires |p.domains| >= 2 && dc !in p.sticky
    ensures var q := Selected(p, dc).1;
            && q.domains == p.domains && dc in q.cursors.idx && dc !in q.sticky
            && Selected(q, dc) == Selected(p, dc) && Window(q, dc, attempts) == Window(p, dc, attempts)
  {
  }

  lemma {:induction false} Covered(p: Pool, events: seq<Event>, dc: int, attempts: nat, place: nat)
    requires dc !in p.sticky && place < |p.domains| && attempts > 0
    requires var w := Smaller(attempts, |p.domains|);
             AllFail(events, dc, w, false) && |p.domains| <= Reach(events, dc, w)
    ensures p.domains[place] in InWindows(p, events, dc, attempts)
    decreases |events|
  {
    hide Promoted, Rotation, Ordered, Entered, Connected, Advanced, Selected, Window, Cursor, Lower, Trim;
    if events != [] {
      if events[0].dc != dc {
        OthersLeaveAlone(p, events[0], dc);
        hide Apply;
        Covered(Apply(p, events[0]), events[1..], dc, attempts, place);
      } else if |p.domains| == 1 {
        hide Apply;
        PickOnly(p, dc, attempts);
      } else {
        PickTwice(p, dc, attempts);
        var q := Selected(p, dc).1;
        assert InWindows(q, events, dc, attempts) == InWindows(p, events, dc, attempts);
        CoveredAhead(q, events, dc, attempts, false, Ahead(Cursor(q, dc), place, |p.domains|));
      }
    }
  }

  lemma CeilCovers(n: nat, w: nat)
    requires w > 0
    ensures n <= ((n + w - 1) / w) * w
  {
    assert n + w - 1 == ((n + w - 1) / w) * w + (n + w - 1) % w;
  }

  // Any ceil(n / w) consecutive failing sessions of one DC put every domain of the pool in
  // some window, from any cursor a refresh may have left and whatever other DCs do in between.
  lemma FailureCoverage(p: Pool, events: seq<Event>, dc: int, attempts: nat)
    requires attempts > 0 && p.domains != [] && dc !in p.sticky
    requires var w := Smaller(attempts, |p.domains|);
             && AllFail(events, dc, w, false)
             && Sessions(events, dc) == (|p.domains| + w - 1) / w
    ensures forall d | d in p.domains :: d in InWindows(p, events, dc, attempts)
  {
    var w := Smaller(attempts, |p.domains|);
    CeilCovers(|p.domains|, w);
    ReachIsProduct(events, dc, w);
    hide *;
    forall d | d in p.domains ensures d in InWindows(p, events, dc, attempts) {
      var place :| 0 <= place < |p.domains| && p.domains[place] == d;
      Covered(p, events, dc, attempts, place);
    }
  }

  // ---- First uses -------------------------------------------------------------------------

  function PicksOf(dcs: seq<int>): seq<Event>
  {
    seq(|dcs|, i requires 0 <= i < |dcs| => Pick(dcs[i]))
  }

  function Applied(p: Pool, events: seq<Event>): Pool
    decreases |events|
  {
    if events == [] then p else Applied(Apply(p, events[0]), events[1..])
  }

  // DCs that pick for the first time start at consecutive places of the list.
  lemma {:induction false} FirstUsesSpread(p: Pool, dcs: seq<int>, k: nat)
    requires |p.domains| >= 2 && k < |dcs| && p.cursors.rr + k < WORD
    requires forall i | 0 <= i < |dcs| :: dcs[i] !in p.cursors.idx && dcs[i] !in p.sticky
    requires forall i, j | 0 <= i < j < |dcs| :: dcs[i] != dcs[j]
    ensures Selected(Applied(p, PicksOf(dcs[..k])), dcs[k]).0
         == Rotation(p.domains, (p.cursors.rr + k) % |p.domains|)
    decreases k
  {
    hide Rotation, Promoted, Selected;
    if k == 0 {
      FirstUse(p, dcs[0]);
    } else {
      var q := Selected(p, dcs[0]).1;
      FirstUse(p, dcs[0]);
      assert PicksOf(dcs[..k])[1..] == PicksOf(dcs[1..][..k - 1]);
      FirstUsesSpread(q, dcs[1..], k - 1);
    }
  }

  lemma FirstUse(p: Pool, dc: int)
    requires |p.domains| >= 2 && dc !in p.cursors.idx && dc !in p.sticky
    ensures Selected(p, dc).0 == Rotation(p.domains, p.cursors.rr % |p.domains|)
    ensures var q := Selected(p, dc).1;
            && q.domains == p.domains && q.sticky == p.sticky && q.cursors.rr == (p.cursors.rr + 1) % WORD
            && q.cursors.idx.Keys == p.cursors.idx.Keys + {dc}
  {
    hide Rotation;
    SmallMod(p.cursors.rr % |p.domains|, |p.domains|);
  }
}
