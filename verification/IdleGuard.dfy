/** The idle guard of a session: two directions touch a shared millisecond counter while a
    sleeping loop decides whether the session has stalled. */
module IdleGuard {
  import opened Modular
  import opened Wrappers

  // Nanoseconds since the session began.
  type Time = nat

  const MS: nat := 1_000_000
  const NAP: nat := 50

  // The idle limit, and the number of values a machine word holds: 2^32 or 2^64.
  datatype Config = Config(idle: Time, word: nat)

  predicate ValidConfig(c: Config)
  {
    c.word > 0
  }

  function IdleMs(c: Config): (n: nat)
    ensures n >= 1
  {
    if c.idle / MS >= 1 then c.idle / MS else 1
  }

  function Counted(c: Config, at: Time): nat
    requires ValidConfig(c)
  {
    (at / MS) % c.word
  }

  function Since(elapsed: nat, last: nat): nat
  {
    if elapsed >= last then elapsed - last else 0
  }

  // None: the guard resolves. Otherwise, how many milliseconds to sleep.
  function Verdict(c: Config, at: Time, last: nat): Option<nat>
  {
    var since := Since(at / MS, last);
    if since >= IdleMs(c) then None
    else Some(if IdleMs(c) - since >= NAP then IdleMs(c) - since else NAP)
  }

  class Activity {
    const config: Config
    var lastMs: nat

    constructor (idle: Time, word: nat)
      requires word > 0
      ensures config == Config(idle, word) && lastMs == 0
    {
      config, lastMs := Config(idle, word), 0;
    }

    method Touch(elapsed: Time)
      requires ValidConfig(config)
      modifies this
      ensures lastMs == Counted(config, elapsed)
    {
      lastMs := (elapsed / MS) % config.word;
    }

    // One round of the guard's loop, from a clock reading to the decision.
    method Round(elapsed: Time) returns (sleep: Option<nat>)
      ensures sleep == Verdict(config, elapsed, lastMs)
      ensures sleep.None? <==> elapsed / MS >= lastMs + IdleMs(config)
      ensures sleep.Some? ==> sleep.value >= NAP
    {
      var idleMs := if config.idle / MS >= 1 then config.idle / MS else 1;
      var ms := elapsed / MS;
      var since := if ms >= lastMs then ms - lastMs else 0;
      if since >= idleMs {
        return None;
      }
      return Some(if idleMs - since >= NAP then idleMs - since else NAP);
    }
  }

  // ---- Runs -------------------------------------------------------------------------------

  datatype Direction = Up | Down

  datatype Guard = Polling
                 | ClockRead(at: Time)                       // about to load the counter
                 | Sleeping(until: Time)
                 | Resolved(at: Time, touch: Time, latest: Time)

  // `touch` is the clock reading behind the counter; `latest` is the greatest reading any
  // finished touch has stored. `Resolved` keeps both as they were at the decision.
  datatype State = State(now: Time, last: nat, touch: Time, latest: Time,
                         reading: map<Direction, Time>, guard: Guard)

  // A touch reads the clock and stores it in two steps, so the directions interleave.
  datatype Event = Pass(d: nat) | ReadClock(dir: Direction) | Store(dir: Direction) | Guarded

  function Start(): State
  {
    State(0, 0, 0, 0, map[], Polling)
  }

  function GuardStep(c: Config, s: State): State
  {
    match s.guard
    case Polling => s.(guard := ClockRead(s.now))
    case ClockRead(at) =>
      (match Verdict(c, at, s.last)
       case None => s.(guard := Resolved(at, s.touch, s.latest))
       case Some(ms) => s.(guard := Sleeping(s.now + ms * MS)))
    case Sleeping(until) => if s.now >= until then s.(guard := Polling) else s
    case Resolved(_, _, _) => s
  }

  function Step(c: Config, s: State, e: Event): State
    requires ValidConfig(c)
  {
    match e
    case Pass(d) => s.(now := s.now + d)
    case ReadClock(dir) => if dir in s.reading then s else s.(reading := s.reading[dir := s.now])
    case Store(dir) =>
      if dir !in s.reading then s
      else
        var at := s.reading[dir];
        s.(last := Counted(c, at), touch := at, latest := if at > s.latest then at else s.latest,
           reading := s.reading - {dir})
    case Guarded => GuardStep(c, s)
  }

  function Run(c: Config, s: State, events: seq<Event>): State
    requires ValidConfig(c)
    decreases |events|
  {
    if events == [] then s else Run(c, Step(c, s, events[0]), events[1..])
  }

  // One step of a run, for the predicates over runs below.
  lemma Next(c: Config, s: State, e: Event, rest: seq<Event>)
    requires ValidConfig(c)
    ensures var next := Step(c, s, e);
            && Run(c, s, [e] + rest) == Run(c, next, rest)
            && (StoresInOrder(c, s, [e] + rest) <==> StoreInOrder(s, e) && StoresInOrder(c, next, rest))
            && (ExactRun(c, s, [e] + rest) <==> Exact(s, e) && ExactRun(c, next, rest))
  {
    assert ([e] + rest)[1..] == rest;
  }

  lemma AtEnd(c: Config, s: State)
    requires ValidConfig(c)
    ensures Run(c, s, []) == s && StoresInOrder(c, s, []) && ExactRun(c, s, [])
  {
  }

  // ---- When the guard resolves --------------------------------------------------------------

  ghost predicate Sound(c: Config, s: State)
    requires ValidConfig(c)
  {
    && s.last == Counted(c, s.touch) && s.touch <= s.latest <= s.now
    && (forall d | d in s.reading :: s.reading[d] <= s.now)
    && (s.guard.ClockRead? ==> s.guard.at <= s.now)
    && (s.guard.Resolved? ==>
          s.guard.at <= s.now && s.guard.at / MS >= Counted(c, s.guard.touch) + IdleMs(c))
  }

  lemma StepKeepsSound(c: Config, s: State, e: Event)
    requires ValidConfig(c) && Sound(c, s)
    ensures Sound(c, Step(c, s, e))
  {
  }

  lemma {:induction false} RunKeepsSound(c: Config, s: State, events: seq<Event>)
    requires ValidConfig(c) && Sound(c, s)
    ensures Sound(c, Run(c, s, events))
    decreases |events|
  {
    if events != [] {
      StepKeepsSound(c, s, events[0]);
      RunKeepsSound(c, Step(c, s, events[0]), events[1..]);
    }
  }

  lemma StartSound(c: Config)
    requires ValidConfig(c)
    ensures Sound(c, Start())
  {
    assert Counted(c, 0) == 0;
  }

  // How often the counter had wrapped at a touch, in milliseconds.
  function Wrapped(c: Config, touch: Time): nat
    requires ValidConfig(c)
  {
    var laps := touch / MS / c.word;
    laps * c.word
  }

  lemma CountedIsRest(c: Config, touch: Time)
    requires ValidConfig(c)
    ensures Counted(c, touch) == touch / MS - Wrapped(c, touch)
    ensures Wrapped(c, touch) == 0 <==> touch / MS < c.word
  {
    var ms := touch / MS;
    var laps := ms / c.word;
    assert ms == laps * c.word + ms % c.word;
    if laps >= 1 {
      AtLeast(laps, c.word);
    } else {
      assert laps == 0;
      SmallMultiple(0, c.word);
    }
  }

  // The exact law, in every interleaving: about to decide, the guard resolves if and only if
  // the touch it reads is the limit old in whole milliseconds, counting as much older as the
  // counter has wrapped.
  lemma DecidesExactly(c: Config, events: seq<Event>)
    requires ValidConfig(c) && Run(c, Start(), events).guard.ClockRead?
    ensures var s := Run(c, Start(), events);
            Step(c, s, Guarded).guard.Resolved? <==>
            s.guard.at / MS - s.touch / MS + Wrapped(c, s.touch) >= IdleMs(c)
  {
    StartSound(c);
    RunKeepsSound(c, Start(), events);
    var s := Run(c, Start(), events);
    hide Run;
    CountedIsRest(c, s.touch);
    hide Counted, Wrapped, IdleMs;
  }

  lemma WholeMilliseconds(at: Time, touch: Time, ms: nat)
    requires at / MS - touch / MS >= ms
    ensures at - touch > (ms - 1) * MS
    ensures at - touch >= ms * MS <==> at / MS - touch / MS > ms || at % MS >= touch % MS
  {
  }

  // ---- The latest touch ---------------------------------------------------------------------

  predicate StoreInOrder(s: State, e: Event)
  {
    e.Store? && e.dir in s.reading ==> s.reading[e.dir] >= s.latest
  }

  predicate StoresInOrder(c: Config, s: State, events: seq<Event>)
    requires ValidConfig(c)
    decreases |events|
  {
    events == [] || (StoreInOrder(s, events[0]) && StoresInOrder(c, Step(c, s, events[0]), events[1..]))
  }

  // The counter stands for the latest touch, now and after every further step.
  predicate AlwaysLatest(c: Config, s: State, events: seq<Event>)
    requires ValidConfig(c)
    decreases |events|
  {
    s.touch == s.latest && (events == [] || AlwaysLatest(c, Step(c, s, events[0]), events[1..]))
  }

  // The guard reads the last touch stored. That is the latest one throughout a run if and
  // only if the two directions store in the order they read the clock.
  lemma {:induction false} LatestIffInOrder(c: Config, s: State, events: seq<Event>)
    requires ValidConfig(c) && s.touch == s.latest
    ensures AlwaysLatest(c, s, events) <==> StoresInOrder(c, s, events)
    decreases |events|
  {
    if events != [] {
      var next := Step(c, s, events[0]);
      assert next.touch == next.latest <==> StoreInOrder(s, events[0]);
      if next.touch == next.latest {
        hide Step;
        LatestIffInOrder(c, next, events[1..]);
      }
    }
  }

  lemma {:induction false} DecidedOnLatest(c: Config, s: State, events: seq<Event>)
    requires ValidConfig(c) && AlwaysLatest(c, s, events)
    requires s.guard.Resolved? ==> s.guard.touch == s.guard.latest
    ensures var g := Run(c, s, events).guard; g.Resolved? ==> g.touch == g.latest
    decreases |events|
  {
    if events != [] {
      DecidedOnLatest(c, Step(c, s, events[0]), events[1..]);
    }
  }

  // The whole promise: with stores in order and a counter that had not wrapped, no touch
  // finished before the decision is younger than the limit in whole milliseconds; exactly
  // when one is in real time is said too, and it is by less than a millisecond.
  lemma NeverTooEarly(c: Config, events: seq<Event>)
    requires ValidConfig(c) && StoresInOrder(c, Start(), events)
    ensures var g := Run(c, Start(), events).guard;
            g.Resolved? && g.latest / MS < c.word ==>
              && g.at / MS - g.latest / MS >= IdleMs(c)
              && g.at - g.latest > (IdleMs(c) - 1) * MS
              && (g.at - g.latest >= IdleMs(c) * MS <==>
                  g.at / MS - g.latest / MS > IdleMs(c) || g.at % MS >= g.latest % MS)
  {
    StartSound(c);
    RunKeepsSound(c, Start(), events);
    LatestIffInOrder(c, Start(), events);
    DecidedOnLatest(c, Start(), events);
    var g := Run(c, Start(), events).guard;
    hide Run, StoresInOrder, AlwaysLatest;
    if g.Resolved? && g.latest / MS < c.word {
      CountedIsRest(c, g.touch);
      hide Counted, Wrapped, IdleMs;
      WholeMilliseconds(g.at, g.latest, IdleMs(c));
    }
  }

  // ---- The cases it misses, at every limit of whole seconds -----------------------------------

  function Seconds(n: nat): Time
  {
    n * 1000 * MS
  }

  // The guard decides at once and sleeps the whole limit from the start of the session.
  function Asleep(limit: Time): State
  {
    State(0, 0, 0, 0, map[], Sleeping(limit))
  }

  lemma FallsAsleep(c: Config, secs: nat, rest: seq<Event>)
    requires ValidConfig(c) && secs > 0 && c.idle == Seconds(secs)
    ensures var events := [Guarded] + ([Guarded] + rest);
            && Run(c, Start(), events) == Run(c, Asleep(c.idle), rest)
            && (ExactRun(c, Start(), events) <==> ExactRun(c, Asleep(c.idle), rest))
            && (StoresInOrder(c, Start(), events) <==> StoresInOrder(c, Asleep(c.idle), rest))
  {
    hide Run, ExactRun, StoresInOrder;
    Next(c, Start(), Guarded, [Guarded] + rest);
    Next(c, Step(c, Start(), Guarded), Guarded, rest);
    assert IdleMs(c) == secs * 1000;
  }

  // Woken at the limit with the counter still at zero, it resolves.
  lemma WakesAndResolves(c: Config, secs: nat, s: State)
    requires ValidConfig(c) && secs > 0 && c.idle == Seconds(secs)
    requires s.guard == Sleeping(c.idle) && s.now == c.idle && s.last == 0
    ensures var events := [Guarded] + ([Guarded] + ([Guarded] + []));
            && Run(c, s, events) == s.(guard := Resolved(c.idle, s.touch, s.latest))
            && ExactRun(c, s, events) && StoresInOrder(c, s, events)
  {
    hide Run, ExactRun, StoresInOrder;
    var s1 := s.(guard := Polling);
    var s2 := s.(guard := ClockRead(c.idle));
    var s3 := s.(guard := Resolved(c.idle, s.touch, s.latest));
    Next(c, s, Guarded, [Guarded] + ([Guarded] + []));
    Next(c, s1, Guarded, [Guarded] + []);
    Next(c, s2, Guarded, []);
    assert c.idle / MS == secs * 1000 == IdleMs(c);
    assert Step(c, s2, Guarded) == s3;
    AtEnd(c, s3);
  }

  // A touch at 0.999999 ms counts as 0, and the guard resolves 0.999999 ms too early.
  lemma ResolvesAFractionEarly(c: Config, secs: nat)
    requires ValidConfig(c) && secs > 0 && c.idle == Seconds(secs)
    ensures var events := [Guarded] + ([Guarded] + ([Pass(999_999)] + ([ReadClock(Up)] + ([Store(Up)] +
                          ([Pass(c.idle - 999_999)] + ([Guarded] + ([Guarded] + ([Guarded] + []))))))));
            && Run(c, Start(), events).guard == Resolved(c.idle, 999_999, 999_999)
            && ExactRun(c, Start(), events) && StoresInOrder(c, Start(), events)
  {
    hide Run, ExactRun, StoresInOrder;
    var wake := [Guarded] + ([Guarded] + ([Guarded] + []));
    var r4 := [Pass(c.idle - 999_999)] + wake;
    var s0 := Asleep(c.idle);
    var s1 := s0.(now := 999_999);
    var s2 := s1.(reading := map[Up := 999_999]);
    var s3 := s1.(touch := 999_999, latest := 999_999);
    var s4 := s3.(now := c.idle);
    FallsAsleep(c, secs, [Pass(999_999)] + ([ReadClock(Up)] + ([Store(Up)] + r4)));
    Next(c, s0, Pass(999_999), [ReadClock(Up)] + ([Store(Up)] + r4));
    Next(c, s1, ReadClock(Up), [Store(Up)] + r4);
    assert Step(c, s1, ReadClock(Up)) == s2;
    Next(c, s2, Store(Up), r4);
    assert Counted(c, 999_999) == 0 && s2.reading - {Up} == map[];
    assert Step(c, s2, Store(Up)) == s3;
    Next(c, s3, Pass(c.idle - 999_999), wake);
    WakesAndResolves(c, secs, s4);
  }

  lemma CountsFromZero(c: Config)
    requires ValidConfig(c)
    ensures Counted(c, 0) == 0
  {
  }

  // Both directions have read the clock, one at the start and one `early` later.
  function BothRead(limit: Time, early: Time): State
  {
    State(early, 0, 0, 0, map[Up := 0, Down := early], Sleeping(limit))
  }

  lemma BothReadClock(c: Config, limit: Time, early: Time, rest: seq<Event>)
    requires ValidConfig(c) && early <= limit
    ensures var events := [ReadClock(Up)] + ([Pass(early)] + ([ReadClock(Down)] + rest));
            && Run(c, Asleep(limit), events) == Run(c, BothRead(limit, early), rest)
            && (ExactRun(c, Asleep(limit), events) <==> ExactRun(c, BothRead(limit, early), rest))
            && (StoresInOrder(c, Asleep(limit), events) <==> StoresInOrder(c, BothRead(limit, early), rest))
  {
    hide Run, ExactRun, StoresInOrder, Counted;
    var s0 := Asleep(limit);
    var s1 := s0.(reading := map[Up := 0]);
    var s2 := s1.(now := early);
    Next(c, s0, ReadClock(Up), [Pass(early)] + ([ReadClock(Down)] + rest));
    assert Step(c, s0, ReadClock(Up)) == s1;
    Next(c, s1, Pass(early), [ReadClock(Down)] + rest);
    Next(c, s2, ReadClock(Down), rest);
    assert Step(c, s2, ReadClock(Down)) == BothRead(limit, early);
  }

  // The later reading is stored first, and the earlier one over it.
  lemma StoresSwapped(c: Config, limit: Time, early: Time, rest: seq<Event>)
    requires ValidConfig(c) && early > 0
    ensures var events := [Store(Down)] + ([Store(Up)] + rest);
            var s := State(early, 0, 0, early, map[], Sleeping(limit));
            && Run(c, BothRead(limit, early), events) == Run(c, s, rest)
            && (ExactRun(c, BothRead(limit, early), events) <==> ExactRun(c, s, rest))
            && !StoresInOrder(c, BothRead(limit, early), events)
  {
    CountsFromZero(c);
    hide Run, ExactRun, StoresInOrder, Counted;
    var s3 := BothRead(limit, early);
    var s4 := State(early, Counted(c, early), early, early, map[Up := 0], Sleeping(limit));
    var s5 := State(early, 0, 0, early, map[], Sleeping(limit));
    Next(c, s3, Store(Down), [Store(Up)] + rest);
    assert s3.reading - {Down} == map[Up := 0];
    assert Step(c, s3, Store(Down)) == s4;
    Next(c, s4, Store(Up), rest);
    assert s4.reading - {Up} == map[];
    assert Step(c, s4, Store(Up)) == s5 && !StoreInOrder(s4, Store(Up));
  }

  // One direction puts back an older reading, and the guard resolves although the other
  // moved payload only a millisecond before.
  lemma StaleStoreHidesTouch(c: Config, secs: nat)
    requires ValidConfig(c) && secs > 0 && c.idle == Seconds(secs)
    ensures var events := [Guarded] + ([Guarded] + ([ReadClock(Up)] + ([Pass(c.idle - MS)] + ([ReadClock(Down)] +
                          ([Store(Down)] + ([Store(Up)] + ([Pass(MS)] +
                          ([Guarded] + ([Guarded] + ([Guarded] + []))))))))));
            && Run(c, Start(), events).guard == Resolved(c.idle, 0, c.idle - MS)
            && ExactRun(c, Start(), events) && !StoresInOrder(c, Start(), events)
  {
    hide Run, ExactRun, StoresInOrder, Counted;
    var wake := [Guarded] + ([Guarded] + ([Guarded] + []));
    var stores := [Store(Down)] + ([Store(Up)] + ([Pass(MS)] + wake));
    var early: Time := c.idle - MS;
    var s5 := State(early, 0, 0, early, map[], Sleeping(c.idle));
    FallsAsleep(c, secs, [ReadClock(Up)] + ([Pass(early)] + ([ReadClock(Down)] + stores)));
    BothReadClock(c, c.idle, early, stores);
    StoresSwapped(c, c.idle, early, [Pass(MS)] + wake);
    Next(c, s5, Pass(MS), wake);
    WakesAndResolves(c, secs, s5.(now := c.idle));
  }

  // `n` times: the guard sleeps the whole limit, and a touch at its end keeps it from
  // resolving.
  function Touched(limit: Time, n: nat): seq<Event>
  {
    if n == 0 then []
    else Touched(limit, n - 1)
         + ([Pass(limit)] + ([ReadClock(Up)] + ([Store(Up)] + ([Guarded] + ([Guarded] + [Guarded])))))
  }

  // Asleep since a touch at `at`.
  function Kept(c: Config, at: Time): State
    requires ValidConfig(c)
  {
    State(at, Counted(c, at), at, at, map[], Sleeping(at + c.idle))
  }

  lemma {:induction false} RunTwice(c: Config, s: State, a: seq<Event>, b: seq<Event>)
    requires ValidConfig(c)
    ensures Run(c, s, a + b) == Run(c, Run(c, s, a), b)
    ensures ExactRun(c, s, a + b) <==> ExactRun(c, s, a) && ExactRun(c, Run(c, s, a), b)
    ensures StoresInOrder(c, s, a + b) <==> StoresInOrder(c, s, a) && StoresInOrder(c, Run(c, s, a), b)
    decreases |a|
  {
    if a == [] {
      assert a + b == b;
    } else {
      assert a + b == [a[0]] + (a[1..] + b) && a == [a[0]] + a[1..];
      Next(c, s, a[0], a[1..] + b);
      Next(c, s, a[0], a[1..]);
      var next := Step(c, s, a[0]);
      hide Run, ExactRun, StoresInOrder, Step;
      RunTwice(c, next, a[1..], b);
    }
  }

  // One more touch at the end of a sleep, up to the moment the guard decides.
  lemma TouchedAtTheEnd(c: Config, secs: nat, at: Time, rest: seq<Event>)
    requires ValidConfig(c) && secs > 0 && c.idle == Seconds(secs)
    ensures var events := [Pass(c.idle)] + ([ReadClock(Up)] + ([Store(Up)] + ([Guarded] + ([Guarded] + rest))));
            var later := at + c.idle;
            var s := State(later, Counted(c, later), later, later, map[], ClockRead(later));
            && Run(c, Kept(c, at), events) == Run(c, s, rest)
            && (ExactRun(c, Kept(c, at), events) <==> ExactRun(c, s, rest))
            && (StoresInOrder(c, Kept(c, at), events) <==> StoresInOrder(c, s, rest))
  {
    hide Run, ExactRun, StoresInOrder, Counted;
    var later := at + c.idle;
    var s0 := Kept(c, at);
    var s1 := s0.(now := later);
    var s2 := s1.(reading := map[Up := later]);
    var s3 := State(later, Counted(c, later), later, later, map[], Sleeping(later));
    var s4 := s3.(guard := Polling);
    var r3 := [Guarded] + ([Guarded] + rest);
    Next(c, s0, Pass(c.idle), [ReadClock(Up)] + ([Store(Up)] + r3));
    Next(c, s1, ReadClock(Up), [Store(Up)] + r3);
    assert Step(c, s1, ReadClock(Up)) == s2 && s2.reading - {Up} == map[];
    Next(c, s2, Store(Up), r3);
    assert Step(c, s2, Store(Up)) == s3;
    Next(c, s3, Guarded, [Guarded] + rest);
    Next(c, s4, Guarded, rest);
  }

  lemma MillisecondsOf(n: nat, secs: nat)
    requires secs > 0
    ensures var ms := n * (secs * 1000);
            n * Seconds(secs) == ms * MS && (n * Seconds(secs)) / MS == ms
    ensures Seconds(secs) / MS == secs * 1000
  {
    assert n * Seconds(secs) == (n * (secs * 1000)) * MS;
  }

  // While the counter has not wrapped, such a touch sends the guard back to sleep.
  lemma {:induction false} KeepsSleeping(c: Config, secs: nat, n: nat)
    requires ValidConfig(c) && secs > 0 && c.idle == Seconds(secs)
    requires n * (secs * 1000) < c.word
    ensures Run(c, Kept(c, 0), Touched(c.idle, n)) == Kept(c, n * c.idle)
    ensures ExactRun(c, Kept(c, 0), Touched(c.idle, n)) && StoresInOrder(c, Kept(c, 0), Touched(c.idle, n))
  {
    if n == 0 {
      AtEnd(c, Kept(c, 0));
    } else {
      hide Run, ExactRun, StoresInOrder, Counted, Touched, IdleMs;
      var at, later := (n - 1) * c.idle, n * c.idle;
      Distribute(n - 1, 1, c.idle);
      Distribute(n - 1, 1, secs * 1000);
      KeepsSleeping(c, secs, n - 1);
      var more := [Pass(c.idle)] + ([ReadClock(Up)] + ([Store(Up)] + ([Guarded] + ([Guarded] + [Guarded]))));
      TouchedOnce(c.idle, n);
      RunTwice(c, Kept(c, 0), Touched(c.idle, n - 1), more);
      TouchedAtTheEnd(c, secs, at, [Guarded]);
      MillisecondsOf(n, secs);
      SleepsOn(c, secs, later);
    }
  }

  // Deciding at the instant of a touch while the counter has not wrapped.
  lemma SleepsOn(c: Config, secs: nat, at: Time)
    requires ValidConfig(c) && secs > 0 && c.idle == Seconds(secs) && at / MS < c.word
    ensures var s := State(at, Counted(c, at), at, at, map[], ClockRead(at));
            && Run(c, s, [Guarded]) == Kept(c, at)
            && ExactRun(c, s, [Guarded]) && StoresInOrder(c, s, [Guarded])
  {
    hide Run, ExactRun, StoresInOrder, Counted;
    var s := State(at, Counted(c, at), at, at, map[], ClockRead(at));
    assert [Guarded] == [Guarded] + [];
    Next(c, s, Guarded, []);
    CountedIsRest(c, at);
    MillisecondsOf(1, secs);
    assert IdleMs(c) == secs * 1000;
    AtEnd(c, Kept(c, at));
  }

  // The touches after which the counter has wrapped for the first time.
  function WrapsAfter(c: Config, secs: nat): (n: nat)
    requires ValidConfig(c) && secs > 0
    ensures n > 0 && (n - 1) * (secs * 1000) < c.word <= n * (secs * 1000)
  {
    var ms := secs * 1000;
    var n := (c.word + ms - 1) / ms;
    assert c.word + ms - 1 == n * ms + (c.word + ms - 1) % ms;
    Distribute(n - 1, 1, ms);
    assert n > 0;
    n
  }

  // From the moment the counter wraps, a limit that fits it never holds again: a session
  // whose every sleep ended with a touch is resolved at the very instant of the first touch
  // after the wrap.
  lemma WrapResolvesAtOnce(c: Config, secs: nat)
    requires ValidConfig(c) && secs > 0 && c.idle == Seconds(secs) && IdleMs(c) <= c.word
    ensures var n := WrapsAfter(c, secs);
            var at := n * c.idle;
            var events := [Guarded] + ([Guarded] + Touched(c.idle, n));
            && Run(c, Start(), events).guard == Resolved(at, at, at)
            && ExactRun(c, Start(), events) && StoresInOrder(c, Start(), events)
  {
    hide Run, ExactRun, StoresInOrder, Counted, Touched, IdleMs;
    var n := WrapsAfter(c, secs);
    var at, before := n * c.idle, (n - 1) * c.idle;
    Distribute(n - 1, 1, c.idle);
    FallsAsleep(c, secs, Touched(c.idle, n));
    StartsKept(c);
    KeepsSleeping(c, secs, n - 1);
    var more := [Pass(c.idle)] + ([ReadClock(Up)] + ([Store(Up)] + ([Guarded] + ([Guarded] + [Guarded]))));
    TouchedOnce(c.idle, n);
    RunTwice(c, Kept(c, 0), Touched(c.idle, n - 1), more);
    TouchedAtTheEnd(c, secs, before, [Guarded]);
    MillisecondsOf(n, secs);
    ResolvesWrapped(c, at);
  }

  lemma TouchedOnce(limit: Time, n: nat)
    requires n > 0
    ensures Touched(limit, n) == Touched(limit, n - 1)
            + ([Pass(limit)] + ([ReadClock(Up)] + ([Store(Up)] + ([Guarded] + ([Guarded] + [Guarded])))))
  {
  }

  lemma StartsKept(c: Config)
    requires ValidConfig(c)
    ensures Asleep(c.idle) == Kept(c, 0)
  {
    assert Counted(c, 0) == 0;
  }

  // Deciding at the instant of a touch after the counter has wrapped.
  lemma ResolvesWrapped(c: Config, at: Time)
    requires ValidConfig(c) && IdleMs(c) <= c.word <= at / MS
    ensures var s := State(at, Counted(c, at), at, at, map[], ClockRead(at));
            && Run(c, s, [Guarded]).guard == Resolved(at, at, at)
            && ExactRun(c, s, [Guarded]) && StoresInOrder(c, s, [Guarded])
  {
    hide Run, ExactRun, StoresInOrder, Counted;
    var s := State(at, Counted(c, at), at, at, map[], ClockRead(at));
    AtLeast(at / MS / c.word, c.word);
    CountedIsRest(c, at);
    assert [Guarded] == [Guarded] + [];
    Next(c, s, Guarded, []);
    AtEnd(c, Step(c, s, Guarded));
  }

  // ---- Never too late -------------------------------------------------------------------------

  // Exact sleeps: time passes only while the guard sleeps, and never past its waking.
  predicate Exact(s: State, e: Event)
  {
    e.Pass? ==> s.guard.Resolved? || (s.guard.Sleeping? && s.now + e.d <= s.guard.until)
  }

  predicate ExactRun(c: Config, s: State, events: seq<Event>)
    requires ValidConfig(c)
    decreases |events|
  {
    events == [] || (Exact(s, events[0]) && ExactRun(c, Step(c, s, events[0]), events[1..]))
  }

  function Deadline(c: Config, s: State): nat
  {
    (s.latest / MS + IdleMs(c) + NAP) * MS
  }

  ghost predicate Prompt(c: Config, s: State)
    requires ValidConfig(c)
  {
    && Sound(c, s)
    && match s.guard
       case Polling => s.now < Deadline(c, s)
       case ClockRead(at) => at == s.now < Deadline(c, s)
       case Sleeping(until) => s.now <= until < Deadline(c, s)
       case Resolved(_, _, _) => true
  }

  lemma CountedBounded(c: Config, touch: Time, latest: Time)
    requires ValidConfig(c) && touch <= latest
    ensures Counted(c, touch) <= latest / MS
  {
    assert touch / MS <= latest / MS;
    assert (touch / MS) % c.word <= touch / MS;
  }

  lemma NapsEndInTime(c: Config, at: Time, last: nat, latestMs: nat)
    requires last <= latestMs <= at / MS && Verdict(c, at, last).Some?
    ensures at + Verdict(c, at, last).value * MS < (latestMs + IdleMs(c) + NAP) * MS
  {
  }

  lemma GuardStepKeepsPrompt(c: Config, s: State)
    requires ValidConfig(c) && Prompt(c, s)
    ensures Prompt(c, GuardStep(c, s))
  {
    StepKeepsSound(c, s, Guarded);
    if s.guard.ClockRead? {
      CountedBounded(c, s.touch, s.latest);
      if Verdict(c, s.now, s.last).Some? {
        NapsEndInTime(c, s.now, s.last, s.latest / MS);
      }
    }
  }

  lemma StepKeepsPrompt(c: Config, s: State, e: Event)
    requires ValidConfig(c) && Prompt(c, s) && Exact(s, e)
    ensures Prompt(c, Step(c, s, e))
  {
    StepKeepsSound(c, s, e);
    if e.Guarded? {
      GuardStepKeepsPrompt(c, s);
    } else {
      var next := Step(c, s, e);
      assert s.latest <= next.latest;
      assert Deadline(c, s) <= Deadline(c, next);
    }
  }

  lemma {:induction false} RunKeepsPrompt(c: Config, s: State, events: seq<Event>)
    requires ValidConfig(c) && Prompt(c, s) && ExactRun(c, s, events)
    ensures Prompt(c, Run(c, s, events))
    decreases |events|
  {
    if events != [] {
      StepKeepsPrompt(c, s, events[0]);
      RunKeepsPrompt(c, Step(c, s, events[0]), events[1..]);
    }
  }

  // With exact sleeps the guard has resolved by the last touch + the idle limit + 50 ms,
  // whatever the directions do and even if the counter wraps.
  lemma NeverTooLate(c: Config, events: seq<Event>)
    requires ValidConfig(c) && ExactRun(c, Start(), events)
    ensures var s := Run(c, Start(), events);
            s.now >= s.latest + (IdleMs(c) + NAP) * MS ==> s.guard.Resolved?
  {
    StartSound(c);
    RunKeepsPrompt(c, Start(), events);
  }
}
