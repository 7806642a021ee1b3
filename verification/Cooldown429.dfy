/** Per-key HTTP 429 cooldown with exponential backoff and lazy forgetting. */
module Cooldown429 {
  import opened Bytes
  import opened Text
  import opened Wrappers

  type Time = nat

  // Nanoseconds in the longest `Duration`.
  const DURATION_MAX: nat := 0x1_0000_0000_0000_0000 * 1_000_000_000 - 1
  const STRIKES_MAX: nat := 0xFFFF_FFFF

  datatype Config = Config(base: nat, max: nat)

  predicate ValidConfig(cfg: Config)
  {
    cfg.base <= DURATION_MAX && cfg.max <= DURATION_MAX
  }

  datatype Entry = Entry(until: Option<Time>, strikes: nat)

  type Table = map<string, Entry>

  function Min(a: nat, b: nat): nat
  {
    if a < b then a else b
  }

  function KeyOf(key: string): string
  {
    Lower(Trim(key))
  }

  // Quiet for more than a whole `max` window, or never marked.
  predicate Forgotten(cfg: Config, e: Entry, now: Time)
  {
    e.until.None? || now > e.until.value + cfg.max
  }

  function Previous(m: Table, key: string): Entry
  {
    if key in m then m[key] else Entry(None, 0)
  }

  function Doubled(base: nat, times: nat): nat
  {
    if times == 0 then base else 2 * Doubled(base, times - 1)
  }

  // The base delay doubled once per consecutive strike and capped; Retry-After wins.
  function Delay(cfg: Config, prev: Entry, retryAfter: nat, now: Time): nat
  {
    if retryAfter > 0 then Min(retryAfter, cfg.max)
    else Min(Doubled(cfg.base, if Forgotten(cfg, prev, now) then 0 else prev.strikes), cfg.max)
  }

  function Marked(cfg: Config, m: Table, key: string, retryAfter: nat, now: Time): Table
  {
    var prev := Previous(m, key);
    var strikes := if Forgotten(cfg, prev, now) then 1 else Min(prev.strikes + 1, STRIKES_MAX);
    m[key := Entry(Some(now + Delay(cfg, prev, retryAfter, now)), strikes)]
  }

  function Left(m: Table, key: string, now: Time): nat
  {
    match Previous(m, key).until
    case None => 0
    case Some(until) => if until <= now then 0 else until - now
  }

  // A probe drops the entry it finds forgotten.
  function Probed(cfg: Config, m: Table, key: string, now: Time): Table
  {
    if key in m && m[key].until.Some? && Forgotten(cfg, m[key], now) then m - {key} else m
  }

  class Cooldown {
    const cfg: Config
    var inner: Table

    constructor (base: nat, max: nat)
      requires base <= DURATION_MAX && max <= DURATION_MAX
      ensures cfg == Config(base, max) && inner == map[]
    {
      cfg, inner := Config(base, max), map[];
    }

    // `steps` counts the doublings: about log2(max / base) of them, however many strikes.
    method NextDelay(prev: Entry, retryAfter: nat, now: Time) returns (delay: nat, ghost steps: nat)
      requires ValidConfig(cfg)
      ensures delay == Delay(cfg, prev, retryAfter, now)
      ensures steps >= 2 ==> Doubled(cfg.base, steps - 1) < cfg.max
      ensures steps <= prev.strikes
    {
      steps := 0;
      if retryAfter > 0 {
        return Min(retryAfter, cfg.max), 0;
      }
      var expired := prev.until.None? || now > prev.until.value + cfg.max;
      var strikes := if expired then 0 else prev.strikes;
      delay := cfg.base;
      for i := 0 to strikes
        invariant steps == i && delay <= DURATION_MAX
        invariant delay == Doubled(cfg.base, i)
        invariant i > 0 ==> delay < cfg.max
      {
        DoublingGrows(cfg.base, i + 1, strikes);
        delay := Min(delay * 2, DURATION_MAX);
        steps := i + 1;
        if delay >= cfg.max {
          return cfg.max, steps;
        }
      }
      delay := Min(delay, cfg.max);
    }

    method Remaining(rawKey: string, now: Time) returns (left: nat)
      modifies this
      ensures var key := KeyOf(rawKey);
              if key == "" then left == 0 && inner == old(inner)
              else left == Left(old(inner), key, now) && inner == Probed(cfg, old(inner), key, now)
      ensures forall k | k in old(inner) :: k in inner <==>
                k != KeyOf(rawKey) || k == "" || old(inner)[k].until.None? || now <= old(inner)[k].until.value + cfg.max
    {
      var key := KeyOf(rawKey);
      if key == "" {
        return 0;
      }
      if key !in inner || inner[key].until.None? {
        return 0;
      }
      var until := inner[key].until.value;
      if until <= now {
        if now > until + cfg.max {
          inner := inner - {key};
        }
        return 0;
      }
      return until - now;
    }

    method MarkFor(rawKey: string, retryAfter: nat, now: Time)
      requires ValidConfig(cfg)
      modifies this
      ensures var key := KeyOf(rawKey);
              inner == if key == "" then old(inner) else Marked(cfg, old(inner), key, retryAfter, now)
    {
      var key := KeyOf(rawKey);
      if key == "" {
        return;
      }
      var prev := if key in inner then inner[key] else Entry(None, 0);
      var delay, _ := NextDelay(prev, retryAfter, now);
      var expired := prev.until.None? || now > prev.until.value + cfg.max;
      var strikes := if expired then 1 else Min(prev.strikes + 1, STRIKES_MAX);
      inner := inner[key := Entry(Some(now + delay), strikes)];
    }

    method Clear(rawKey: string)
      modifies this
      ensures inner == if KeyOf(rawKey) == "" then old(inner) else old(inner) - {KeyOf(rawKey)}
    {
      var key := KeyOf(rawKey);
      if key == "" {
        return;
      }
      inner := inner - {key};
    }
  }

  lemma {:induction false} DoublingGrows(base: nat, i: nat, j: nat)
    requires i <= j
    ensures Doubled(base, i) <= Doubled(base, j)
    decreases j
  {
    if i < j {
      DoublingGrows(base, i, j - 1);
    }
  }

  // ---- Forgetting is invisible --------------------------------------------------------

  datatype Op = Probe(key: string) | Mark(key: string, retryAfter: nat) | Clear(key: string)

  datatype Call = Call(op: Op, at: Time)

  // One call on the table: the table afterwards, and the answer (time left, or delay set).
  function Do(cfg: Config, m: Table, c: Call): (Table, nat)
  {
    var key := KeyOf(c.op.key);
    if key == "" then (m, 0)
    else match c.op
      case Probe(_) => (Probed(cfg, m, key, c.at), Left(m, key, c.at))
      case Mark(_, retryAfter) =>
        (Marked(cfg, m, key, retryAfter, c.at), Delay(cfg, Previous(m, key), retryAfter, c.at))
      case Clear(_) => (m - {key}, 0)
  }

  // The reference: as `Do`, but a probe never deletes.
  function DoRemembering(cfg: Config, m: Table, c: Call): (Table, nat)
  {
    if c.op.Probe? then (m, Do(cfg, m, c).1) else Do(cfg, m, c)
  }

  function Answers(cfg: Config, m: Table, calls: seq<Call>): seq<nat>
    decreases |calls|
  {
    if calls == [] then []
    else
      var (next, answer) := Do(cfg, m, calls[0]);
      [answer] + Answers(cfg, next, calls[1..])
  }

  function AnswersRemembering(cfg: Config, m: Table, calls: seq<Call>): seq<nat>
    decreases |calls|
  {
    if calls == [] then []
    else
      var (next, answer) := DoRemembering(cfg, m, calls[0]);
      [answer] + AnswersRemembering(cfg, next, calls[1..])
  }

  predicate Monotone(calls: seq<Call>)
  {
    forall i, j | 0 <= i < j < |calls| :: calls[i].at <= calls[j].at
  }

  // The lazy table lacks only entries that count as forgotten by now.
  ghost predicate Agree(cfg: Config, m: Table, full: Table, now: Time)
  {
    && (forall k | k in m :: k in full && full[k] == m[k])
    && (forall k | k in full && k !in m :: full[k].until.Some? && Forgotten(cfg, full[k], now))
  }

  lemma OneCallAgrees(cfg: Config, m: Table, full: Table, c: Call)
    requires Agree(cfg, m, full, c.at)
    ensures Do(cfg, m, c).1 == DoRemembering(cfg, full, c).1
    ensures Agree(cfg, Do(cfg, m, c).0, DoRemembering(cfg, full, c).0, c.at)
  {
  }

  lemma {:induction false} CallsAgree(cfg: Config, m: Table, full: Table, calls: seq<Call>)
    requires Monotone(calls) && (calls != [] ==> Agree(cfg, m, full, calls[0].at))
    ensures Answers(cfg, m, calls) == AnswersRemembering(cfg, full, calls)
    decreases |calls|
  {
    if calls != [] {
      OneCallAgrees(cfg, m, full, calls[0]);
      CallsAgree(cfg, Do(cfg, m, calls[0]).0, DoRemembering(cfg, full, calls[0]).0, calls[1..]);
    }
  }

  // Any run of probes, marks and clears under a monotone clock gives the delays and the
  // times left of a table that never forgets.
  lemma ForgettingIsInvisible(cfg: Config, calls: seq<Call>)
    requires Monotone(calls)
    ensures Answers(cfg, map[], calls) == AnswersRemembering(cfg, map[], calls)
  {
    CallsAgree(cfg, map[], map[], calls);
  }

  // ---- What a probe tells ------------------------------------------------------------------

  predicate ChangesKey(key: string, c: Call)
  {
    KeyOf(c.op.key) == key && !c.op.Probe?
  }

  // The table holds the end of the key's cooldown, or that end is past.
  predicate Ends(m: Table, key: string, until: Time, now: Time)
  {
    if key in m then m[key].until == Some(until) else until <= now
  }

  lemma EndStays(cfg: Config, m: Table, key: string, until: Time, c: Call)
    requires key != "" && Ends(m, key, until, c.at) && !ChangesKey(key, c)
    ensures Ends(Do(cfg, m, c).0, key, until, c.at)
    ensures c.op.Probe? && KeyOf(c.op.key) == key ==>
              Do(cfg, m, c).1 == if until > c.at then until - c.at else 0
  {
    hide KeyOf, Doubled;
  }

  lemma {:induction false} EndIsTold(cfg: Config, m: Table, key: string, until: Time, calls: seq<Call>, j: nat)
    requires key != "" && Monotone(calls) && j < |calls| && Ends(m, key, until, calls[0].at)
    requires calls[j].op.Probe? && KeyOf(calls[j].op.key) == key
    requires forall k | 0 <= k < j :: !ChangesKey(key, calls[k])
    ensures |Answers(cfg, m, calls)| == |calls|
    ensures Answers(cfg, m, calls)[j] == if until > calls[j].at then until - calls[j].at else 0
    decreases |calls|
  {
    AnswersLength(cfg, m, calls);
    EndStays(cfg, m, key, until, calls[0]);
    var next := Do(cfg, m, calls[0]).0;
    assert Answers(cfg, m, calls) == [Do(cfg, m, calls[0]).1] + Answers(cfg, next, calls[1..]);
    if j > 0 {
      assert calls[0].at <= calls[1].at;
      hide Do, KeyOf;
      EndIsTold(cfg, next, key, until, calls[1..], j - 1);
    }
  }

  lemma {:induction false} AnswersFrom(cfg: Config, m: Table, calls: seq<Call>, i: nat) returns (at: Table)
    requires i < |calls|
    ensures |Answers(cfg, m, calls)| == |calls|
    ensures Answers(cfg, m, calls)[i..] == Answers(cfg, at, calls[i..])
    decreases |calls|
  {
    AnswersLength(cfg, m, calls);
    if i == 0 {
      at := m;
      assert calls[0..] == calls;
    } else {
      var next := Do(cfg, m, calls[0]).0;
      at := AnswersFrom(cfg, next, calls[1..], i - 1);
      assert Answers(cfg, m, calls) == [Do(cfg, m, calls[0]).1] + Answers(cfg, next, calls[1..]);
      assert calls[1..][i - 1..] == calls[i..];
      assert Answers(cfg, m, calls)[i..] == Answers(cfg, next, calls[1..])[i - 1..];
    }
  }

  // Time runs down: a mark that sets a delay is told by every later probe of the key as that
  // delay less the time since, down to nothing, whatever calls on other keys and further
  // probes come in between, until the key is marked again or cleared.
  lemma ProbeTellsTimeLeft(cfg: Config, m: Table, key: string, calls: seq<Call>, i: nat, j: nat)
    requires key != "" && Monotone(calls) && i < j < |calls| && MarksKey(key, calls[i])
    requires calls[j].op.Probe? && KeyOf(calls[j].op.key) == key
    requires forall k | i < k < j :: !ChangesKey(key, calls[k])
    ensures |Answers(cfg, m, calls)| == |calls|
    ensures var until := calls[i].at + Answers(cfg, m, calls)[i];
            Answers(cfg, m, calls)[j] == if until > calls[j].at then until - calls[j].at else 0
  {
    hide Do, KeyOf, Answers;
    var at := AnswersFrom(cfg, m, calls, i);
    var rest := calls[i..];
    var next := Do(cfg, at, rest[0]).0;
    var until := calls[i].at + Do(cfg, at, rest[0]).1;
    MarkEnds(cfg, at, key, rest[0]);
    AnswersStep(cfg, at, rest);
    EndIsTold(cfg, next, key, until, rest[1..], j - i - 1);
    TwoIndices(Answers(cfg, m, calls), i, j);
  }

  lemma AnswersStep(cfg: Config, m: Table, calls: seq<Call>)
    requires calls != []
    ensures Answers(cfg, m, calls) == [Do(cfg, m, calls[0]).1] + Answers(cfg, Do(cfg, m, calls[0]).0, calls[1..])
  {
    hide Do;
  }

  lemma TwoIndices(s: seq<nat>, i: nat, j: nat)
    requires i < j < |s|
    ensures s[i..][0] == s[i] && s[i..][1..][j - i - 1] == s[j]
  {
  }

  lemma MarkEnds(cfg: Config, m: Table, key: string, c: Call)
    requires key != "" && MarksKey(key, c)
    ensures var next := Do(cfg, m, c).0;
            key in next && next[key].until == Some(c.at + Do(cfg, m, c).1)
  {
    hide KeyOf, Doubled;
  }

  // The answer for a key nothing is remembered of.
  function FreshAnswer(cfg: Config, op: Op): nat
    requires !op.Clear?
  {
    if op.Probe? then 0
    else Min(if op.retryAfter > 0 then op.retryAfter else cfg.base, cfg.max)
  }

  lemma FreshStep(cfg: Config, m: Table, key: string, c: Call)
    requires key != "" && key !in m
    ensures KeyOf(c.op.key) == key && !c.op.Clear? ==> Do(cfg, m, c).1 == FreshAnswer(cfg, c.op)
    ensures !MarksKey(key, c) ==> key !in Do(cfg, m, c).0
  {
    hide KeyOf;
    assert Doubled(cfg.base, 0) == cfg.base;
  }

  lemma {:induction false} FreshUntilMarked(cfg: Config, m: Table, key: string, calls: seq<Call>, j: nat)
    requires key != "" && key !in m && j < |calls| && KeyOf(calls[j].op.key) == key && !calls[j].op.Clear?
    requires forall k | 0 <= k < j :: !MarksKey(key, calls[k])
    ensures |Answers(cfg, m, calls)| == |calls| && Answers(cfg, m, calls)[j] == FreshAnswer(cfg, calls[j].op)
    decreases |calls|
  {
    AnswersLength(cfg, m, calls);
    AnswersStep(cfg, m, calls);
    FreshStep(cfg, m, key, calls[0]);
    if j > 0 {
      hide Do, KeyOf, Answers, FreshAnswer;
      FreshUntilMarked(cfg, Do(cfg, m, calls[0]).0, key, calls[1..], j - 1);
    }
  }

  // A key that was never marked has no time left.
  lemma ProbeTellsNothing(cfg: Config, key: string, calls: seq<Call>, j: nat)
    requires key != "" && j < |calls| && calls[j].op.Probe? && KeyOf(calls[j].op.key) == key
    requires forall k | 0 <= k < j :: !MarksKey(key, calls[k])
    ensures |Answers(cfg, map[], calls)| == |calls| && Answers(cfg, map[], calls)[j] == 0
  {
    hide KeyOf, Answers;
    FreshUntilMarked(cfg, map[], key, calls, j);
  }

  // A clear forgets everything: until the key is marked again no probe has time left, and that
  // mark sets the first delay again.
  lemma ClearForgets(cfg: Config, m: Table, key: string, calls: seq<Call>, i: nat, j: nat)
    requires key != "" && i < j < |calls| && calls[i].op.Clear? && KeyOf(calls[i].op.key) == key
    requires KeyOf(calls[j].op.key) == key && !calls[j].op.Clear?
    requires forall k | i < k < j :: !MarksKey(key, calls[k])
    ensures |Answers(cfg, m, calls)| == |calls| && Answers(cfg, m, calls)[j] == FreshAnswer(cfg, calls[j].op)
  {
    hide Do, KeyOf, Answers, FreshAnswer;
    var at := AnswersFrom(cfg, m, calls, i);
    var rest := calls[i..];
    AnswersStep(cfg, at, rest);
    Cleared(cfg, at, key, rest[0]);
    FreshUntilMarked(cfg, Do(cfg, at, rest[0]).0, key, rest[1..], j - i - 1);
    TwoIndices(Answers(cfg, m, calls), i, j);
  }

  lemma Cleared(cfg: Config, m: Table, key: string, c: Call)
    requires key != "" && c.op.Clear? && KeyOf(c.op.key) == key
    ensures key !in Do(cfg, m, c).0
  {
    hide KeyOf;
  }

  // ---- Escalation -----------------------------------------------------------------------

  // A call that keeps a streak of marks on `key` alive: no clear, and nothing on the key
  // later than a whole `max` window after its cooldown ended.
  predicate StreakCall(cfg: Config, key: string, until: Time, c: Call)
  {
    KeyOf(c.op.key) == key ==> !c.op.Clear? && c.at <= until + cfg.max
  }

  predicate MarksKey(key: string, c: Call)
  {
    c.op.Mark? && KeyOf(c.op.key) == key
  }

  // What a mark sets after `marks` earlier ones: an explicit Retry-After wins for that one
  // mark, without breaking the streak.
  function Set(cfg: Config, marks: nat, retryAfter: nat): nat
  {
    Min(if retryAfter > 0 then retryAfter else Doubled(cfg.base, marks), cfg.max)
  }

  // The end of the cooldown after one more call of the streak.
  function Until(cfg: Config, key: string, until: Time, marks: nat, c: Call): Time
  {
    if MarksKey(key, c) then c.at + Set(cfg, marks, c.op.retryAfter) else until
  }

  predicate KeepsStreak(cfg: Config, key: string, until: Time, marks: nat, calls: seq<Call>)
    decreases |calls|
  {
    calls != [] ==>
      && StreakCall(cfg, key, until, calls[0])
      && KeepsStreak(cfg, key, Until(cfg, key, until, marks, calls[0]),
                     if MarksKey(key, calls[0]) then marks + 1 else marks, calls[1..])
  }

  function MarksOn(key: string, calls: seq<Call>): nat
  {
    if calls == [] then 0
    else (if MarksKey(key, calls[0]) then 1 else 0) + MarksOn(key, calls[1..])
  }

  lemma {:induction false} DoubledIsPower(base: nat, times: nat)
    ensures Doubled(base, times) == base * Pow2(times)
  {
    if times > 0 {
      DoubledIsPower(base, times - 1);
    }
  }

  lemma EightMore(base: nat, times: nat)
    ensures Doubled(base, times + 8) == 0x100 * Doubled(base, times)
  {
    assert Doubled(base, times + 2) == 4 * Doubled(base, times);
    assert Doubled(base, times + 4) == 4 * Doubled(base, times + 2);
    assert Doubled(base, times + 6) == 4 * Doubled(base, times + 4);
  }

  lemma ThirtyTwoMore(base: nat, times: nat)
    ensures Doubled(base, times + 32) == 0x1_0000_0000 * Doubled(base, times)
  {
    hide Doubled;
    EightMore(base, times);
    EightMore(base, times + 8);
    EightMore(base, times + 16);
    EightMore(base, times + 24);
  }

  // No delay survives 96 doublings below the cap.
  lemma EnoughDoublings(base: nat, times: nat, max: nat)
    requires base > 0 && times >= 96 && max <= DURATION_MAX
    ensures Doubled(base, times) > max
  {
    assert Doubled(base, times - 96) >= base by {
      DoublingGrows(base, 0, times - 96);
    }
    hide Doubled;
    ThirtyTwoMore(base, times - 96);
    ThirtyTwoMore(base, times - 64);
    ThirtyTwoMore(base, times - 32);
  }

  lemma {:induction false} NothingDoubled(times: nat)
    ensures Doubled(0, times) == 0
  {
    if times > 0 {
      NothingDoubled(times - 1);
    }
  }

  // The 32-bit strike counter saturates long after the delay has reached the cap.
  lemma SaturationIsUnseen(cfg: Config, marks: nat)
    requires ValidConfig(cfg)
    ensures Min(Doubled(cfg.base, Min(marks, STRIKES_MAX)), cfg.max) == Min(Doubled(cfg.base, marks), cfg.max)
  {
    hide Doubled;
    if marks > STRIKES_MAX {
      if cfg.base == 0 {
        NothingDoubled(marks);
        NothingDoubled(STRIKES_MAX);
      } else {
        EnoughDoublings(cfg.base, STRIKES_MAX, cfg.max);
        EnoughDoublings(cfg.base, marks, cfg.max);
      }
    }
  }

  ghost predicate InStreak(m: Table, key: string, until: Time, marks: nat)
  {
    key in m && m[key] == Entry(Some(until), Min(marks, STRIKES_MAX))
  }

  lemma StreakGoesOn(cfg: Config, m: Table, key: string, until: Time, marks: nat, c: Call)
    requires ValidConfig(cfg) && key != "" && marks > 0
    requires InStreak(m, key, until, marks) && StreakCall(cfg, key, until, c)
    ensures var next := Do(cfg, m, c).0;
            InStreak(next, key, Until(cfg, key, until, marks, c), if MarksKey(key, c) then marks + 1 else marks)
    ensures MarksKey(key, c) ==> Do(cfg, m, c).1 == Set(cfg, marks, c.op.retryAfter)
  {
    SaturationIsUnseen(cfg, marks);
  }

  // During a streak, whatever probes and other keys come in between, every further mark
  // doubles the cooldown up to the cap.
  lemma {:induction false} StreakEscalates(cfg: Config, m: Table, key: string, until: Time, marks: nat,
                                           calls: seq<Call>, i: nat)
    requires ValidConfig(cfg) && key != "" && marks > 0
    requires InStreak(m, key, until, marks) && KeepsStreak(cfg, key, until, marks, calls)
    requires i < |calls| && MarksKey(key, calls[i])
    ensures |Answers(cfg, m, calls)| == |calls|
    ensures Answers(cfg, m, calls)[i] == Set(cfg, marks + MarksOn(key, calls[..i]), calls[i].op.retryAfter)
    decreases |calls|
  {
    hide KeyOf, Doubled, Marked, Probed, Left, Previous;
    AnswersLength(cfg, m, calls);
    StreakGoesOn(cfg, m, key, until, marks, calls[0]);
    var next := Do(cfg, m, calls[0]).0;
    var last := Until(cfg, key, until, marks, calls[0]);
    var count := if MarksKey(key, calls[0]) then marks + 1 else marks;
    assert Answers(cfg, m, calls) == [Do(cfg, m, calls[0]).1] + Answers(cfg, next, calls[1..]);
    if i > 0 {
      assert calls[..i][1..] == calls[1..][..i - 1] && calls[..i][0] == calls[0];
      assert marks + MarksOn(key, calls[..i]) == count + MarksOn(key, calls[1..][..i - 1]);
      hide Do, InStreak, StreakCall, Until;
      StreakEscalates(cfg, next, key, last, count, calls[1..], i - 1);
    }
  }

  lemma {:induction false} AnswersLength(cfg: Config, m: Table, calls: seq<Call>)
    ensures |Answers(cfg, m, calls)| == |calls|
    decreases |calls|
  {
    if calls != [] {
      AnswersLength(cfg, Do(cfg, m, calls[0]).0, calls[1..]);
    }
  }

  lemma StreakStarts(cfg: Config, m: Table, key: string, c: Call)
    requires ValidConfig(cfg) && key != "" && MarksKey(key, c)
    requires key !in m || m[key].until.None? || c.at > m[key].until.value + cfg.max
    ensures InStreak(Do(cfg, m, c).0, key, c.at + Set(cfg, 0, c.op.retryAfter), 1)
    ensures Do(cfg, m, c).1 == Set(cfg, 0, c.op.retryAfter)
  {
  }

  // The k-th consecutive mark, counted from one that finds the key absent, cleared or
  // forgotten, sets a cooldown of min(base * 2^(k-1), max) unless it carries a Retry-After.
  lemma KthMark(cfg: Config, m: Table, key: string, calls: seq<Call>, i: nat)
    requires ValidConfig(cfg) && key != ""
    requires i < |calls| && MarksKey(key, calls[0]) && MarksKey(key, calls[i])
    requires key !in m || m[key].until.None? || calls[0].at > m[key].until.value + cfg.max
    requires KeepsStreak(cfg, key, calls[0].at + Set(cfg, 0, calls[0].op.retryAfter), 1, calls[1..])
    ensures |Answers(cfg, m, calls)| == |calls|
    ensures var retryAfter := calls[i].op.retryAfter;
            Answers(cfg, m, calls)[i] ==
            Min(if retryAfter > 0 then retryAfter else cfg.base * Pow2(MarksOn(key, calls[..i])), cfg.max)
  {
    hide Pow2, KeyOf, Do, InStreak, Min, Doubled;
    AnswersLength(cfg, m, calls);
    StreakStarts(cfg, m, key, calls[0]);
    var next := Do(cfg, m, calls[0]).0;
    assert Answers(cfg, m, calls) == [Do(cfg, m, calls[0]).1] + Answers(cfg, next, calls[1..]);
    if i > 0 {
      StreakEscalates(cfg, next, key, calls[0].at + Set(cfg, 0, calls[0].op.retryAfter), 1, calls[1..], i - 1);
      assert calls[..i][1..] == calls[1..][..i - 1] && calls[..i][0] == calls[0];
    }
    DoubledIsPower(cfg.base, MarksOn(key, calls[..i]));
  }

  // Two names share a cooldown exactly when they differ only in the case of letters and in the
  // spaces around them; blank names have none.
  lemma KeysAgree(a: string, b: string)
    ensures KeyOf(a) == KeyOf(b) <==> OnlyCaseDiffers(Trim(a), Trim(b))
    ensures KeyOf(a) == "" <==> AllSpaces(a)
  {
    LowerExactly(Trim(a), Trim(b));
    BlankIsTrimmed(a);
    hide Lower, Trim;
    assert |KeyOf(a)| == |Trim(a)|;
  }

  lemma BlankIsTrimmed(a: string)
    ensures Trim(a) == "" <==> AllSpaces(a)
  {
    TrimExactly(a, "");
    hide IsSpace, Trim;
    if AllSpaces(a) {
      assert a == a + "" + "";
      assert AllSpaces("");
    }
    if Trims(a, "") {
      var x, y :| AllSpaces(x) && AllSpaces(y) && a == x + "" + y;
    }
  }
}
