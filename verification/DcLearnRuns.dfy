/** Concurrent learning: lock sections and file appends interleave between two loads. */
module DcLearnRuns {
  import opened DcLearn
  import opened Mtproto
  import opened Text

  // `checked` holds the calls past their first checks, `queued` the entries inserted but not
  // yet appended, `open` those whose line break is still to come, and `appended` the
  // addresses written so far; `dropped` those whose append failed.
  datatype State = State(mem: Table, checked: map<nat, Entry>, queued: Table, open: set<string>,
                         file: string, appended: seq<string>, dropped: set<string>)

  // A call checks, inserts, and has its line appended in two writes: text, then line break.
  // An append may also fail before it writes anything, which is only logged.
  datatype Event =
    | Check(id: nat, e: Entry)
    | Insert(id: nat)
    | WriteText(ip: string)
    | WriteBreak(ip: string)
    | AppendFails(failed: string)

  function Start(learnFile: string, adminFile: string): State
  {
    State(Reload(learnFile, adminFile), map[], map[], {}, learnFile, [], {})
  }

  function Checked(hardcoded: set<string>, s: State, id: nat, e: Entry): State
  {
    if || e.ip == "" || !ValidDc(e.slot.dc) || e.ip in hardcoded || e.ip in s.mem || id in s.checked then s
    else s.(checked := s.checked[id := e])
  }

  function Inserted(s: State, id: nat): State
  {
    if id !in s.checked then s
    else
      var e := s.checked[id];
      var t := s.(checked := s.checked - {id});
      if e.ip in s.mem then t
      else t.(mem := s.mem[e.ip := e.slot], queued := s.queued[e.ip := e.slot])
  }

  function TextWritten(s: State, ip: string): State
    requires ip in s.queued ==> ValidDc(s.queued[ip].dc)
  {
    if ip !in s.queued then s
    else s.(file := s.file + LineText(Entry(ip, s.queued[ip])), queued := s.queued - {ip},
            open := s.open + {ip}, appended := s.appended + [ip])
  }

  function BreakWritten(s: State, ip: string): State
  {
    if ip !in s.open then s else s.(file := s.file + ['\n'], open := s.open - {ip})
  }

  function Failed(s: State, ip: string): State
  {
    if ip !in s.queued then s else s.(queued := s.queued - {ip}, dropped := s.dropped + {ip})
  }

  predicate Sane(s: State)
  {
    && (forall id | id in s.checked :: ValidDc(s.checked[id].slot.dc))
    && (forall ip | ip in s.queued :: ValidDc(s.queued[ip].dc))
  }

  function Step(hardcoded: set<string>, s: State, ev: Event): (t: State)
    requires Sane(s)
    ensures Sane(t)
  {
    match ev
    case Check(id, e) => Checked(hardcoded, s, id, e)
    case Insert(id) => Inserted(s, id)
    case WriteText(ip) => TextWritten(s, ip)
    case WriteBreak(ip) => BreakWritten(s, ip)
    case AppendFails(ip) => Failed(s, ip)
  }

  function Run(hardcoded: set<string>, s: State, events: seq<Event>): (t: State)
    requires Sane(s)
    ensures Sane(t)
    decreases |events|
  {
    if events == [] then s else Run(hardcoded, Step(hardcoded, s, events[0]), events[1..])
  }

  // ---- First observation wins, one line each ---------------------------------------------------

  ghost predicate Bookkeeping(s: State, m0: Table)
  {
    && (forall ip | ip in m0 :: ip in s.mem && s.mem[ip] == m0[ip])
    && (forall ip | ip in s.queued :: ip in s.mem && ip !in m0 && s.queued[ip] == s.mem[ip])
    && (forall ip | ip in s.appended :: ip in s.mem && ip !in m0 && ip !in s.queued)
    && (forall ip | ip in s.dropped :: ip in s.mem && ip !in m0 && ip !in s.queued && ip !in s.appended)
    && (forall ip | ip in s.mem :: ip in m0 || ip in s.queued || ip in s.appended || ip in s.dropped)
    && (forall i, j | 0 <= i < j < |s.appended| :: s.appended[i] != s.appended[j])
  }

  lemma StepKeepsBooks(hardcoded: set<string>, s: State, m0: Table, ev: Event)
    requires Sane(s) && Bookkeeping(s, m0)
    ensures Bookkeeping(Step(hardcoded, s, ev), m0)
    ensures forall ip | ip in s.mem :: ip in Step(hardcoded, s, ev).mem && Step(hardcoded, s, ev).mem[ip] == s.mem[ip]
  {
    hide Bookkeeping, Inserted, TextWritten, Failed, LineText;
    match ev
    case Check(_, _) => CheckKeepsBooks(hardcoded, s, m0, ev);
    case Insert(id) => InsertKeepsBooks(s, m0, id);
    case WriteText(ip) => TextKeepsBooks(s, m0, ip);
    case WriteBreak(ip) => CheckKeepsBooks(hardcoded, s, m0, ev);
    case AppendFails(ip) => FailureKeepsBooks(s, m0, ip);
  }

  // A check or a line break changes nothing the books are about.
  lemma CheckKeepsBooks(hardcoded: set<string>, s: State, m0: Table, ev: Event)
    requires Sane(s) && Bookkeeping(s, m0) && (ev.Check? || ev.WriteBreak?)
    ensures var t := Step(hardcoded, s, ev); Bookkeeping(t, m0) && t.mem == s.mem
  {
    var t := Step(hardcoded, s, ev);
    assert t.mem == s.mem && t.queued == s.queued && t.appended == s.appended && t.dropped == s.dropped;
  }

  lemma InsertKeepsBooks(s: State, m0: Table, id: nat)
    requires Sane(s) && Bookkeeping(s, m0)
    ensures Bookkeeping(Inserted(s, id), m0)
    ensures forall ip | ip in s.mem :: ip in Inserted(s, id).mem && Inserted(s, id).mem[ip] == s.mem[ip]
  {
  }

  lemma TextKeepsBooks(s: State, m0: Table, ip: string)
    requires Sane(s) && Bookkeeping(s, m0)
    ensures Bookkeeping(TextWritten(s, ip), m0) && TextWritten(s, ip).mem == s.mem
  {
    hide LineText;
  }

  lemma FailureKeepsBooks(s: State, m0: Table, ip: string)
    requires Sane(s) && Bookkeeping(s, m0)
    ensures Bookkeeping(Failed(s, ip), m0) && Failed(s, ip).mem == s.mem
  {
  }

  lemma {:induction false} RunKeepsBooks(hardcoded: set<string>, s: State, m0: Table, events: seq<Event>)
    requires Sane(s) && Bookkeeping(s, m0)
    ensures Bookkeeping(Run(hardcoded, s, events), m0)
    ensures forall ip | ip in s.mem ::
              ip in Run(hardcoded, s, events).mem && Run(hardcoded, s, events).mem[ip] == s.mem[ip]
    decreases |events|
  {
    if events != [] {
      StepKeepsBooks(hardcoded, s, m0, events[0]);
      hide Bookkeeping, Step;
      RunKeepsBooks(hardcoded, Step(hardcoded, s, events[0]), m0, events[1..]);
    }
  }

  // However the calls and the appends interleave: an address keeps the slot first observed,
  // a loaded one keeps the loaded slot, and no address is appended twice or when loaded.
  lemma FirstObservationWins(hardcoded: set<string>, learnFile: string, adminFile: string,
                             events: seq<Event>, i: nat)
    requires i <= |events|
    ensures var s := Run(hardcoded, Start(learnFile, adminFile), events[..i]);
            var t := Run(hardcoded, Start(learnFile, adminFile), events);
            && (forall ip | ip in s.mem :: ip in t.mem && t.mem[ip] == s.mem[ip])
            && (forall j, k | 0 <= j < k < |t.appended| :: t.appended[j] != t.appended[k])
            && (forall ip | ip in t.appended :: ip in t.mem && ip !in Reload(learnFile, adminFile))
  {
    hide Run, Reload, Step;
    var s0 := Start(learnFile, adminFile);
    var m0 := Reload(learnFile, adminFile);
    RunKeepsBooks(hardcoded, s0, m0, events[..i]);
    RunKeepsBooks(hardcoded, Run(hardcoded, s0, events[..i]), m0, events[i..]);
    RunTwice(hardcoded, s0, events[..i], events[i..]);
    assert events[..i] + events[i..] == events;
  }

  lemma {:induction false} RunTwice(hardcoded: set<string>, s: State, a: seq<Event>, b: seq<Event>)
    requires Sane(s)
    ensures Run(hardcoded, s, a + b) == Run(hardcoded, Run(hardcoded, s, a), b)
    decreases |a|
  {
    hide Step;
    if a == [] {
      assert a + b == b;
    } else {
      assert (a + b)[1..] == a[1..] + b && (a + b)[0] == a[0];
      RunTwice(hardcoded, Step(hardcoded, s, a[0]), a[1..], b);
    }
  }

  // ---- The file restores the map -------------------------------------------------------------------

  // The text is written on a line of its own.
  predicate OwnLine(s: State, ev: Event)
  {
    ev.WriteText? && ev.ip in s.queued ==> AllSpaces(Last(s.file))
  }

  predicate OwnLines(hardcoded: set<string>, s: State, events: seq<Event>)
    requires Sane(s)
    decreases |events|
  {
    events == [] || (OwnLine(s, events[0]) && OwnLines(hardcoded, Step(hardcoded, s, events[0]), events[1..]))
  }

  ghost predicate AllIpv4(s: State, m0: Table)
  {
    forall ip | ip in s.mem && ip !in m0 :: IsIpv4(ip)
  }

  function FromFile(file: string): Table
  {
    Loaded(map[], Lines(file))
  }

  // What the file holds: what it held at the start, and the entries appended since.
  ghost predicate Holds(f: Table, mem: Table, appended: seq<string>, l0: Table)
  {
    && (forall ip :: ip in f <==> ip in l0 || ip in appended)
    && (forall ip | ip in l0 :: ip !in appended && f[ip] == l0[ip])
    && (forall ip | ip in appended :: ip in mem && f[ip] == mem[ip])
  }

  lemma HoldsMore(f: Table, mem: Table, appended: seq<string>, l0: Table, ip: string)
    requires Holds(f, mem, appended, l0) && ip in mem && ip !in l0
    ensures Holds(f[ip := mem[ip]], mem, appended + [ip], l0)
  {
  }

  ghost predicate FileHolds(s: State, l0: Table)
  {
    Holds(FromFile(s.file), s.mem, s.appended, l0)
  }

  lemma TextGrows(s: State, ip: string)
    requires Sane(s) && ip in s.queued && AllSpaces(Last(s.file)) && IsIpv4(ip)
    ensures FromFile(TextWritten(s, ip).file) == FromFile(s.file)[ip := s.queued[ip]]
  {
    TextLoads(s.file, Entry(ip, s.queued[ip]));
  }

  lemma TextKeepsFile(s: State, m0: Table, l0: Table, ip: string)
    requires Sane(s) && Bookkeeping(s, m0) && FileHolds(s, l0) && ip in s.queued
    requires AllSpaces(Last(s.file)) && IsIpv4(ip) && l0.Keys <= m0.Keys
    ensures FileHolds(TextWritten(s, ip), l0)
  {
    TextGrows(s, ip);
    assert s.queued[ip] == s.mem[ip] && ip !in m0;
    hide Bookkeeping, IsIpv4, AllSpaces, FromFile, LineText;
    HoldsMore(FromFile(s.file), s.mem, s.appended, l0, ip);
    hide Holds;
  }

  lemma BreakKeepsFile(s: State, l0: Table, ip: string)
    requires FileHolds(s, l0)
    ensures FileHolds(BreakWritten(s, ip), l0)
  {
    BreakLoads(s.file);
    hide Loaded, Lines, Holds;
  }

  lemma InsertKeepsFile(s: State, m0: Table, l0: Table, id: nat)
    requires Sane(s) && Bookkeeping(s, m0) && FileHolds(s, l0)
    ensures FileHolds(Inserted(s, id), l0)
  {
    hide FromFile;
  }

  lemma StepKeepsFile(hardcoded: set<string>, s: State, m0: Table, l0: Table, ev: Event)
    requires Sane(s) && Bookkeeping(s, m0) && FileHolds(s, l0) && OwnLine(s, ev)
    requires AllIpv4(s, m0) && l0.Keys <= m0.Keys
    ensures FileHolds(Step(hardcoded, s, ev), l0)
  {
    hide IsIpv4, AllSpaces, FromFile, LineText, Holds;
    match ev
    case Check(_, _) =>
    case Insert(id) => InsertKeepsFile(s, m0, l0, id);
    case WriteText(ip) =>
      if ip in s.queued {
        TextKeepsFile(s, m0, l0, ip);
      }
    case WriteBreak(ip) => BreakKeepsFile(s, l0, ip);
    case AppendFails(_) =>
  }

  lemma GrownKeepsIpv4(hardcoded: set<string>, s: State, m0: Table, events: seq<Event>)
    requires Sane(s) && Bookkeeping(s, m0) && AllIpv4(Run(hardcoded, s, events), m0)
    ensures AllIpv4(s, m0)
  {
    hide IsIpv4, Run;
    RunKeepsBooks(hardcoded, s, m0, events);
  }

  lemma {:induction false} CleanRunHolds(hardcoded: set<string>, s: State, m0: Table, l0: Table, events: seq<Event>)
    requires Sane(s) && Bookkeeping(s, m0) && FileHolds(s, l0) && l0.Keys <= m0.Keys
    requires OwnLines(hardcoded, s, events) && AllIpv4(Run(hardcoded, s, events), m0)
    ensures FileHolds(Run(hardcoded, s, events), l0)
    decreases |events|
  {
    if events != [] {
      hide FileHolds, Bookkeeping, AllIpv4, OwnLine, Step;
      GrownKeepsIpv4(hardcoded, s, m0, events);
      StepKeepsFile(hardcoded, s, m0, l0, events[0]);
      StepKeepsBooks(hardcoded, s, m0, events[0]);
      CleanRunHolds(hardcoded, Step(hardcoded, s, events[0]), m0, l0, events[1..]);
    }
  }

  // An address whose entry was lost stays out of the file.
  ghost predicate Missing(s: State, m0: Table, ip: string)
  {
    ip in s.mem && ip !in s.queued && ip !in m0 && Lost(s.file, ip)
  }

  lemma StepKeepsMissing(hardcoded: set<string>, s: State, m0: Table, ip: string, ev: Event)
    requires Sane(s) && Bookkeeping(s, m0) && Missing(s, m0, ip) && AllIpv4(s, m0)
    ensures Missing(Step(hardcoded, s, ev), m0, ip)
  {
    hide IsIpv4, Lost, LineText;
    match ev
    case Check(_, _) =>
    case Insert(_) =>
    case WriteText(other) =>
      if other in s.queued {
        LostStaysLost(s.file, ip, Entry(other, s.queued[other]));
      }
    case WriteBreak(_) => LostPastBreak(s.file, ip);
    case AppendFails(_) =>
  }

  lemma {:induction false} RunKeepsMissing(hardcoded: set<string>, s: State, m0: Table, ip: string, events: seq<Event>)
    requires Sane(s) && Bookkeeping(s, m0) && Missing(s, m0, ip) && AllIpv4(Run(hardcoded, s, events), m0)
    ensures Missing(Run(hardcoded, s, events), m0, ip)
    decreases |events|
  {
    if events != [] {
      hide Missing, Bookkeeping, AllIpv4, Step;
      GrownKeepsIpv4(hardcoded, s, m0, events);
      StepKeepsMissing(hardcoded, s, m0, ip, events[0]);
      StepKeepsBooks(hardcoded, s, m0, events[0]);
      RunKeepsMissing(hardcoded, Step(hardcoded, s, events[0]), m0, ip, events[1..]);
    }
  }

  lemma MergeMisses(s: State, m0: Table, l0: Table, ip: string)
    requires Sane(s) && Bookkeeping(s, m0) && FileHolds(s, l0) && l0.Keys <= m0.Keys
    requires ip in s.queued && IsIpv4(ip) && !AllSpaces(Last(s.file))
    ensures Missing(TextWritten(s, ip), m0, ip)
  {
    hide IsIpv4, AllSpaces, LineText, Loaded, Lines, Lost;
    assert ip !in FromFile(s.file);
    MergingLoses(s.file, Entry(ip, s.queued[ip]));
  }

  lemma {:induction false} DirtyRunMisses(hardcoded: set<string>, s: State, m0: Table, l0: Table, events: seq<Event>)
    returns (ip: string)
    requires Sane(s) && Bookkeeping(s, m0) && FileHolds(s, l0) && l0.Keys <= m0.Keys
    requires !OwnLines(hardcoded, s, events) && AllIpv4(Run(hardcoded, s, events), m0)
    ensures Missing(Run(hardcoded, s, events), m0, ip)
    decreases |events|
  {
    hide FileHolds, Missing, Step;
    GrownKeepsIpv4(hardcoded, s, m0, events);
    var ev := events[0];
    var next := Step(hardcoded, s, ev);
    StepKeepsBooks(hardcoded, s, m0, ev);
    if OwnLine(s, ev) {
      hide Bookkeeping, AllIpv4;
      StepKeepsFile(hardcoded, s, m0, l0, ev);
      ip := DirtyRunMisses(hardcoded, next, m0, l0, events[1..]);
    } else {
      ip := ev.ip;
      assert IsIpv4(ip);
      hide Bookkeeping, AllIpv4, IsIpv4;
      MergeMisses(s, m0, l0, ip);
      StepIsText(hardcoded, s, ip);
      RunKeepsMissing(hardcoded, next, m0, ip, events[1..]);
    }
  }

  lemma StepIsText(hardcoded: set<string>, s: State, ip: string)
    requires Sane(s)
    ensures Step(hardcoded, s, WriteText(ip)) == TextWritten(s, ip)
  {
  }

  lemma StartHolds(learnFile: string, adminFile: string)
    ensures var l0, m0 := FromFile(learnFile), Reload(learnFile, adminFile);
            && m0 == l0 + FromFile(adminFile)
            && Bookkeeping(Start(learnFile, adminFile), m0) && FileHolds(Start(learnFile, adminFile), l0)
  {
    LoadedOver(FromFile(learnFile), Lines(adminFile));
    hide Loaded, Lines;
  }

  lemma RestoredWhenHeld(s: State, m0: Table, l0: Table, la: Table)
    requires Bookkeeping(s, m0) && FileHolds(s, l0) && m0 == l0 + la && s.queued == map[]
    ensures FromFile(s.file) + la == s.mem <==> s.dropped == {}
  {
    var f := FromFile(s.file);
    hide FromFile;
    if s.dropped == {} {
      forall ip ensures ip in f + la <==> ip in s.mem {
      }
      forall ip | ip in s.mem ensures (f + la)[ip] == s.mem[ip] {
      }
    } else {
      var ip :| ip in s.dropped;
      assert ip in s.mem && ip !in f + la;
    }
  }

  // Once nothing is left to append, loading the files again restores exactly the map, if and
  // only if every learned address was IPv4 text, no append failed and every entry was
  // written on a line of its own.
  lemma ReloadRestores(hardcoded: set<string>, learnFile: string, adminFile: string, events: seq<Event>)
    requires Run(hardcoded, Start(learnFile, adminFile), events).queued == map[]
    ensures var s0 := Start(learnFile, adminFile);
            var t := Run(hardcoded, s0, events);
            Reload(t.file, adminFile) == t.mem <==>
            AllIpv4(t, s0.mem) && t.dropped == {} && OwnLines(hardcoded, s0, events)
  {
    var s0 := Start(learnFile, adminFile);
    var t := Run(hardcoded, s0, events);
    var l0, la, m0 := FromFile(learnFile), FromFile(adminFile), s0.mem;
    StartHolds(learnFile, adminFile);
    StartHolds(t.file, adminFile);
    hide Run, Reload, Bookkeeping, FileHolds, OwnLines;
    RunKeepsBooks(hardcoded, s0, m0, events);
    if AllIpv4(t, m0) {
      if OwnLines(hardcoded, s0, events) {
        CleanRunHolds(hardcoded, s0, m0, l0, events);
        RestoredWhenHeld(t, m0, l0, la);
      } else {
        var ip := DirtyRunMisses(hardcoded, s0, m0, l0, events);
        LoadedKeyless(Lines(t.file), ip);
        assert ip in t.mem && ip !in FromFile(t.file) && ip !in la;
      }
    } else if FromFile(t.file) + la == t.mem {
      var ip :| ip in t.mem && ip !in m0 && !IsIpv4(ip);
      LoadedIsIpv4(Lines(if ip in la then adminFile else t.file), ip);
      assert false;
    }
  }

  // ---- When lines are written on their own ---------------------------------------------------------

  // No text is written while the line break of another is still to come.
  predicate OneAtATime(hardcoded: set<string>, s: State, events: seq<Event>)
    requires Sane(s)
    decreases |events|
  {
    events == [] ||
    (&& (events[0].WriteText? && events[0].ip in s.queued ==> s.open == {})
     && OneAtATime(hardcoded, Step(hardcoded, s, events[0]), events[1..]))
  }

  ghost predicate OpenMeansText(s: State)
  {
    && (s.open == {} <==> AllSpaces(Last(s.file)))
    && (forall a, b | a in s.open && b in s.open :: a == b)
  }

  lemma TextOpens(content: string, e: Entry)
    requires IsIpv4(e.ip) && ValidDc(e.slot.dc)
    ensures !AllSpaces(Last(content + LineText(e)))
  {
    TextHasNoBreak(e);
    TextWords(e);
    SplitLines(content, LineText(e));
    hide IsSpace, IsIpv4, Lines, DcText;
    assert LineText(e)[0] == e.ip[0] && e.ip[0] in e.ip;
    assert Last(content + LineText(e))[|Last(content)|] == e.ip[0];
  }

  lemma StepKeepsOpen(hardcoded: set<string>, s: State, m0: Table, ev: Event)
    requires Sane(s) && Bookkeeping(s, m0) && AllIpv4(s, m0) && OpenMeansText(s) && OwnLine(s, ev)
    ensures OpenMeansText(Step(hardcoded, s, ev))
  {
    hide IsIpv4, AllSpaces, LineText, Lines, Last;
    match ev
    case Check(_, _) =>
    case Insert(_) =>
    case WriteText(ip) =>
      if ip in s.queued {
        TextOpens(s.file, Entry(ip, s.queued[ip]));
      }
    case WriteBreak(ip) =>
      BreakLoads(s.file);
      assert AllSpaces([]) by {
        NothingBlank();
      }
    case AppendFails(_) =>
  }

  lemma NothingBlank()
    ensures AllSpaces([])
  {
  }

  // Starting from a file that ends with a line break, every entry gets a line of its own
  // exactly when the appends never overlap.
  lemma {:induction false} OwnLinesIfOneAtATime(hardcoded: set<string>, s: State, m0: Table, events: seq<Event>)
    requires Sane(s) && Bookkeeping(s, m0) && OpenMeansText(s) && AllIpv4(Run(hardcoded, s, events), m0)
    ensures OwnLines(hardcoded, s, events) <==> OneAtATime(hardcoded, s, events)
    decreases |events|
  {
    if events != [] {
      assert OwnLine(s, events[0]) <==> (events[0].WriteText? && events[0].ip in s.queued ==> s.open == {});
      GrownKeepsIpv4(hardcoded, s, m0, events);
      if OwnLine(s, events[0]) {
        StepKeepsOpen(hardcoded, s, m0, events[0]);
        StepKeepsBooks(hardcoded, s, m0, events[0]);
        hide OpenMeansText, Bookkeeping, AllIpv4, Step, OwnLine;
        OwnLinesIfOneAtATime(hardcoded, Step(hardcoded, s, events[0]), m0, events[1..]);
      }
    }
  }

  // The whole law for a learned file that is empty or ends with a line break.
  lemma ReloadRestoresIffSerial(hardcoded: set<string>, learnFile: string, adminFile: string, events: seq<Event>)
    requires learnFile == "" || learnFile[|learnFile| - 1] == '\n'
    requires Run(hardcoded, Start(learnFile, adminFile), events).queued == map[]
    ensures var s0 := Start(learnFile, adminFile);
            var t := Run(hardcoded, s0, events);
            Reload(t.file, adminFile) == t.mem <==>
            AllIpv4(t, s0.mem) && t.dropped == {} && OneAtATime(hardcoded, s0, events)
  {
    var s0 := Start(learnFile, adminFile);
    assert Last(learnFile) == [];
    NothingBlank();
    assert OpenMeansText(s0);
    StartHolds(learnFile, adminFile);
    hide Run, Reload, Bookkeeping, OpenMeansText, OwnLines, OneAtATime, FileHolds, Lines;
    ReloadRestores(hardcoded, learnFile, adminFile, events);
    if AllIpv4(Run(hardcoded, s0, events), s0.mem) {
      OwnLinesIfOneAtATime(hardcoded, s0, s0.mem, events);
    }
  }

  lemma Unroll(hardcoded: set<string>, s: State, ev: Event, rest: seq<Event>)
    requires Sane(s)
    ensures var next := Step(hardcoded, s, ev);
            && Run(hardcoded, s, [ev] + rest) == Run(hardcoded, next, rest)
            && (OneAtATime(hardcoded, s, [ev] + rest) ==> OneAtATime(hardcoded, next, rest))
            && (ev.WriteText? && ev.ip in s.queued && s.open != {} ==> !OneAtATime(hardcoded, s, [ev] + rest))
  {
    assert ([ev] + rest)[1..] == rest;
  }

  // A call on its own learns a new address.
  lemma Learns(s: State, id: nat, e: Entry, rest: seq<Event>)
    requires Sane(s) && e.ip != "" && ValidDc(e.slot.dc) && e.ip !in s.mem && id !in s.checked
    ensures var events := [Check(id, e)] + ([Insert(id)] + rest);
            var t := s.(mem := s.mem[e.ip := e.slot], queued := s.queued[e.ip := e.slot]);
            && Sane(t) && Run({}, s, events) == Run({}, t, rest)
            && (OneAtATime({}, s, events) ==> OneAtATime({}, t, rest))
  {
    hide Run, OneAtATime;
    Unroll({}, s, Check(id, e), [Insert(id)] + rest);
    Unroll({}, Step({}, s, Check(id, e)), Insert(id), rest);
    assert s.checked[id := e] - {id} == s.checked;
  }

  // Two texts, then two breaks: the appends overlap.
  lemma Overlaps(s: State, a: string, b: string)
    requires Sane(s) && a in s.queued && b in s.queued && a != b
    ensures var events := [WriteText(a)] + ([WriteText(b)] + ([WriteBreak(a)] + ([WriteBreak(b)] + [])));
            var t := Run({}, s, events);
            !OneAtATime({}, s, events) && t.mem == s.mem && t.queued == s.queued - {a} - {b}
  {
    hide Run, OneAtATime, LineText;
    var s1 := Step({}, s, WriteText(a));
    var s2 := Step({}, s1, WriteText(b));
    var s3 := Step({}, s2, WriteBreak(a));
    Unroll({}, s, WriteText(a), [WriteText(b)] + ([WriteBreak(a)] + ([WriteBreak(b)] + [])));
    Unroll({}, s1, WriteText(b), [WriteBreak(a)] + ([WriteBreak(b)] + []));
    Unroll({}, s2, WriteBreak(a), [WriteBreak(b)] + []);
    Unroll({}, s3, WriteBreak(b), []);
    RunNothing({}, Step({}, s3, WriteBreak(b)));
  }

  // Two new addresses observed at once, with both texts written before either line break:
  // the map knows them, the file does not.
  lemma OverlapLosesEntries(a: Entry, b: Entry)
    requires a.ip != b.ip && a.ip != "" && b.ip != "" && ValidDc(a.slot.dc) && ValidDc(b.slot.dc)
    ensures var writes := [WriteText(a.ip)] + ([WriteText(b.ip)] + ([WriteBreak(a.ip)] + ([WriteBreak(b.ip)] + [])));
            var events := [Check(0, a)] + ([Insert(0)] + ([Check(1, b)] + ([Insert(1)] + writes)));
            var t := Run({}, Start("", ""), events);
            t.mem == map[a.ip := a.slot, b.ip := b.slot] && Reload(t.file, "") != t.mem
  {
    var s0 := Start("", "");
    assert s0.mem == map[] by {
      ReloadNothing();
    }
    hide Reload, LineText, OneAtATime, Run;
    var writes := [WriteText(a.ip)] + ([WriteText(b.ip)] + ([WriteBreak(a.ip)] + ([WriteBreak(b.ip)] + [])));
    var second := [Check(1, b)] + ([Insert(1)] + writes);
    var s1 := s0.(mem := map[a.ip := a.slot], queued := map[a.ip := a.slot]);
    Learns(s0, 0, a, second);
    Learns(s1, 1, b, writes);
    Overlaps(s1.(mem := s1.mem[b.ip := b.slot], queued := s1.queued[b.ip := b.slot]), a.ip, b.ip);
    ReloadRestoresIffSerial({}, "", "", [Check(0, a)] + ([Insert(0)] + second));
  }

  lemma RunNothing(hardcoded: set<string>, s: State)
    requires Sane(s)
    ensures Run(hardcoded, s, []) == s
  {
  }

  lemma ReloadNothing()
    ensures Reload("", "") == map[]
  {
    NoEntries(map[]);
  }
}
