/** The relay session gets on: whatever waits reaches the wire, in every order of the steps. */
module BridgeProgress {
  import opened Bridge
  import opened Bytes
  import opened Ctr
  import opened Mtproto
  import opened Splitter
  import opened Wrappers
  import opened WsFrame

  // The two tasks at work. The client's stream may end only where `ending` says so.
  predicate Progress(e: Event, ending: bool)
  {
    || e.SendPart? || e.TakeFirst? || e.TakeMore? || e.BatchReady? || e.WriteFrame? || e.WriteControl?
    || (ending && e.InputEnds?)
  }

  // ---- What every run keeps besides --------------------------------------------------------

  // A batch holds something, and a flush has emptied the splitter.
  predicate Tidy(s: State)
  {
    && (s.driver.Batching? || s.driver.Writing? ==> s.driver.parts != [])
    && (s.up.Sending? || s.up.Flushing? ==> s.up.parts != [])
    && (s.up.Flushing? ==> s.split.cipher == [])
  }

  lemma StepKeepsTidy(cfg: Config, s: State, e: Event)
    requires |s.split.plain| == |s.split.cipher| && Tidy(s) && Step(cfg, s, e).Some?
    ensures Tidy(Step(cfg, s, e).value)
  {
    hide BuildFrame, SplitStep, Crypt;
  }

  lemma {:induction false} RunKeepsTidy(cfg: Config, events: seq<Event>)
    requires Bridge.Run(cfg, events).Some?
    ensures Tidy(Bridge.Run(cfg, events).value)
  {
    hide Step, Tidy;
    if events == [] {
      assert Tidy(Init()) by {
        InitTidy();
      }
    } else {
      var before := events[..|events| - 1];
      RunKeepsTidy(cfg, before);
      StepKeepsTidy(cfg, Bridge.Run(cfg, before).value, events[|events| - 1]);
    }
  }

  lemma InitTidy()
    ensures Tidy(Init())
  {
  }

  // Both tasks run, or the reading one has ended with everything handed over.
  predicate Alive(s: State)
  {
    !s.driver.Stopped? && (s.up.Ended? ==> s.up.parts == [] && s.split.cipher == [])
  }

  // ---- Every step counts -----------------------------------------------------------------------

  function UpWork(up: Up): nat
  {
    match up
    case Reading => 6
    case Sending(parts) => 6 + 4 * |parts|
    case Flushing(parts) => 4 * |parts|
    case Ended(_) => 0
  }

  function DriverWork(d: Driver): nat
  {
    match d
    case Idle => 0
    case Batching(parts) => |parts| + 1
    case Writing(parts) => |parts|
    case Stopped(_) => 0
  }

  // An upper bound on the steps that are left.
  function Work(s: State): nat
  {
    UpWork(s.up) + 3 * |s.channel| + DriverWork(s.driver) + |s.controls|
  }

  lemma StepWorks(cfg: Config, s: State, e: Event, ending: bool)
    requires |s.split.plain| == |s.split.cipher| && Tidy(s) && Alive(s)
    requires Progress(e, ending) && Step(cfg, s, e).Some?
    ensures var t := Step(cfg, s, e).value;
            Work(t) < Work(s) && Alive(t) && t.input == s.input && (!ending && Going(s) ==> Going(t))
  {
    hide BuildFrame, SplitStep, Crypt;
  }

  predicate Quiet(s: State, ending: bool)
  {
    s.driver.Idle? && s.channel == [] && s.controls == [] && (s.up.Ended? || (s.up.Reading? && !ending))
  }

  // The next step of the two tasks, as long as there is one.
  function NextStep(s: State, key: MaskKey): Event
  {
    if s.driver.Writing? then WriteFrame(key)
    else if s.driver.Batching? then
      if s.channel == [] || |s.driver.parts| == WS_SEND_BATCH_MAX then BatchReady else TakeMore
    else if s.channel != [] then TakeFirst
    else if s.controls != [] then WriteControl
    else if s.up.Reading? then InputEnds
    else SendPart
  }

  lemma AlwaysAStep(cfg: Config, s: State, key: MaskKey, ending: bool)
    requires |s.split.plain| == |s.split.cipher| && Tidy(s) && Alive(s) && !Quiet(s, ending)
    requires |DriverParts(s.driver)| <= WS_SEND_BATCH_MAX
    ensures Progress(NextStep(s, key), ending) && Step(cfg, s, NextStep(s, key)).Some?
  {
    hide BuildFrame, SplitStep, Crypt;
  }

  // ---- Draining ---------------------------------------------------------------------------

  lemma OneMore(cfg: Config, events: seq<Event>, e: Event)
    requires Bridge.Run(cfg, events).Some?
    ensures Bridge.Run(cfg, events + [e]) == Step(cfg, Bridge.Run(cfg, events).value, e)
  {
    hide Step;
    assert (events + [e])[..|events|] == events;
  }

  lemma RunSoFar(cfg: Config, events: seq<Event>, e: Event)
    requires Bridge.Run(cfg, events + [e]).Some?
    ensures Bridge.Run(cfg, events).Some?
  {
    hide Step;
    assert (events + [e])[..|events|] == events;
  }

  predicate AllProgress(events: seq<Event>, ending: bool)
  {
    forall e | e in events :: Progress(e, ending)
  }

  // Neither end nor flush: more may be read.
  predicate Going(s: State)
  {
    s.up.Reading? || s.up.Sending?
  }

  // Steps of the two tasks use the work up.
  lemma {:induction false} WorkShrinks(cfg: Config, events: seq<Event>, more: seq<Event>, ending: bool)
    requires Bridge.Run(cfg, events).Some? && Alive(Bridge.Run(cfg, events).value)
    requires Bridge.Run(cfg, events + more).Some? && AllProgress(more, ending)
    ensures var s, t := Bridge.Run(cfg, events).value, Bridge.Run(cfg, events + more).value;
            && Alive(t) && t.input == s.input && Work(t) + |more| <= Work(s)
            && (!ending && Going(s) ==> Going(t))
    decreases |more|
  {
    hide Bridge.Run, Alive, Work, Step, Progress, Going;
    if more == [] {
      assert events + more == events;
    } else {
      var before, e := more[..|more| - 1], more[|more| - 1];
      assert more == before + [e] && events + more == (events + before) + [e] && e in more;
      RunSoFar(cfg, events + before, e);
      WorkShrinks(cfg, events, before, ending);
      RunKeepsTidy(cfg, events + before);
      OneMore(cfg, events + before, e);
      StepWorks(cfg, Bridge.Run(cfg, events + before).value, e, ending);
    }
  }

  // What the server's end decrypts from the wire.
  function Arrived(cfg: Config, s: State): seq<byte>
  {
    Crypt(cfg.tg, HANDSHAKE_LEN, Flatten(Delivered(s.wire)))
  }

  // Nothing waits, in any queue; with the client's stream at its end, the splitter holds
  // nothing either and the server has all that the client wrote.
  ghost predicate Drained(cfg: Config, s: State, ending: bool)
  {
    && Waiting(s) == [] && s.controls == []
    && Flatten(Delivered(s.wire)) + s.split.cipher == Recoded(cfg, s.input)
    && (ending ==> Arrived(cfg, s) == Crypt(cfg.clt, HANDSHAKE_LEN, s.input))
  }

  lemma QuietIsDrained(cfg: Config, s: State, ending: bool)
    requires Inv(cfg, s) && Alive(s) && Quiet(s, ending)
    ensures Drained(cfg, s, ending)
  {
    hide Crypt, ServerReadAll, NextPacketLen, BinaryPayloads;
    assert Flatten([]) == [];
    var d := Flatten(Delivered(s.wire));
    assert d + ([] + s.split.cipher) == d + s.split.cipher;
    if ending {
      assert d + [] == d;
      CryptTwice(cfg.tg, HANDSHAKE_LEN, Crypt(cfg.clt, HANDSHAKE_LEN, s.input));
    }
  }

  // From every state a run reaches with both tasks alive: in whatever order their steps come,
  // there are no more of them than the work there was, and when none is left everything that
  // was read is on the wire.
  lemma DrainsInAnyOrder(cfg: Config, events: seq<Event>, more: seq<Event>, ending: bool)
    requires Bridge.Run(cfg, events).Some? && Alive(Bridge.Run(cfg, events).value)
    requires Bridge.Run(cfg, events + more).Some? && AllProgress(more, ending)
    ensures var s, t := Bridge.Run(cfg, events).value, Bridge.Run(cfg, events + more).value;
            && |more| <= Work(s) && t.input == s.input
            && ((forall e | Progress(e, ending) :: Bridge.Run(cfg, events + more + [e]).None?) ==>
                  Drained(cfg, t, ending) && (!ending && Going(s) ==> t.up.Reading?))
  {
    hide Bridge.Run, Alive, Work, Step, Progress, Drained, Going, Quiet, Inv, Tidy, DriverParts;
    WorkShrinks(cfg, events, more, ending);
    var t := Bridge.Run(cfg, events + more).value;
    RunKeepsInv(cfg, events + more);
    RunKeepsTidy(cfg, events + more);
    BoundedQueues(cfg, events + more);
    if Quiet(t, ending) {
      QuietIsDrained(cfg, t, ending);
      QuietReads(t, ending);
    } else {
      var e := NextStep(t, [0, 0, 0, 0]);
      AlwaysAStep(cfg, t, [0, 0, 0, 0], ending);
      OneMore(cfg, events + more, e);
    }
  }

  lemma QuietReads(t: State, ending: bool)
    requires Quiet(t, ending)
    ensures Going(t) ==> t.up.Reading?
  {
  }

  // Some run of the two tasks puts everything on the wire.
  lemma {:induction false} DrainIsPossible(cfg: Config, events: seq<Event>, ending: bool) returns (more: seq<Event>)
    requires Bridge.Run(cfg, events).Some? && Alive(Bridge.Run(cfg, events).value)
    ensures AllProgress(more, ending) && Bridge.Run(cfg, events + more).Some?
    ensures var s, t := Bridge.Run(cfg, events).value, Bridge.Run(cfg, events + more).value;
            && t.input == s.input && Drained(cfg, t, ending) && (!ending && Going(s) ==> t.up.Reading?)
    decreases Work(Bridge.Run(cfg, events).value)
  {
    hide Bridge.Run, Alive, Work, Step, Progress, Drained, Going, Quiet, Inv, Tidy, DriverParts;
    var s := Bridge.Run(cfg, events).value;
    RunKeepsInv(cfg, events);
    RunKeepsTidy(cfg, events);
    BoundedQueues(cfg, events);
    if Quiet(s, ending) {
      more := [];
      assert events + more == events;
      QuietIsDrained(cfg, s, ending);
      QuietReads(s, ending);
    } else {
      var e := NextStep(s, [0, 0, 0, 0]);
      AlwaysAStep(cfg, s, [0, 0, 0, 0], ending);
      OneMore(cfg, events, e);
      StepWorks(cfg, s, e, ending);
      var rest := DrainIsPossible(cfg, events + [e], ending);
      more := [e] + rest;
      assert events + more == (events + [e]) + rest;
    }
  }
}
