/**
 The upstream half of a relay session as a state machine: reader, splitter, bounded
 channel, batching WebSocket writer and interleaved pings and pongs, in any order.
 */
module Bridge {
  import opened Bytes
  import opened Ctr
  import opened Mtproto
  import opened Seqs
  import opened Splitter
  import opened Wrappers
  import opened WsFrame

  const WS_CHANNEL_CAP: nat := 32
  const WS_SEND_BATCH_MAX: nat := 32
  const PONG_CHANNEL_CAP: nat := 8
  const RELAY_BUF_SIZE: nat := 128 * 1024

  // `clt` decrypts the client, `tg` encrypts for Telegram; no splitter when `splitProto` is None.
  datatype Config = Config(clt: Keystream, tg: Keystream, splitProto: Option<nat>)

  // The reading task. `Ended` keeps the parts it could no longer send.
  datatype Up = Reading | Sending(parts: seq<seq<byte>>)
              | Flushing(parts: seq<seq<byte>>) | Ended(parts: seq<seq<byte>>)

  // The writing task. `Stopped` keeps the parts of a batch it did not write.
  datatype Driver = Idle | Batching(parts: seq<seq<byte>>)
                  | Writing(parts: seq<seq<byte>>) | Stopped(parts: seq<seq<byte>>)

  datatype ControlFrame = ControlFrame(opcode: Opcode, payload: seq<byte>, key: MaskKey)

  datatype State = State(
    input: seq<byte>,
    split: SplitState,
    up: Up,
    channel: seq<seq<byte>>,
    driver: Driver,
    controls: seq<ControlFrame>,
    wire: seq<byte>)

  datatype Event =
    | Read(data: seq<byte>)
    | InputEnds
    | SendPart
    | SendRefused
    | UpAborted
    | TakeFirst
    | TakeMore
    | BatchReady
    | WriteFrame(key: MaskKey)
    | QueueControl(control: ControlFrame)
    | WriteControl
    | DriverStops
    | FrameTorn(at: nat, tornKey: MaskKey)
    | ControlTorn(controlAt: nat)

  function Init(): State
  {
    State([], SplitState([], [], HANDSHAKE_LEN, false), Reading, [], Idle, [], [])
  }

  // What one read becomes: re-encrypted at the running position, then split.
  function OnRead(cfg: Config, s: State, data: seq<byte>): (r: (SplitState, seq<seq<byte>>))
    requires |s.split.plain| == |s.split.cipher|
    ensures |r.0.plain| == |r.0.cipher|
  {
    var at := HANDSHAKE_LEN + |s.input|;
    var chunk := Crypt(cfg.tg, at, Crypt(cfg.clt, at, data));
    match cfg.splitProto
    case None => (s.split, [chunk])
    case Some(proto) => SplitStep(cfg.tg, proto, s.split, chunk)
  }

  function Sends(parts: seq<seq<byte>>): Up
  {
    if parts == [] then Reading else Sending(parts)
  }

  // The state after an event, or None where the event cannot happen.
  function Step(cfg: Config, s: State, e: Event): (r: Option<State>)
    requires |s.split.plain| == |s.split.cipher|
    ensures r.Some? ==> |r.value.split.plain| == |r.value.split.cipher|
  {
    match e
    case Read(data) =>
      if s.up.Reading? && 0 < |data| <= RELAY_BUF_SIZE then
        var (split, parts) := OnRead(cfg, s, data);
        Some(s.(input := s.input + data, split := split, up := Sends(parts)))
      else None
    case InputEnds =>
      if s.up.Reading? then
        var tail := if s.split.cipher == [] then [] else [s.split.cipher];
        Some(s.(up := if tail == [] then Ended([]) else Flushing(tail),
                split := if tail == [] then s.split else s.split.(cipher := [], plain := [])))
      else None
    case SendPart =>
      if s.driver.Stopped? || |s.channel| >= WS_CHANNEL_CAP then None
      else if s.up.Sending? && s.up.parts != [] then
        Some(s.(channel := s.channel + [s.up.parts[0]], up := Sends(s.up.parts[1..])))
      else if s.up.Flushing? && s.up.parts != [] then
        Some(s.(channel := s.channel + [s.up.parts[0]],
                up := if |s.up.parts| == 1 then Ended([]) else Flushing(s.up.parts[1..])))
      else None
    case SendRefused =>
      if s.driver.Stopped? && (s.up.Sending? || s.up.Flushing?) then Some(s.(up := Ended(s.up.parts)))
      else None
    case UpAborted =>
      Some(s.(up := Ended(UpParts(s.up))))
    case TakeFirst =>
      if s.driver.Idle? && s.channel != [] then
        Some(s.(driver := Batching([s.channel[0]]), channel := s.channel[1..]))
      else None
    case TakeMore =>
      if s.driver.Batching? && s.channel != [] && |s.driver.parts| < WS_SEND_BATCH_MAX then
        Some(s.(driver := Batching(s.driver.parts + [s.channel[0]]), channel := s.channel[1..]))
      else None
    case BatchReady =>
      if s.driver.Batching? && (s.channel == [] || |s.driver.parts| == WS_SEND_BATCH_MAX) then
        Some(s.(driver := Writing(s.driver.parts)))
      else None
    case WriteFrame(key) =>
      if s.driver.Writing? && s.driver.parts != [] then
        Some(s.(wire := s.wire + BuildFrame(2, s.driver.parts[0], Some(key)),
                driver := if |s.driver.parts| == 1 then Idle else Writing(s.driver.parts[1..])))
      else None
    case QueueControl(c) =>
      if (c.opcode == 9 || c.opcode == 10) && |c.payload| <= 125 && |s.controls| < PONG_CHANNEL_CAP then
        Some(s.(controls := s.controls + [c]))
      else None
    case WriteControl =>
      if s.driver.Idle? && s.controls != [] then
        var c := s.controls[0];
        Some(s.(wire := s.wire + BuildFrame(c.opcode, c.payload, Some(c.key)), controls := s.controls[1..]))
      else None
    case DriverStops =>
      if s.driver.Stopped? then None else Some(s.(driver := Stopped(DriverParts(s.driver))))
    case FrameTorn(at, key) =>
      if s.driver.Writing? && s.driver.parts != [] && at < |BuildFrame(2, s.driver.parts[0], Some(key))| then
        Some(s.(wire := s.wire + BuildFrame(2, s.driver.parts[0], Some(key))[..at],
                driver := Stopped(s.driver.parts)))
      else None
    case ControlTorn(at) =>
      if s.driver.Idle? && s.controls != []
         && at < |BuildFrame(s.controls[0].opcode, s.controls[0].payload, Some(s.controls[0].key))| then
        var c := s.controls[0];
        Some(s.(wire := s.wire + BuildFrame(c.opcode, c.payload, Some(c.key))[..at], driver := Stopped([])))
      else None
  }

  function UpParts(up: Up): seq<seq<byte>>
  {
    if up.Reading? then [] else up.parts
  }

  function DriverParts(d: Driver): seq<seq<byte>>
  {
    if d.Idle? then [] else d.parts
  }

  // What has been read and cut but is not on the wire, oldest first.
  function Waiting(s: State): seq<seq<byte>>
  {
    DriverParts(s.driver) + (s.channel + UpParts(s.up))
  }

  // ---- The receiving end of the wire ------------------------------------------------------

  // Complete frames a server reads off the wire, and the bytes it cannot read yet.
  function ServerReadAll(s: seq<byte>): (r: (seq<Frame>, seq<byte>))
    decreases |s|
  {
    match ServerParse(s)
    case None => ([], s)
    case Some((f, n)) => var (fs, rest) := ServerReadAll(s[n..]); ([f] + fs, rest)
  }

  function BinaryPayloads(fs: seq<Frame>): seq<seq<byte>>
  {
    if fs == [] then []
    else (if fs[0].opcode == 2 then [fs[0].payload] else []) + BinaryPayloads(fs[1..])
  }

  function Delivered(wire: seq<byte>): seq<seq<byte>>
  {
    BinaryPayloads(ServerReadAll(wire).0)
  }

  lemma ServerParseExtends(s: seq<byte>, more: seq<byte>)
    requires ServerParse(s).Some?
    ensures ServerParse(s + more) == ServerParse(s)
  {
    hide BeNat, Pow256, Unmasked;
    var (length, used) := DecodeLength(s[1..]).value;
    var start := 1 + used + 4;
    var t := s + more;
    assert t[1..] == s[1..] + more;
    assert used > 1 ==> t[1..][1..used] == s[1..][1..used];
    assert t[start..start + length] == s[start..start + length] && t[1 + used..start] == s[1 + used..start];
  }

  lemma {:induction false} ServerReadsOn(s: seq<byte>, more: seq<byte>)
    requires ServerReadAll(s).1 == []
    ensures ServerReadAll(s + more) == (ServerReadAll(s).0 + ServerReadAll(more).0, ServerReadAll(more).1)
    decreases |s|
  {
    EmptyUnreadable();
    hide ServerParse;
    if s == [] {
      assert s + more == more;
      assert [] + ServerReadAll(more).0 == ServerReadAll(more).0;
    } else {
      var (f, n) := ServerParse(s).value;
      ServerParseExtends(s, more);
      ServerReadsOn(s[n..], more);
      assert (s + more)[n..] == s[n..] + more;
      ConcatAssociates([f], ServerReadAll(s[n..]).0, ServerReadAll(more).0);
    }
  }

  lemma EmptyUnreadable()
    ensures ServerParse([]).None?
  {
  }

  lemma {:induction false} BinaryConcat(a: seq<Frame>, b: seq<Frame>)
    ensures BinaryPayloads(a + b) == BinaryPayloads(a) + BinaryPayloads(b)
  {
    if a == [] {
      assert a + b == b;
    } else {
      assert (a + b)[1..] == a[1..] + b;
      BinaryConcat(a[1..], b);
    }
  }

  lemma OneFrame(opcode: Opcode, data: seq<byte>, key: MaskKey)
    requires |data| < USIZE_LIMIT
    ensures ServerReadAll(BuildFrame(opcode, data, Some(key))) == ([Frame(true, opcode, data)], [])
  {
    EmptyUnreadable();
    hide ServerParse, BuildFrame;
    var s := BuildFrame(opcode, data, Some(key));
    MaskedRoundTrip(opcode, data, key, []);
    assert s + [] == s && s[|s|..] == [];
    var f := Frame(true, opcode, data);
    assert ServerReadAll([]) == ([], []) && [f] + [] == [f];
  }

  // A whole frame on the wire is one more payload delivered, or none if it is a control frame.
  lemma WireGrows(wire: seq<byte>, opcode: Opcode, data: seq<byte>, key: MaskKey)
    requires ServerReadAll(wire).1 == [] && |data| < USIZE_LIMIT
    ensures var w := wire + BuildFrame(opcode, data, Some(key));
            && ServerReadAll(w).1 == []
            && Delivered(w) == Delivered(wire) + if opcode == 2 then [data] else []
  {
    hide ServerReadAll, BuildFrame;
    OneFrame(opcode, data, key);
    ServerReadsOn(wire, BuildFrame(opcode, data, Some(key)));
    BinaryConcat(ServerReadAll(wire).0, [Frame(true, opcode, data)]);
    assert [Frame(true, opcode, data)][1..] == [];
  }

  // Part of a frame delivers nothing.
  lemma WireTears(wire: seq<byte>, opcode: Opcode, data: seq<byte>, key: MaskKey, at: nat)
    requires ServerReadAll(wire).1 == [] && |data| < USIZE_LIMIT
    requires at < |BuildFrame(opcode, data, Some(key))|
    ensures Delivered(wire + BuildFrame(opcode, data, Some(key))[..at]) == Delivered(wire)
  {
    var torn := BuildFrame(opcode, data, Some(key))[..at];
    PartialIsNotRead(opcode, data, key, at);
    ServerReadsOn(wire, torn);
    assert ServerReadAll(torn).0 == [];
    assert ServerReadAll(wire).0 + [] == ServerReadAll(wire).0;
  }

  // ---- Conservation -----------------------------------------------------------------------

  // The bytes read so far, as Telegram is to receive them.
  function Recoded(cfg: Config, input: seq<byte>): seq<byte>
  {
    Crypt(cfg.tg, HANDSHAKE_LEN, Crypt(cfg.clt, HANDSHAKE_LEN, input))
  }

  predicate Small(parts: seq<seq<byte>>)
  {
    forall p | p in parts :: |p| < USIZE_LIMIT
  }

  // Delivered, then waiting, then buffered in the splitter.
  function Balance(s: State): seq<byte>
  {
    Flatten(Delivered(s.wire)) + (Flatten(Waiting(s)) + s.split.cipher)
  }

  // The splitter buffers less than one packet, and nothing once disabled or unused.
  predicate SplitOk(cfg: Config, split: SplitState)
  {
    && |split.cipher| == |split.plain| < MAX_MTPROTO_PACKET
    && (split.disabled ==> split.cipher == [])
    && match cfg.splitProto
       case None => split.cipher == []
       case Some(proto) => NextPacketLen(proto, split.plain) == -1
  }

  ghost predicate Inv(cfg: Config, s: State)
  {
    // nothing is lost, repeated or reordered
    && Balance(s) == Recoded(cfg, s.input)
    // the wire ends on a frame boundary as long as the driver lives
    && (s.driver.Stopped? || ServerReadAll(s.wire).1 == [])
    && Small(Waiting(s))
    && SplitOk(cfg, s.split)
    && (forall c | c in s.controls :: |c.payload| <= 125 && (c.opcode == 9 || c.opcode == 10))
    // every queue stays within its capacity
    && |s.channel| <= WS_CHANNEL_CAP && |s.controls| <= PONG_CHANNEL_CAP
    && |DriverParts(s.driver)| <= WS_SEND_BATCH_MAX
    && (s.up.Reading? || s.up.Ended? || s.up.parts != [])
  }

  lemma {:induction false} FlattenBounds(parts: seq<seq<byte>>, p: seq<byte>)
    requires p in parts
    ensures |p| <= |Flatten(parts)|
  {
    if parts[0] != p {
      FlattenBounds(parts[1..], p);
    }
  }

  lemma RecodedGrows(cfg: Config, input: seq<byte>, data: seq<byte>)
    ensures var at := HANDSHAKE_LEN + |input|;
            Recoded(cfg, input + data) == Recoded(cfg, input) + Crypt(cfg.tg, at, Crypt(cfg.clt, at, data))
  {
    CryptConcat(cfg.clt, HANDSHAKE_LEN, input, data);
    CryptConcat(cfg.tg, HANDSHAKE_LEN, Crypt(cfg.clt, HANDSHAKE_LEN, input),
                Crypt(cfg.clt, HANDSHAKE_LEN + |input|, data));
  }

  // What one read adds behind the waiting parts and the buffer.
  lemma OnReadConserves(cfg: Config, s: State, data: seq<byte>)
    requires SplitOk(cfg, s.split) && 0 < |data| <= RELAY_BUF_SIZE
    ensures var (split, parts) := OnRead(cfg, s, data);
            && s.split.cipher + Recoded(cfg, s.input + data)[|s.input|..] == Flatten(parts) + split.cipher
            && Small(parts) && SplitOk(cfg, split)
  {
    var at := HANDSHAKE_LEN + |s.input|;
    var chunk := Crypt(cfg.tg, at, Crypt(cfg.clt, at, data));
    var (split, parts) := OnRead(cfg, s, data);
    RecodedGrows(cfg, s.input, data);
    assert Recoded(cfg, s.input + data)[|s.input|..] == chunk;
    hide Crypt, Recoded, Parse, Slices, NextPacketLen;
    match cfg.splitProto {
      case None =>
        FlattenOne(chunk);
        assert chunk + [] == chunk && [] + chunk == chunk;
      case Some(proto) =>
        StepConserves(cfg.tg, proto, s.split, chunk);
        EmptyNeedsMore(proto);
    }
    forall p | p in parts
      ensures |p| < USIZE_LIMIT
    {
      FlattenBounds(parts, p);
      assert |Flatten(parts)| <= |s.split.cipher| + |chunk|;
    }
  }

  // A step that only moves parts on.
  lemma MoveKeepsInv(cfg: Config, s: State, t: State)
    requires Inv(cfg, s)
    requires Balance(t) == Balance(s) && Small(Waiting(t)) && t.split == s.split && t.input == s.input
    requires t.driver.Stopped? || ServerReadAll(t.wire).1 == []
    requires forall c | c in t.controls :: |c.payload| <= 125 && (c.opcode == 9 || c.opcode == 10)
    requires |t.channel| <= WS_CHANNEL_CAP && |t.controls| <= PONG_CHANNEL_CAP
    requires |DriverParts(t.driver)| <= WS_SEND_BATCH_MAX
    requires t.up.Reading? || t.up.Ended? || t.up.parts != []
    ensures Inv(cfg, t)
  {
    hide Balance, Waiting, Delivered, Recoded, NextPacketLen, ServerReadAll;
  }

  lemma ReadKeepsInv(cfg: Config, s: State, data: seq<byte>)
    requires Inv(cfg, s) && s.up.Reading? && 0 < |data| <= RELAY_BUF_SIZE
    ensures Inv(cfg, Step(cfg, s, Read(data)).value)
  {
    OnReadConserves(cfg, s, data);
    RecodedGrows(cfg, s.input, data);
    RecodedLength(cfg, s.input);
    var (split, parts) := OnRead(cfg, s, data);
    var t := s.(input := s.input + data, split := split, up := Sends(parts));
    assert Step(cfg, s, Read(data)) == Some(t);
    WaitingGrows(s, t, parts);
    hide Waiting, OnRead, Recoded, Delivered, ServerReadAll, NextPacketLen, Flatten, Step, Crypt;
    var chunk := Recoded(cfg, s.input + data)[|s.input|..];
    assert Recoded(cfg, s.input + data) == Recoded(cfg, s.input) + chunk;
    FlattenConcat(Waiting(s), parts);
    Rebalance(Flatten(Delivered(s.wire)), Flatten(Waiting(s)), s.split.cipher, chunk, Flatten(parts), split.cipher);
    assert Small(Waiting(t));
  }

  lemma WaitingGrows(s: State, t: State, parts: seq<seq<byte>>)
    requires UpParts(s.up) == [] && UpParts(t.up) == parts
    requires t.channel == s.channel && t.driver == s.driver
    ensures Waiting(t) == Waiting(s) + parts
  {
    assert s.channel + [] == s.channel;
    ConcatAssociates(DriverParts(s.driver), s.channel, parts);
  }

  lemma Rebalance(d: seq<byte>, w: seq<byte>, c: seq<byte>, x: seq<byte>, f: seq<byte>, c': seq<byte>)
    requires c + x == f + c'
    ensures d + ((w + f) + c') == (d + (w + c)) + x
  {
    ConcatAssociates(w, f, c');
    ConcatAssociates(w, c, x);
    ConcatAssociates(d, w + c, x);
  }

  lemma Redeliver(d: seq<byte>, p: seq<byte>, w: seq<byte>, c: seq<byte>)
    ensures d + ((p + w) + c) == (d + p) + (w + c)
  {
    ConcatAssociates(p, w, c);
    ConcatAssociates(d, p, w + c);
  }

  lemma RecodedLength(cfg: Config, input: seq<byte>)
    ensures |Recoded(cfg, input)| == |input|
  {
  }

  lemma InputEndsKeepsInv(cfg: Config, s: State)
    requires Inv(cfg, s) && s.up.Reading?
    ensures Inv(cfg, Step(cfg, s, InputEnds).value)
  {
    var t := Step(cfg, s, InputEnds).value;
    if s.split.cipher != [] {
      EmptyAlways();
      hide Recoded, Delivered, ServerReadAll, NextPacketLen, Flatten;
      WaitingGrows(s, t, [s.split.cipher]);
      FlattenConcat(Waiting(s), [s.split.cipher]);
      FlattenOne(s.split.cipher);
      assert Flatten(Waiting(t)) + [] == Flatten(Waiting(t));
    } else {
      MoveKeepsInv(cfg, s, t);
    }
  }

  lemma EmptyAlways()
    ensures forall proto :: NextPacketLen(proto, []) == -1
  {
  }

  lemma WriteKeepsInv(cfg: Config, s: State, key: MaskKey)
    requires Inv(cfg, s) && s.driver.Writing? && s.driver.parts != []
    ensures Inv(cfg, Step(cfg, s, WriteFrame(key)).value)
  {
    var p := s.driver.parts[0];
    var t := s.(wire := s.wire + BuildFrame(2, p, Some(key)),
                driver := if |s.driver.parts| == 1 then Idle else Writing(s.driver.parts[1..]));
    assert Step(cfg, s, WriteFrame(key)) == Some(t);
    WaitingShrinks(s, t);
    hide Waiting, Step, Recoded, Delivered, ServerReadAll, NextPacketLen, Flatten, BuildFrame;
    SmallTail(p, Waiting(t));
    WireGrows(s.wire, 2, p, key);
    BalanceKept(s, t, p);
    MoveKeepsInv(cfg, s, t);
  }

  lemma SmallTail(p: seq<byte>, rest: seq<seq<byte>>)
    requires Small([p] + rest)
    ensures |p| < USIZE_LIMIT && Small(rest)
  {
    assert p == ([p] + rest)[0];
    assert forall q | q in rest :: q in [p] + rest;
  }

  lemma BalanceKept(s: State, t: State, p: seq<byte>)
    requires Waiting(s) == [p] + Waiting(t) && Delivered(t.wire) == Delivered(s.wire) + [p] && t.split == s.split
    ensures Balance(t) == Balance(s)
  {
    hide Waiting, Delivered, Flatten;
    FlattenConcat([p], Waiting(t));
    FlattenConcat(Delivered(s.wire), [p]);
    FlattenOne(p);
    Redeliver(Flatten(Delivered(s.wire)), p, Flatten(Waiting(t)), t.split.cipher);
  }

  lemma WaitingShrinks(s: State, t: State)
    requires s.driver.Writing? && s.driver.parts != []
    requires t.channel == s.channel && t.up == s.up && DriverParts(t.driver) == s.driver.parts[1..]
    ensures Waiting(s) == [s.driver.parts[0]] + Waiting(t)
  {
    var p := s.driver.parts[0];
    assert s.driver.parts == [p] + DriverParts(t.driver);
    ConcatAssociates([p], DriverParts(t.driver), s.channel + UpParts(s.up));
  }

  lemma QueueControlKeepsInv(cfg: Config, s: State, c: ControlFrame)
    requires Inv(cfg, s) && Step(cfg, s, QueueControl(c)).Some?
    ensures Inv(cfg, Step(cfg, s, QueueControl(c)).value)
  {
    hide Recoded, Delivered, ServerReadAll, NextPacketLen, Flatten, BuildFrame, SplitStep;
    MoveKeepsInv(cfg, s, s.(controls := s.controls + [c]));
  }

  lemma WriteControlKeepsInv(cfg: Config, s: State)
    requires Inv(cfg, s) && Step(cfg, s, WriteControl).Some?
    ensures Inv(cfg, Step(cfg, s, WriteControl).value)
  {
    hide Recoded, Delivered, ServerReadAll, NextPacketLen, Flatten, BuildFrame, SplitStep;
    var c := s.controls[0];
    var t := s.(wire := s.wire + BuildFrame(c.opcode, c.payload, Some(c.key)), controls := s.controls[1..]);
    // A control frame delivers nothing binary.
    WireGrows(s.wire, c.opcode, c.payload, c.key);
    assert Delivered(s.wire) + [] == Delivered(s.wire);
    SameBalance(s, t);
    hide Balance, Waiting;
    MoveKeepsInv(cfg, s, t);
  }

  lemma ControlTornKeepsInv(cfg: Config, s: State, at: nat)
    requires Inv(cfg, s) && Step(cfg, s, ControlTorn(at)).Some?
    ensures Inv(cfg, Step(cfg, s, ControlTorn(at)).value)
  {
    var t := Step(cfg, s, ControlTorn(at)).value;
    hide Recoded, Delivered, ServerReadAll, NextPacketLen, Flatten, BuildFrame, SplitStep;
    var c := s.controls[0];
    WireTears(s.wire, c.opcode, c.payload, c.key, at);
    MoveKeepsInv(cfg, s, t);
  }

  // Delivered, waiting and buffered bytes are all a balance looks at.
  lemma SameBalance(s: State, t: State)
    requires Delivered(t.wire) == Delivered(s.wire) && t.split == s.split
    requires t.driver == s.driver && t.channel == s.channel && t.up == s.up
    ensures Balance(t) == Balance(s) && Waiting(t) == Waiting(s)
  {
    hide Delivered, Flatten;
  }

  lemma TearKeepsInv(cfg: Config, s: State, at: nat, key: MaskKey)
    requires Inv(cfg, s) && Step(cfg, s, FrameTorn(at, key)).Some?
    ensures Inv(cfg, Step(cfg, s, FrameTorn(at, key)).value)
  {
    var t := Step(cfg, s, FrameTorn(at, key)).value;
    hide Recoded, Delivered, ServerReadAll, NextPacketLen, Flatten, BuildFrame, SplitStep;
    assert s.driver.parts[0] in Waiting(s);
    WireTears(s.wire, 2, s.driver.parts[0], key, at);
    MoveKeepsInv(cfg, s, t);
  }

  lemma SendKeepsInv(cfg: Config, s: State)
    requires Inv(cfg, s) && Step(cfg, s, SendPart).Some?
    ensures Inv(cfg, Step(cfg, s, SendPart).value)
  {
    hide Recoded, Delivered, ServerReadAll, NextPacketLen, Flatten, BuildFrame, SplitStep;
    var t := Step(cfg, s, SendPart).value;
    var d, c, u := DriverParts(s.driver), s.channel, UpParts(s.up);
    assert u == [u[0]] + UpParts(t.up);
    ConcatAssociates(c, [u[0]], UpParts(t.up));
    assert Waiting(t) == Waiting(s);
    hide Waiting;
    MoveKeepsInv(cfg, s, t);
  }

  lemma TakeKeepsInv(cfg: Config, s: State, e: Event)
    requires Inv(cfg, s) && Step(cfg, s, e).Some? && (e.TakeFirst? || e.TakeMore?)
    ensures Inv(cfg, Step(cfg, s, e).value)
  {
    hide Recoded, Delivered, ServerReadAll, NextPacketLen, Flatten, BuildFrame, SplitStep;
    var t := Step(cfg, s, e).value;
    var d, c, u := DriverParts(s.driver), s.channel, UpParts(s.up);
    assert c == [c[0]] + t.channel;
    ConcatAssociates([c[0]], t.channel, u);
    ConcatAssociates(d, [c[0]], t.channel + u);
    assert DriverParts(t.driver) == d + [c[0]];
    assert Waiting(t) == Waiting(s);
    hide Waiting;
    MoveKeepsInv(cfg, s, t);
  }

  lemma QueueKeepsInv(cfg: Config, s: State, e: Event)
    requires Inv(cfg, s) && Step(cfg, s, e).Some?
    requires e.SendRefused? || e.UpAborted? || e.BatchReady? || e.DriverStops?
    ensures Inv(cfg, Step(cfg, s, e).value)
  {
    hide Recoded, Delivered, ServerReadAll, NextPacketLen, Flatten, BuildFrame, SplitStep;
    var t := Step(cfg, s, e).value;
    assert Waiting(t) == Waiting(s);
    hide Waiting;
    MoveKeepsInv(cfg, s, t);
  }

  lemma StepKeepsInv(cfg: Config, s: State, e: Event)
    requires Inv(cfg, s) && Step(cfg, s, e).Some?
    ensures Inv(cfg, Step(cfg, s, e).value)
  {
    hide Inv, Recoded, Delivered, ServerReadAll, NextPacketLen, Flatten, BuildFrame;
    match e {
      case Read(data) => ReadKeepsInv(cfg, s, data);
      case InputEnds => InputEndsKeepsInv(cfg, s);
      case WriteFrame(key) => WriteKeepsInv(cfg, s, key);
      case QueueControl(c) => QueueControlKeepsInv(cfg, s, c);
      case WriteControl => WriteControlKeepsInv(cfg, s);
      case ControlTorn(at) => ControlTornKeepsInv(cfg, s, at);
      case FrameTorn(at, key) => TearKeepsInv(cfg, s, at, key);
      case SendPart => SendKeepsInv(cfg, s);
      case TakeFirst => TakeKeepsInv(cfg, s, e);
      case TakeMore => TakeKeepsInv(cfg, s, e);
      case _ => QueueKeepsInv(cfg, s, e);
    }
  }

  // Every state some run of events leads to.
  function Run(cfg: Config, events: seq<Event>): (r: Option<State>)
    ensures r.Some? ==> |r.value.split.plain| == |r.value.split.cipher|
  {
    if events == [] then Some(Init())
    else
      match Run(cfg, events[..|events| - 1])
      case None => None
      case Some(s) => Step(cfg, s, events[|events| - 1])
  }

  lemma {:induction false} RunKeepsInv(cfg: Config, events: seq<Event>)
    requires Run(cfg, events).Some?
    ensures Inv(cfg, Run(cfg, events).value)
    decreases |events|
  {
    if events == [] {
      InitInv(cfg);
    } else {
      var before := events[..|events| - 1];
      RunKeepsInv(cfg, before);
      StepKeepsInv(cfg, Run(cfg, before).value, events[|events| - 1]);
    }
  }

  lemma InitInv(cfg: Config)
    ensures Inv(cfg, Init())
  {
    EmptyUnreadable();
    EmptyAlways();
    assert ServerReadAll([]) == ([], []);
    assert Delivered([]) == [];
  }

  // ---- What a session promises ---------------------------------------------------------------

  // In every interleaving: what Telegram decrypts from the complete binary frames on the
  // wire is a prefix of the client's plaintext, and what is missing from it is exactly
  // what waits in the batch, the channel, the parts being sent and the splitter.
  lemma PrefixSafety(cfg: Config, events: seq<Event>, plain: seq<byte>)
    requires Run(cfg, events).Some?
    requires Run(cfg, events).value.input == Crypt(cfg.clt, HANDSHAKE_LEN, plain)
    ensures var s := Run(cfg, events).value;
            var got := Crypt(cfg.tg, HANDSHAKE_LEN, Flatten(Delivered(s.wire)));
            && got <= plain
            && Crypt(cfg.tg, HANDSHAKE_LEN + |got|, Flatten(Waiting(s)) + s.split.cipher) == plain[|got|..]
  {
    var s := Run(cfg, events).value;
    RunKeepsInv(cfg, events);
    var sent, missing := Flatten(Delivered(s.wire)), Flatten(Waiting(s)) + s.split.cipher;
    CryptTwice(cfg.clt, HANDSHAKE_LEN, plain);
    hide Crypt, Waiting, Delivered, Flatten, NextPacketLen, ServerReadAll, Run;
    assert sent + missing == Crypt(cfg.tg, HANDSHAKE_LEN, plain);
    CryptTwice(cfg.tg, HANDSHAKE_LEN, plain);
    CryptConcat(cfg.tg, HANDSHAKE_LEN, sent, missing);
  }

  // Queues stay within their capacities, so a session buffers a bounded number of parts.
  lemma {:induction false} BoundedQueues(cfg: Config, events: seq<Event>)
    requires Run(cfg, events).Some?
    ensures var s := Run(cfg, events).value;
            && |s.channel| <= WS_CHANNEL_CAP && |DriverParts(s.driver)| <= WS_SEND_BATCH_MAX
            && |s.controls| <= PONG_CHANNEL_CAP && |s.split.cipher| < MAX_MTPROTO_PACKET
  {
    RunKeepsInv(cfg, events);
  }
}
