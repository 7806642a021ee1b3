/**
 What a server may send (section 5.4 of RFC 6455) and what the receiver makes of it:
 legal sequences give exactly their messages, and nothing else gives a message.
 */
module WsReassembly {
  import opened Bytes
  import opened Mtproto
  import opened Seqs
  import opened Wrappers
  import opened WsFrame
  import opened WsMessages

  datatype Control = Ping(payload: seq<byte>) | Pong(payload: seq<byte>)

  // A fragment of a message and the control frames sent in front of it.
  datatype Piece = Piece(before: seq<Control>, data: seq<byte>)

  predicate LegalControls(cs: seq<Control>)
  {
    forall c | c in cs :: |c.payload| <= 125
  }

  predicate LegalPieces(pieces: seq<Piece>)
  {
    forall p | p in pieces :: LegalControls(p.before) && |p.data| <= MAX_WS_PAYLOAD
  }

  function ControlFrames(cs: seq<Control>): seq<Frame>
  {
    if cs == [] then []
    else [Frame(true, if cs[0].Ping? then 9 else 10, cs[0].payload)] + ControlFrames(cs[1..])
  }

  function Pings(cs: seq<Control>): seq<seq<byte>>
  {
    if cs == [] then []
    else (if cs[0].Ping? then [cs[0].payload] else []) + Pings(cs[1..])
  }

  // The fragments in order; the first one carries the opcode, and only the last of a
  // finished message the FIN bit.
  function MessageFrames(opcode: Opcode, pieces: seq<Piece>, finished: bool): seq<Frame>
  {
    if pieces == [] then []
    else
      ControlFrames(pieces[0].before)
      + ([Frame(finished && |pieces| == 1, opcode, pieces[0].data)] + MessageFrames(0, pieces[1..], finished))
  }

  function Data(pieces: seq<Piece>): seq<byte>
  {
    if pieces == [] then [] else pieces[0].data + Data(pieces[1..])
  }

  function AllPings(pieces: seq<Piece>): seq<seq<byte>>
  {
    if pieces == [] then [] else Pings(pieces[0].before) + AllPings(pieces[1..])
  }

  function Kept(fragmented: Option<seq<byte>>): seq<byte>
  {
    match fragmented
    case None => []
    case Some(m) => m
  }

  // ---- One frame, some control frames ---------------------------------------------------

  lemma RecvFrame(f: Frame, rest: seq<byte>, fragmented: Option<seq<byte>>, room: nat)
    requires Readable(f)
    ensures var n := |EncodeFrame(f)|;
            Recv(EncodeFrame(f) + rest, fragmented, room) ==
            match OnFrame(f, fragmented, room)
            case Stop(out) => Received(out, [], n)
            case Go(pings, kept) => Later(pings, n, Recv(rest, kept, room - |pings|))
  {
    hide ParseFrame, EncodeFrame, OnFrame;
    FrameRoundTrip(f, rest);
    assert (EncodeFrame(f) + rest)[|EncodeFrame(f)|..] == rest;
  }

  lemma LaterLater(a: seq<seq<byte>>, n: nat, b: seq<seq<byte>>, m: nat, r: Received)
    ensures Later(a, n, Later(b, m, r)) == Later(a + b, n + m, r)
  {
    assert a + (b + r.pings) == (a + b) + r.pings;
  }

  lemma {:induction false} RecvControls(cs: seq<Control>, rest: seq<byte>, fragmented: Option<seq<byte>>, room: nat)
    requires LegalControls(cs) && |Pings(cs)| <= room
    ensures var s := EncodeAll(ControlFrames(cs));
            Recv(s + rest, fragmented, room) == Later(Pings(cs), |s|, Recv(rest, fragmented, room - |Pings(cs)|))
  {
    hide Recv, ParseFrame, EncodeFrame;
    if cs == [] {
      assert [] + rest == rest;
      assert [] + Recv(rest, fragmented, room).pings == Recv(rest, fragmented, room).pings;
    } else {
      var f := ControlFrames(cs)[0];
      var tail := EncodeAll(ControlFrames(cs[1..]));
      var ping := if cs[0].Ping? then [cs[0].payload] else [];
      assert |cs[0].payload| <= 125;
      assert ControlFrames(cs)[1..] == ControlFrames(cs[1..]);
      assert EncodeAll(ControlFrames(cs)) + rest == EncodeFrame(f) + (tail + rest);
      RecvFrame(f, tail + rest, fragmented, room);
      RecvControls(cs[1..], rest, fragmented, room - |ping|);
      LaterLater(ping, |EncodeFrame(f)|, Pings(cs[1..]), |tail|,
                 Recv(rest, fragmented, room - |Pings(cs)|));
    }
  }

  // ---- Messages ---------------------------------------------------------------------------

  lemma EncodePiece(opcode: Opcode, pieces: seq<Piece>, finished: bool, rest: seq<byte>)
    requires pieces != []
    ensures var f := Frame(finished && |pieces| == 1, opcode, pieces[0].data);
            EncodeAll(MessageFrames(opcode, pieces, finished)) + rest ==
            EncodeAll(ControlFrames(pieces[0].before))
            + (EncodeFrame(f) + (EncodeAll(MessageFrames(0, pieces[1..], finished)) + rest))
    ensures |EncodeAll(MessageFrames(opcode, pieces, finished))| ==
            |EncodeAll(ControlFrames(pieces[0].before))|
            + |EncodeFrame(Frame(finished && |pieces| == 1, opcode, pieces[0].data))|
            + |EncodeAll(MessageFrames(0, pieces[1..], finished))|
  {
    hide EncodeFrame;
    var f := Frame(finished && |pieces| == 1, opcode, pieces[0].data);
    var more := MessageFrames(0, pieces[1..], finished);
    var c, e, m := EncodeAll(ControlFrames(pieces[0].before)), EncodeFrame(f), EncodeAll(more);
    EncodeAllConcat(ControlFrames(pieces[0].before), [f] + more);
    assert ([f] + more)[1..] == more;
    hide EncodeAll, ControlFrames;
    ConcatAssociates(c, e + m, rest);
    ConcatAssociates(e, m, rest);
  }

  // The control frames in front of one fragment, and the fragment.
  lemma RecvPiece(opcode: Opcode, p: Piece, fin: bool, tail: seq<byte>,
                  fragmented: Option<seq<byte>>, room: nat)
    requires LegalPieces([p]) && |Pings(p.before)| <= room
    requires opcode <= 2 && (opcode == 0 <==> fragmented.Some?)
    requires |Kept(fragmented)| + |p.data| <= MAX_WS_PAYLOAD
    ensures var c, e := EncodeAll(ControlFrames(p.before)), EncodeFrame(Frame(fin, opcode, p.data));
            var kept := Kept(fragmented) + p.data;
            Recv(c + (e + tail), fragmented, room) ==
            if fin then Received(Message(kept), Pings(p.before), |c| + |e|)
            else Later(Pings(p.before), |c| + |e|, Recv(tail, Some(kept), room - |Pings(p.before)|))
  {
    hide Recv, ParseFrame, EncodeFrame, EncodeAll, ControlFrames, Pings;
    assert p in [p];
    var f := Frame(fin, opcode, p.data);
    var kept := Kept(fragmented) + p.data;
    RecvControls(p.before, EncodeFrame(f) + tail, fragmented, room);
    RecvFrame(f, tail, fragmented, room - |Pings(p.before)|);
    assert [] + p.data == p.data && Pings(p.before) + [] == Pings(p.before);
    if !fin {
      LaterLater(Pings(p.before), |EncodeAll(ControlFrames(p.before))|, [], |EncodeFrame(f)|,
                 Recv(tail, Some(kept), room - |Pings(p.before)|));
    }
  }

  lemma PiecesHead(pieces: seq<Piece>)
    requires pieces != [] && LegalPieces(pieces)
    ensures LegalPieces([pieces[0]]) && LegalPieces(pieces[1..])
    ensures Data(pieces) == pieces[0].data + Data(pieces[1..])
    ensures AllPings(pieces) == Pings(pieces[0].before) + AllPings(pieces[1..])
  {
  }

  lemma NoPieces()
    ensures Data([]) == [] && AllPings([]) == []
  {
  }

  // Any unfinished run of fragments is kept, and any finished one delivered; every ping
  // on the way is answered once, in order.
  lemma {:induction false} RecvPieces(opcode: Opcode, pieces: seq<Piece>, finished: bool, rest: seq<byte>,
                                      fragmented: Option<seq<byte>>, room: nat)
    requires pieces != [] && LegalPieces(pieces)
    requires opcode <= 2 && (opcode == 0 <==> fragmented.Some?)
    requires |Kept(fragmented)| + |Data(pieces)| <= MAX_WS_PAYLOAD
    requires |AllPings(pieces)| <= room
    ensures var s := EncodeAll(MessageFrames(opcode, pieces, finished));
            var whole := Kept(fragmented) + Data(pieces);
            Recv(s + rest, fragmented, room) ==
            if finished then Received(Message(whole), AllPings(pieces), |s|)
            else Later(AllPings(pieces), |s|, Recv(rest, Some(whole), room - |AllPings(pieces)|))
    decreases |pieces|
  {
    hide Recv, ParseFrame, EncodeFrame, EncodeAll, MessageFrames, ControlFrames, Pings, Later, Data, AllPings,
         LegalPieces;
    var p, more := pieces[0], pieces[1..];
    var fin := finished && |pieces| == 1;
    var c, e := EncodeAll(ControlFrames(p.before)), EncodeFrame(Frame(fin, opcode, p.data));
    var m := EncodeAll(MessageFrames(0, more, finished));
    var kept, left := Kept(fragmented) + p.data, room - |Pings(p.before)|;
    EncodePiece(opcode, pieces, finished, rest);
    PiecesHead(pieces);
    RecvPiece(opcode, p, fin, m + rest, fragmented, room);
    ConcatAssociates(Kept(fragmented), p.data, Data(more));
    if more == [] {
      NoPieces();
      NoMoreFrames(finished);
      assert m + rest == rest && kept + [] == kept && Pings(p.before) + [] == Pings(p.before);
    } else {
      RecvPieces(0, more, finished, rest, Some(kept), left);
      if finished {
        LaterReceived(Pings(p.before), |c| + |e|, Message(kept + Data(more)), AllPings(more), |m|);
      } else {
        LaterLater(Pings(p.before), |c| + |e|, AllPings(more), |m|,
                   Recv(rest, Some(kept + Data(more)), left - |AllPings(more)|));
      }
    }
  }

  lemma LaterReceived(a: seq<seq<byte>>, n: nat, out: Outcome, b: seq<seq<byte>>, m: nat)
    ensures Later(a, n, Received(out, b, m)) == Received(out, a + b, n + m)
  {
  }

  lemma NoMoreFrames(finished: bool)
    ensures EncodeAll(MessageFrames(0, [], finished)) == []
  {
  }

  // A message that outgrows the cap is refused at the fragment that does it.
  lemma OverlongIsRefused(opcode: Opcode, pieces: seq<Piece>, next: Piece, fin: bool, rest: seq<byte>, room: nat)
    requires pieces != [] && LegalPieces(pieces + [next]) && (opcode == 1 || opcode == 2)
    requires |Data(pieces)| <= MAX_WS_PAYLOAD < |Data(pieces)| + |next.data|
    requires |AllPings(pieces)| + |Pings(next.before)| <= room
    ensures var s := EncodeAll(MessageFrames(opcode, pieces, false));
            var c, e := EncodeAll(ControlFrames(next.before)), EncodeFrame(Frame(fin, 0, next.data));
            Recv(s + (c + (e + rest)), None, room).out == Failed(MessageTooLarge)
  {
    hide Recv, ParseFrame, EncodeFrame, EncodeAll, MessageFrames, ControlFrames, Pings, Data, AllPings;
    var c, e := EncodeAll(ControlFrames(next.before)), EncodeFrame(Frame(fin, 0, next.data));
    assert next in pieces + [next];
    assert forall p | p in pieces :: p in pieces + [next];
    RecvPieces(opcode, pieces, false, c + (e + rest), None, room);
    var left := room - |AllPings(pieces)|;
    RecvControls(next.before, e + rest, Some([] + Data(pieces)), left);
    RecvFrame(Frame(fin, 0, next.data), rest, Some([] + Data(pieces)), left - |Pings(next.before)|);
  }

  // Out of order: a continuation with nothing to continue, a new message inside one, or
  // a reserved opcode, after any legal frames of an unfinished message.
  lemma IllegalOrderIsRefused(opcode: Opcode, pieces: seq<Piece>, controls: seq<Control>, bad: Frame,
                              rest: seq<byte>, room: nat)
    requires LegalPieces(pieces) && LegalControls(controls) && Readable(bad)
    requires (opcode == 1 || opcode == 2) && |Data(pieces)| <= MAX_WS_PAYLOAD
    requires |AllPings(pieces)| + |Pings(controls)| <= room
    requires bad.opcode !in {8, 9, 10}
    requires bad.opcode <= 2 ==> (bad.opcode == 0 <==> pieces == [])
    ensures var s := EncodeAll(MessageFrames(opcode, pieces, false));
            var c := EncodeAll(ControlFrames(controls));
            Recv(s + (c + (EncodeFrame(bad) + rest)), None, room).out ==
            Failed(if bad.opcode > 2 then UnsupportedOpcode
                   else if pieces == [] then ContinuationWithoutStart
                   else NewMessageDuringFragments)
  {
    NoFrames(opcode);
    hide *;
    var tail := EncodeAll(ControlFrames(controls)) + (EncodeFrame(bad) + rest);
    if pieces == [] {
      assert [] + tail == tail;
      BadFrameAfterControls(controls, bad, rest, None, room);
    } else {
      KeptOfNone(Data(pieces));
      RecvPieces(opcode, pieces, false, tail, None, room);
      BadFrameAfterControls(controls, bad, rest, Some(Data(pieces)), room - |AllPings(pieces)|);
      LaterOut(AllPings(pieces), |EncodeAll(MessageFrames(opcode, pieces, false))|,
               Recv(tail, Some(Data(pieces)), room - |AllPings(pieces)|));
    }
  }

  lemma KeptOfNone(data: seq<byte>)
    ensures Kept(None) == [] && Kept(None) + data == data
  {
  }

  lemma BadFrameAfterControls(controls: seq<Control>, bad: Frame, rest: seq<byte>,
                              kept: Option<seq<byte>>, room: nat)
    requires LegalControls(controls) && Readable(bad) && |Pings(controls)| <= room
    requires bad.opcode !in {8, 9, 10}
    requires bad.opcode <= 2 ==> (bad.opcode == 0 <==> kept.None?)
    ensures Recv(EncodeAll(ControlFrames(controls)) + (EncodeFrame(bad) + rest), kept, room).out ==
            Failed(if bad.opcode > 2 then UnsupportedOpcode
                   else if kept.None? then ContinuationWithoutStart
                   else NewMessageDuringFragments)
  {
    hide Recv, ParseFrame, EncodeFrame, EncodeAll, ControlFrames, Pings;
    RecvControls(controls, EncodeFrame(bad) + rest, kept, room);
    RecvFrame(bad, rest, kept, room - |Pings(controls)|);
  }

  lemma NoFrames(opcode: Opcode)
    ensures EncodeAll(MessageFrames(opcode, [], false)) == []
  {
  }

  // ---- Sessions -----------------------------------------------------------------------------

  // Calling again and again until no message comes: the messages, the pings answered,
  // and how it ended.
  function Session(s: seq<byte>, room: nat): (seq<seq<byte>>, seq<seq<byte>>, Outcome)
    decreases |s|
  {
    var r := Recv(s, None, room);
    match r.out
    case Message(data) =>
      var (messages, pings, end) := Session(s[r.used..], room - |r.pings|);
      ([data] + messages, r.pings + pings, end)
    case _ => ([], r.pings, r.out)
  }

  datatype Sending = Sending(opcode: Opcode, pieces: seq<Piece>)

  predicate LegalSending(m: Sending)
  {
    && (m.opcode == 1 || m.opcode == 2)
    && m.pieces != [] && LegalPieces(m.pieces)
    && |Data(m.pieces)| <= MAX_WS_PAYLOAD
  }

  function EncodeSendings(ms: seq<Sending>): seq<byte>
  {
    if ms == [] then []
    else EncodeAll(MessageFrames(ms[0].opcode, ms[0].pieces, true)) + EncodeSendings(ms[1..])
  }

  function Payloads(ms: seq<Sending>): seq<seq<byte>>
  {
    if ms == [] then [] else [Data(ms[0].pieces)] + Payloads(ms[1..])
  }

  function SentPings(ms: seq<Sending>): seq<seq<byte>>
  {
    if ms == [] then [] else AllPings(ms[0].pieces) + SentPings(ms[1..])
  }

  // Whatever messages a server sends, however fragmented and with whatever pings and pongs
  // in between: repeated calls deliver them in order, every ping is answered once and in
  // order, and the close frame ends it, whatever comes after.
  lemma {:induction false} SessionDelivers(ms: seq<Sending>, controls: seq<Control>, reason: seq<byte>,
                                           after: seq<byte>, room: nat)
    requires forall m | m in ms :: LegalSending(m)
    requires LegalControls(controls) && |reason| <= 125
    requires |SentPings(ms)| + |Pings(controls)| <= room
    ensures var close := EncodeFrame(Frame(true, 8, reason));
            Session(EncodeSendings(ms) + (EncodeAll(ControlFrames(controls)) + (close + after)), room) ==
            (Payloads(ms), SentPings(ms) + Pings(controls), Closed)
    decreases |ms|
  {
    hide Recv, ParseFrame, EncodeFrame, EncodeAll, MessageFrames, ControlFrames, Pings, Data, AllPings;
    var close := EncodeFrame(Frame(true, 8, reason));
    var tail := EncodeAll(ControlFrames(controls)) + (close + after);
    if ms == [] {
      assert [] + tail == tail && [] + Pings(controls) == Pings(controls);
      assert Pings(controls) + [] == Pings(controls);
      RecvControls(controls, close + after, None, room);
      RecvFrame(Frame(true, 8, reason), after, None, room - |Pings(controls)|);
    } else {
      var m := ms[0];
      assert m in ms && forall n | n in ms[1..] :: n in ms;
      var e, rest := EncodeAll(MessageFrames(m.opcode, m.pieces, true)), EncodeSendings(ms[1..]) + tail;
      ConcatAssociates(e, EncodeSendings(ms[1..]), tail);
      RecvPieces(m.opcode, m.pieces, true, rest, None, room);
      assert [] + Data(m.pieces) == Data(m.pieces);
      assert (e + rest)[|e|..] == rest;
      SessionDelivers(ms[1..], controls, reason, after, room - |AllPings(m.pieces)|);
      ConcatAssociates(AllPings(m.pieces), SentPings(ms[1..]), Pings(controls));
    }
  }

  // ---- Only legal sequences give messages ------------------------------------------------------

  // The frames the first `n` bytes of `s` read as.
  function FramesIn(s: seq<byte>, n: nat): seq<Frame>
    requires n <= |s|
    decreases n
  {
    match ParseFrame(s)
    case Err(_) => []
    case Ok((f, k)) => if k > n then [] else [f] + FramesIn(s[k..], n - k)
  }

  lemma FramesInStep(s: seq<byte>, f: Frame, k: nat, n: nat)
    requires ParseFrame(s) == Ok((f, k)) && k + n <= |s|
    ensures FramesIn(s, k + n) == [f] + FramesIn(s[k..], n)
  {
    hide ParseFrame;
  }

  // The bytes one call consumed are the frames of one finished message, control frames
  // in between, and the outcome is exactly the concatenation of their payloads.
  ghost predicate Explains(s: seq<byte>, fragmented: Option<seq<byte>>, r: Received,
                           opcode: Opcode, pieces: seq<Piece>)
    requires r.used <= |s|
  {
    && opcode <= 2 && (opcode == 0 <==> fragmented.Some?)
    && pieces != [] && LegalPieces(pieces)
    && FramesIn(s, r.used) == MessageFrames(opcode, pieces, true)
    && r.out == Message(Kept(fragmented) + Data(pieces))
    && |Kept(fragmented) + Data(pieces)| <= MAX_WS_PAYLOAD
    && r.pings == AllPings(pieces)
  }

  // The converse of delivery: a message comes back only from a legal sequence of frames.
  lemma {:induction false} OnlyLegalSequences(s: seq<byte>, fragmented: Option<seq<byte>>, room: nat)
    returns (opcode: Opcode, pieces: seq<Piece>)
    requires Recv(s, fragmented, room).out.Message?
    ensures pieces != []
    ensures Explains(s, fragmented, Recv(s, fragmented, room), opcode, pieces)
    decreases |s|
  {
    hide ParseFrame, Explains, Later;
    var (f, k) := ParseFrame(s).value;
    var step := OnFrame(f, fragmented, room);
    hide OnFrame;
    if step.Stop? {
      opcode, pieces := f.opcode, [Piece([], f.payload)];
      LastFrameExplains(s, fragmented, room, f, k);
    } else {
      var rest := Recv(s[k..], step.kept, room - |step.pings|);
      LaterOut(step.pings, k, rest);
      var op, ps := OnlyLegalSequences(s[k..], step.kept, room - |step.pings|);
      if f.opcode == 9 || f.opcode == 10 {
        opcode, pieces := op, WithControl(ControlOf(f), ps);
        ControlExplains(s, fragmented, room, f, k, op, ps);
      } else {
        opcode, pieces := f.opcode, [Piece([], f.payload)] + ps;
        FragmentExplains(s, fragmented, room, f, k, op, ps);
      }
    }
  }

  lemma LaterOut(pings: seq<seq<byte>>, n: nat, r: Received)
    ensures Later(pings, n, r).out == r.out
  {
  }

  function ControlOf(f: Frame): Control
  {
    if f.opcode == 9 then Ping(f.payload) else Pong(f.payload)
  }

  // One more control frame in front of a message.
  function WithControl(c: Control, ps: seq<Piece>): seq<Piece>
    requires ps != []
  {
    [Piece([c] + ps[0].before, ps[0].data)] + ps[1..]
  }

  lemma LastFrameExplains(s: seq<byte>, fragmented: Option<seq<byte>>, room: nat, f: Frame, k: nat)
    requires ParseFrame(s) == Ok((f, k)) && k <= |s| && Readable(f)
    requires OnFrame(f, fragmented, room).Stop? && OnFrame(f, fragmented, room).out.Message?
    ensures Explains(s, fragmented, Recv(s, fragmented, room), f.opcode, [Piece([], f.payload)])
  {
    hide ParseFrame;
    FramesInStep(s, f, k, 0);
    NoFramesIn(s[k..]);
    SingleFrame(f.opcode, f.payload);
    assert f == Frame(true, f.opcode, f.payload);
  }

  lemma SingleFrame(opcode: Opcode, payload: seq<byte>)
    requires |payload| <= MAX_WS_PAYLOAD
    ensures var pieces := [Piece([], payload)];
            && LegalPieces(pieces)
            && MessageFrames(opcode, pieces, true) == [Frame(true, opcode, payload)]
            && Data(pieces) == payload && AllPings(pieces) == []
  {
    assert [Piece([], payload)][1..] == [];
    assert payload + [] == payload;
  }

  lemma ControlExplains(s: seq<byte>, fragmented: Option<seq<byte>>, room: nat, f: Frame, k: nat,
                        opcode: Opcode, ps: seq<Piece>)
    requires ParseFrame(s) == Ok((f, k)) && k <= |s| && Readable(f)
    requires (f.opcode == 9 && room > 0) || f.opcode == 10
    requires Explains(s[k..], fragmented, Recv(s[k..], fragmented, if f.opcode == 9 then room - 1 else room), opcode,
                      ps)
    ensures Explains(s, fragmented, Recv(s, fragmented, room), opcode, WithControl(ControlOf(f), ps))
  {
    hide ParseFrame, Recv, FramesIn, MessageFrames, Data, AllPings, LegalPieces, Kept;
    var c := ControlOf(f);
    var ping := if c.Ping? then [c.payload] else [];
    var rest := Recv(s[k..], fragmented, if f.opcode == 9 then room - 1 else room);
    RecvUnfold(s, fragmented, room, f, k);
    assert Recv(s, fragmented, room) == Later(ping, k, rest);
    assert f == Frame(true, if c.Ping? then 9 else 10, c.payload);
    FramesInStep(s, f, k, rest.used);
    PrependControl(c, opcode, ps);
  }

  lemma PrependControl(c: Control, opcode: Opcode, ps: seq<Piece>)
    requires ps != [] && LegalPieces(ps) && |c.payload| <= 125
    ensures var pieces := WithControl(c, ps);
            && pieces != [] && LegalPieces(pieces)
            && MessageFrames(opcode, pieces, true) ==
               [Frame(true, if c.Ping? then 9 else 10, c.payload)] + MessageFrames(opcode, ps, true)
            && Data(pieces) == Data(ps)
            && AllPings(pieces) == (if c.Ping? then [c.payload] else []) + AllPings(ps)
  {
    var pieces := WithControl(c, ps);
    var head := pieces[0];
    assert ps[0] in ps;
    assert pieces[1..] == ps[1..] && head.before[1..] == ps[0].before;
    assert forall p | p in pieces :: p == head || p in ps;
    var f := Frame(true, if c.Ping? then 9 else 10, c.payload);
    ConcatAssociates([f], ControlFrames(ps[0].before),
                     [Frame(|pieces| == 1, opcode, head.data)] + MessageFrames(0, ps[1..], true));
    ConcatAssociates(if c.Ping? then [c.payload] else [], Pings(ps[0].before), AllPings(ps[1..]));
  }

  lemma FragmentExplains(s: seq<byte>, fragmented: Option<seq<byte>>, room: nat, f: Frame, k: nat,
                         opcode: Opcode, ps: seq<Piece>)
    requires ParseFrame(s) == Ok((f, k)) && k <= |s| && Readable(f)
    requires f.opcode <= 2 && OnFrame(f, fragmented, room).Go?
    requires var kept := OnFrame(f, fragmented, room).kept;
             Explains(s[k..], kept, Recv(s[k..], kept, room), opcode, ps)
    ensures Explains(s, fragmented, Recv(s, fragmented, room), f.opcode, [Piece([], f.payload)] + ps)
  {
    hide ParseFrame, Recv, FramesIn, MessageFrames, Data, AllPings, LegalPieces;
    var kept := OnFrame(f, fragmented, room).kept;
    var rest := Recv(s[k..], kept, room);
    RecvUnfold(s, fragmented, room, f, k);
    PrependFragment(f.opcode, f.payload, opcode, ps);
    FramesInStep(s, f, k, rest.used);
    assert Recv(s, fragmented, room) == Later([], k, rest);
    assert f == Frame(false, f.opcode, f.payload);
    assert kept == Some(Kept(fragmented) + f.payload) by { KeptOfNone(f.payload); }
    ConcatAssociates(Kept(fragmented), f.payload, Data(ps));
    assert [] + rest.pings == rest.pings;
  }

  lemma PrependFragment(first: Opcode, payload: seq<byte>, opcode: Opcode, ps: seq<Piece>)
    requires ps != [] && LegalPieces(ps) && |payload| <= MAX_WS_PAYLOAD && opcode == 0
    ensures var pieces := [Piece([], payload)] + ps;
            && LegalPieces(pieces)
            && MessageFrames(first, pieces, true) == [Frame(false, first, payload)] + MessageFrames(opcode, ps, true)
            && Data(pieces) == payload + Data(ps)
            && AllPings(pieces) == AllPings(ps)
  {
    var pieces := [Piece([], payload)] + ps;
    assert pieces[1..] == ps;
    assert forall p | p in pieces :: p == pieces[0] || p in ps;
  }

  lemma RecvUnfold(s: seq<byte>, fragmented: Option<seq<byte>>, room: nat, f: Frame, k: nat)
    requires ParseFrame(s) == Ok((f, k)) && k <= |s|
    ensures Recv(s, fragmented, room) ==
            match OnFrame(f, fragmented, room)
            case Stop(out) => Received(out, [], k)
            case Go(pings, kept) => Later(pings, k, Recv(s[k..], kept, room - |pings|))
  {
    hide ParseFrame, OnFrame;
  }

  lemma NoFramesIn(s: seq<byte>)
    ensures FramesIn(s, 0) == []
  {
  }
}
