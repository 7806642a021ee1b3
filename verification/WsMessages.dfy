/** Receiving binary messages: control frames interleaved, fragments reassembled. */
module WsMessages {
  import opened Bytes
  import opened Mtproto
  import opened Seqs
  import opened Wrappers
  import opened WsFrame

  datatype RecvError =
    | BadFrame(error: FrameError)
    | UnsupportedOpcode
    | NewMessageDuringFragments
    | ContinuationWithoutStart
    | MessageTooLarge
    | WriterClosed

  datatype Outcome = Message(data: seq<byte>) | Closed | Failed(error: RecvError)

  // One data frame added to the message being assembled: the finished message, if it
  // is finished, and what is kept for later frames.
  function Assemble(fin: bool, opcode: Opcode, payload: seq<byte>, fragmented: Option<seq<byte>>)
    : Result<(Option<seq<byte>>, Option<seq<byte>>), RecvError>
    requires opcode <= 2
  {
    if opcode != 0 then
      if fragmented.Some? then Err(NewMessageDuringFragments)
      else if fin then Ok((Some(payload), None))
      else Ok((None, Some(payload)))
    else
      match fragmented
      case None => Err(ContinuationWithoutStart)
      case Some(message) =>
        if |message| + |payload| > MAX_WS_PAYLOAD then Err(MessageTooLarge)
        else if fin then Ok((Some(message + payload), None))
        else Ok((None, Some(message + payload)))
  }

  // How one call ends, the ping payloads answered on the way, the bytes consumed.
  datatype Received = Received(out: Outcome, pings: seq<seq<byte>>, used: nat)

  // What one frame does to a call: end it, or leave pings answered and fragments kept.
  datatype Step = Stop(out: Outcome) | Go(pings: seq<seq<byte>>, kept: Option<seq<byte>>)

  // The writer takes `room` more pongs before it goes away.
  function OnFrame(f: Frame, fragmented: Option<seq<byte>>, room: nat): (step: Step)
    ensures step.Go? ==> |step.pings| <= room
  {
    if f.opcode == 8 then Stop(Closed)
    else if f.opcode == 9 then
      if room == 0 then Stop(Failed(WriterClosed)) else Go([f.payload], fragmented)
    else if f.opcode == 10 then Go([], fragmented)
    else if f.opcode <= 2 then
      match Assemble(f.fin, f.opcode, f.payload, fragmented)
      case Err(e) => Stop(Failed(e))
      case Ok((Some(message), _)) => Stop(Message(message))
      case Ok((None, kept)) => Go([], kept)
    else Stop(Failed(UnsupportedOpcode))
  }

  // One call of `recv_binary` on the bytes `s`.
  function Recv(s: seq<byte>, fragmented: Option<seq<byte>>, room: nat): (r: Received)
    ensures r.used <= |s|
    ensures r.out.Message? ==> r.used > 0
    ensures |r.pings| <= room
    decreases |s|
  {
    match ParseFrame(s)
    case Err(e) => Received(Failed(BadFrame(e)), [], 0)
    case Ok((f, n)) =>
      match OnFrame(f, fragmented, room)
      case Stop(out) => Received(out, [], n)
      case Go(pings, kept) => Later(pings, n, Recv(s[n..], kept, room - |pings|))
  }

  function Later(pings: seq<seq<byte>>, n: nat, r: Received): Received
  {
    Received(r.out, pings + r.pings, n + r.used)
  }

  /** The sending side of the bounded pong channel; the writer closes it after `limit` frames. */
  class PongSender {
    const keys: nat -> MaskKey
    const limit: nat
    var frames: seq<seq<byte>>
    ghost var answered: seq<seq<byte>>

    // One masked pong per answered ping, same payload, same order; the i-th random key masks the i-th.
    ghost predicate Valid()
      reads this
    {
      && |frames| == |answered|
      && forall i | 0 <= i < |frames| :: frames[i] == BuildFrame(0xA, answered[i], Some(keys(i)))
    }

    constructor (keys: nat -> MaskKey, limit: nat)
      ensures Valid() && this.keys == keys && this.limit == limit && answered == []
    {
      this.keys, this.limit, frames, answered := keys, limit, [], [];
    }

    // How many more frames will be accepted.
    function Room(): nat
      reads this
    {
      if |frames| <= limit then limit - |frames| else 0
    }

    method Send(payload: seq<byte>) returns (ok: bool)
      requires Valid()
      modifies this
      ensures Valid()
      ensures ok <==> old(Room()) > 0
      ensures answered == if ok then old(answered) + [payload] else old(answered)
    {
      ok := |frames| < limit;
      if ok {
        frames := frames + [BuildFrame(0xA, payload, Some(keys(|frames|)))];
        answered := answered + [payload];
      }
    }
  }

  /** The reading half of a WebSocket over the bytes the server will have sent. */
  class WsReadHalf {
    const input: seq<byte>
    var pos: nat

    ghost predicate Valid()
      reads this
    {
      pos <= |input|
    }

    constructor (input: seq<byte>)
      ensures Valid() && this.input == input && pos == 0
    {
      this.input, pos := input, 0;
    }

    method ReadExact(n: nat) returns (r: Option<seq<byte>>)
      requires Valid()
      modifies this
      ensures Valid()
      ensures if old(pos) + n <= |input|
              then r == Some(input[old(pos)..old(pos) + n]) && pos == old(pos) + n
              else r == None && pos == |input|
    {
      if pos + n <= |input| {
        r := Some(input[pos..pos + n]);
        pos := pos + n;
      } else {
        r := None;
        pos := |input|;
      }
    }

    // The length behind its first byte, which has been read.
    method ReadLength(code: byte) returns (r: Result<nat, FrameError>)
      requires Valid() && pos > 0 && input[pos - 1] == code && code < 0x80
      modifies this
      ensures Valid()
      ensures match DecodeLength(input[old(pos) - 1..])
              case None => r == Err(UnexpectedEof)
              case Some((length, used)) =>
                if used == 9 && length > MAX_WS_PAYLOAD then r == Err(FrameTooLarge)
                else r == Ok(length) && pos == old(pos) - 1 + used
    {
      hide BeNat, Pow256;
      ghost var s := input[pos - 1..];
      assert s[0] == code;
      var length: nat := code as int % 128;
      if length == 126 {
        var ext := ReadExact(2);
        if ext.None? {
          return Err(UnexpectedEof);
        }
        assert ext.value == s[1..3];
        length := BeNat(ext.value);
      } else if length == 127 {
        var ext := ReadExact(8);
        if ext.None? {
          return Err(UnexpectedEof);
        }
        assert ext.value == s[1..9];
        var len64 := BeNat(ext.value);
        if len64 > MAX_WS_PAYLOAD {
          return Err(FrameTooLarge);
        }
        length := len64;
      }
      return Ok(length);
    }

    method ReadFrame() returns (r: Result<Frame, FrameError>)
      requires Valid()
      modifies this
      ensures Valid()
      ensures match ParseFrame(input[old(pos)..])
              case Ok((f, n)) => r == Ok(f) && pos == old(pos) + n
              case Err(e) => r == Err(e)
    {
      hide DecodeLength;
      ghost var start, s := pos, input[pos..];
      var hdr := ReadExact(2);
      if hdr.None? {
        return Err(UnexpectedEof);
      }
      var first, second := hdr.value[0], hdr.value[1];
      assert first == s[0] && second == s[1];
      if (first as int / 16) % 8 != 0 {
        return Err(RsvBits);
      }
      var fin, opcode := first >= 0x80, first % 16;
      if second >= 0x80 {
        return Err(MaskedByServer);
      }
      assert s[1..] == input[start + 1..];
      var read := ReadLength(second);
      if read.Err? {
        return Err(read.error);
      }
      var length := read.value;
      if length > MAX_WS_PAYLOAD {
        return Err(FrameTooLarge);
      }
      if opcode >= 8 && (!fin || length > 125) {
        return Err(BadControlFrame);
      }
      ghost var used := pos - start;
      var payload := ReadExact(length);
      if payload.None? {
        return Err(UnexpectedEof);
      }
      assert payload.value == s[used..used + length];
      return Ok(Frame(fin, opcode, payload.value));
    }

    method RecvBinary(pongs: PongSender) returns (out: Outcome)
      requires Valid() && pongs.Valid()
      modifies this, pongs
      ensures Valid() && pongs.Valid()
      ensures var r := Recv(input[old(pos)..], None, old(pongs.Room()));
              && out == r.out
              && pongs.answered == old(pongs.answered) + r.pings
              && (!out.Failed? ==> pos == old(pos) + r.used)
    {
      hide ParseFrame, Readable, Recv, Later, Progress, BuildFrame;
      ghost var start, room := pos, pongs.Room();
      ghost var answered: seq<seq<byte>> := [];
      var fragmented: Option<seq<byte>> := None;
      ProgressStarts(input, start, room);
      while true
        invariant Valid() && start <= pos && pongs.Valid()
        invariant pongs.answered == old(pongs.answered) + answered
        invariant |answered| <= room && pongs.Room() == room - |answered|
        invariant Progress(input, start, room, pos, answered, fragmented)
        decreases |input| - pos
      {
        ProgressTurn(input, start, room, pos, answered, fragmented);
        var r := ReadFrame();
        if r.Err? {
          return Failed(BadFrame(r.error));
        }
        var f := r.value;
        if f.opcode == 8 {
          return Closed;
        } else if f.opcode == 9 {
          var sent := pongs.Send(f.payload);
          if !sent {
            return Failed(WriterClosed);
          }
          answered := answered + [f.payload];
        } else if f.opcode == 10 {
          assert answered + [] == answered;
        } else if f.opcode <= 2 {
          var added := Assemble(f.fin, f.opcode, f.payload, fragmented);
          assert answered + [] == answered;
          match added {
            case Err(e) =>
              return Failed(e);
            case Ok((Some(message), _)) =>
              return Message(message);
            case Ok((None, kept)) =>
              fragmented := kept;
          }
        } else {
          return Failed(UnsupportedOpcode);
        }
      }
    }
  }

  // The call that began at `start` is what has been answered so far, then what the
  // bytes from `pos` on give.
  ghost predicate Progress(input: seq<byte>, start: nat, room: nat, pos: nat,
                           answered: seq<seq<byte>>, fragmented: Option<seq<byte>>)
    requires start <= pos <= |input| && |answered| <= room
  {
    Recv(input[start..], None, room) ==
    Later(answered, pos - start, Recv(input[pos..], fragmented, room - |answered|))
  }

  lemma ProgressStarts(input: seq<byte>, start: nat, room: nat)
    requires start <= |input|
    ensures Progress(input, start, room, start, [], None)
  {
    hide Recv;
    var all := Recv(input[start..], None, room);
    assert [] + all.pings == all.pings;
  }

  lemma ProgressTurn(input: seq<byte>, start: nat, room: nat, pos: nat,
                     answered: seq<seq<byte>>, fragmented: Option<seq<byte>>)
    requires start <= pos <= |input| && |answered| <= room
    requires Progress(input, start, room, pos, answered, fragmented)
    ensures var all := Recv(input[start..], None, room);
            match ParseFrame(input[pos..])
            case Err(e) => all == Received(Failed(BadFrame(e)), answered, pos - start)
            case Ok((f, n)) =>
              match OnFrame(f, fragmented, room - |answered|)
              case Stop(out) => all == Received(out, answered, pos + n - start)
              case Go(pings, kept) => Progress(input, start, room, pos + n, answered + pings, kept)
  {
    hide ParseFrame, Readable, OnFrame;
    assert answered + [] == answered;
    if ParseFrame(input[pos..]).Ok? {
      var (f, n) := ParseFrame(input[pos..]).value;
      DropDrop(input, pos, pos + n);
      var step := OnFrame(f, fragmented, room - |answered|);
      if step.Go? {
        var r := Recv(input[pos + n..], step.kept, room - |answered| - |step.pings|);
        assert answered + (step.pings + r.pings) == (answered + step.pings) + r.pings;
      }
    }
  }
}
