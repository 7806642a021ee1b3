/**
 The downstream half of a session, from the bytes Telegram's server sends to what the
 client decrypts: frames, messages, re-encryption.
 */
module Downstream {
  import opened Bytes
  import opened Ctr
  import opened Mtproto
  import opened RelayStream
  import opened Seqs
  import opened Splitter
  import opened Wrappers
  import opened WsFrame
  import opened WsMessages
  import opened WsReassembly

  // ---- A connection that breaks off -------------------------------------------------------

  lemma DecodeLengthExtends(s: seq<byte>, t: seq<byte>)
    requires s != [] && s <= t && DecodeLength(s).Some?
    ensures DecodeLength(t) == DecodeLength(s)
  {
    hide BeNat, Pow256;
    var (_, used) := DecodeLength(s).value;
    assert used > 1 ==> t[1..used] == s[1..used];
  }

  // A frame that was read is read alike when more has arrived.
  lemma ParseFrameExtends(s: seq<byte>, t: seq<byte>)
    requires s <= t && ParseFrame(s).Ok?
    ensures ParseFrame(t) == ParseFrame(s)
  {
    assert s[1..] <= t[1..];
    DecodeLengthExtends(s[1..], t[1..]);
    hide DecodeLength;
    var (length, used) := DecodeLength(s[1..]).value;
    assert t[1 + used..1 + used + length] == s[1 + used..1 + used + length];
  }

  // A message that was received is received alike when more has arrived and the writer
  // takes more pongs.
  lemma {:induction false} RecvStable(s: seq<byte>, t: seq<byte>, fragmented: Option<seq<byte>>, room: nat, more: nat)
    requires s <= t && room <= more && Recv(s, fragmented, room).out.Message?
    ensures Recv(t, fragmented, more) == Recv(s, fragmented, room)
    decreases |s|
  {
    hide ParseFrame, Later;
    var (f, n) := ParseFrame(s).value;
    ParseFrameExtends(s, t);
    RecvUnfold(s, fragmented, room, f, n);
    RecvUnfold(t, fragmented, more, f, n);
    MoreRoom(f, fragmented, room, more);
    var step := OnFrame(f, fragmented, room);
    hide Recv, OnFrame;
    if step.Go? {
      assert s[n..] <= t[n..];
      LaterOut(step.pings, n, Recv(s[n..], step.kept, room - |step.pings|));
      RecvStable(s[n..], t[n..], step.kept, room - |step.pings|, more - |step.pings|);
    }
  }

  lemma MoreRoom(f: Frame, fragmented: Option<seq<byte>>, room: nat, more: nat)
    requires room <= more
    ensures var step := OnFrame(f, fragmented, room);
            step.Go? || step.out.Message? ==> OnFrame(f, fragmented, more) == step
  {
  }

  // What a session delivers of the start of a stream is the start of what it delivers of
  // the whole, wherever the stream breaks off and whenever the writer goes away.
  lemma {:induction false} SessionPrefix(s: seq<byte>, t: seq<byte>, room: nat, more: nat)
    requires s <= t && room <= more
    ensures Session(s, room).0 <= Session(t, more).0
    decreases |s|
  {
    hide Recv;
    var r := Recv(s, None, room);
    if r.out.Message? {
      RecvStable(s, t, None, room, more);
      assert s[r.used..] <= t[r.used..];
      SessionPrefix(s[r.used..], t[r.used..], room - |r.pings|, more - |r.pings|);
    }
  }

  // ---- End to end -----------------------------------------------------------------------------

  // Everything a server sends in a session: messages in any fragments, with pings and pongs
  // in between, and a close frame, whatever comes after.
  function Stream(ms: seq<Sending>, controls: seq<Control>, reason: seq<byte>, after: seq<byte>): seq<byte>
  {
    EncodeSendings(ms) + (EncodeAll(ControlFrames(controls)) + (EncodeFrame(Frame(true, 8, reason)) + after))
  }

  // What the client decrypts, when `arrived` has arrived, the writer took `pongs` pongs, the
  // first `taken` messages reached the downstream task and the client's socket took `room` bytes.
  function ClientGets(aes: BlockCipher, clientInit: seq<byte>, relayInit: seq<byte>,
                    arrived: seq<byte>, pongs: nat, taken: nat, room: nat): seq<byte>
    requires |clientInit| == |relayInit| == HANDSHAKE_LEN
  {
    var tg, clt := DownKs(aes, relayInit), DownKs(aes, clientInit);
    var payloads := Front(Session(arrived, pongs).0, taken);
    Crypt(clt, 0, Front(Flatten(Recrypted(tg, 0, clt, 0, payloads)), room))
  }

  // Whatever part of a legal session arrives and wherever it is torn down, the client
  // decrypts a prefix of what Telegram encrypted.
  lemma DownstreamPrefix(aes: BlockCipher, clientInit: seq<byte>, relayInit: seq<byte>, plain: seq<byte>,
                         ms: seq<Sending>, controls: seq<Control>, reason: seq<byte>, after: seq<byte>,
                         arrived: seq<byte>, pongs: nat, taken: nat, room: nat)
    requires |clientInit| == |relayInit| == HANDSHAKE_LEN
    requires (forall m | m in ms :: LegalSending(m)) && LegalControls(controls) && |reason| <= 125
    requires Flatten(Payloads(ms)) == Crypt(DownKs(aes, relayInit), 0, plain)
    requires arrived <= Stream(ms, controls, reason, after)
    ensures ClientGets(aes, clientInit, relayInit, arrived, pongs, taken, room) <= plain
  {
    hide *;
    var enough := pongs + |SentPings(ms)| + |Pings(controls)|;
    SessionDelivers(ms, controls, reason, after, enough);
    StreamIs(ms, controls, reason, after);
    SessionPrefix(arrived, Stream(ms, controls, reason, after), pongs, enough);
    PrefixDecrypts(aes, clientInit, relayInit, plain, Payloads(ms), Session(arrived, pongs).0, taken, room);
    ClientGetsIs(aes, clientInit, relayInit, arrived, pongs, taken, room);
  }

  lemma StreamIs(ms: seq<Sending>, controls: seq<Control>, reason: seq<byte>, after: seq<byte>)
    ensures Stream(ms, controls, reason, after) ==
            EncodeSendings(ms) + (EncodeAll(ControlFrames(controls)) + (EncodeFrame(Frame(true, 8, reason)) + after))
  {
  }

  lemma ClientGetsIs(aes: BlockCipher, clientInit: seq<byte>, relayInit: seq<byte>,
                   arrived: seq<byte>, pongs: nat, taken: nat, room: nat)
    requires |clientInit| == |relayInit| == HANDSHAKE_LEN
    ensures var tg, clt := DownKs(aes, relayInit), DownKs(aes, clientInit);
            var payloads := Front(Session(arrived, pongs).0, taken);
            ClientGets(aes, clientInit, relayInit, arrived, pongs, taken, room)
            == Crypt(clt, 0, Front(Flatten(Recrypted(tg, 0, clt, 0, payloads)), room))
  {
  }

  // The first payloads, whichever of them reached the client, decrypt to a prefix.
  lemma PrefixDecrypts(aes: BlockCipher, clientInit: seq<byte>, relayInit: seq<byte>, plain: seq<byte>,
                       all: seq<seq<byte>>, got: seq<seq<byte>>, taken: nat, room: nat)
    requires |clientInit| == |relayInit| == HANDSHAKE_LEN
    requires Flatten(all) == Crypt(DownKs(aes, relayInit), 0, plain) && got <= all
    ensures var tg, clt := DownKs(aes, relayInit), DownKs(aes, clientInit);
            Crypt(clt, 0, Front(Flatten(Recrypted(tg, 0, clt, 0, Front(got, taken))), room)) <= plain
  {
    var payloads := Front(got, taken);
    var k := |payloads|;
    assert payloads == all[..k];
    FlattenPrefix(all, k);
    var tg := DownKs(aes, relayInit);
    var n := |Flatten(payloads)|;
    CryptFront(tg, 0, plain, Flatten(payloads));
    CryptTwice(tg, 0, Flatten(payloads));
    var start := plain[..n];
    assert Flatten(payloads) == Crypt(tg, 0, start);
    hide Flatten, Recrypted, Crypt;
    DownstreamIdentity(aes, clientInit, relayInit, start, payloads, room);
    assert Front(start, room) <= start <= plain;
  }

  // When all of it arrives, is taken and written, the client decrypts all of it.
  lemma DownstreamDelivers(aes: BlockCipher, clientInit: seq<byte>, relayInit: seq<byte>, plain: seq<byte>,
                           ms: seq<Sending>, controls: seq<Control>, reason: seq<byte>, after: seq<byte>,
                           pongs: nat, taken: nat, room: nat)
    requires |clientInit| == |relayInit| == HANDSHAKE_LEN
    requires (forall m | m in ms :: LegalSending(m)) && LegalControls(controls) && |reason| <= 125
    requires Flatten(Payloads(ms)) == Crypt(DownKs(aes, relayInit), 0, plain)
    requires |SentPings(ms)| + |Pings(controls)| <= pongs && |ms| <= taken && |plain| <= room
    ensures ClientGets(aes, clientInit, relayInit, Stream(ms, controls, reason, after), pongs, taken, room) == plain
  {
    PayloadEach(ms);
    hide *;
    SessionDelivers(ms, controls, reason, after, pongs);
    StreamIs(ms, controls, reason, after);
    FrontOfAll(Payloads(ms), taken);
    ClientGetsIs(aes, clientInit, relayInit, Stream(ms, controls, reason, after), pongs, taken, room);
    DownstreamIdentity(aes, clientInit, relayInit, plain, Payloads(ms), room);
    FrontOfAll(plain, room);
  }

  lemma {:induction false} PayloadEach(ms: seq<Sending>)
    ensures |Payloads(ms)| == |ms|
  {
    hide Data;
    if ms != [] {
      PayloadEach(ms[1..]);
    }
  }
}
