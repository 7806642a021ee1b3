/**
 The two relay directions end to end: what the peers decrypt is what the other
 side wrote, however the bytes were cut into reads.
 */
module RelayStream {
  import opened Bytes
  import opened Ctr
  import opened Mtproto
  import opened Seqs
  import opened Splitter

  // Each input decrypted with `a` and re-encrypted with `b`, both streams running on.
  function Recrypted(a: Keystream, pa: nat, b: Keystream, pb: nat, inputs: seq<seq<byte>>)
    : (chunks: seq<seq<byte>>)
    ensures |chunks| == |inputs|
  {
    if inputs == [] then []
    else
      var done := inputs[..|inputs| - 1];
      var n := |Flatten(done)|;
      Recrypted(a, pa, b, pb, done) + [Crypt(b, pb + n, Crypt(a, pa + n, inputs[|inputs| - 1]))]
  }

  lemma {:induction false} RecryptedIsOneStream(a: Keystream, pa: nat, b: Keystream, pb: nat, inputs: seq<seq<byte>>)
    ensures Flatten(Recrypted(a, pa, b, pb, inputs)) == Crypt(b, pb, Crypt(a, pa, Flatten(inputs)))
  {
    if inputs == [] {
    } else {
      var done, last := inputs[..|inputs| - 1], inputs[|inputs| - 1];
      var n := |Flatten(done)|;
      RecryptedIsOneStream(a, pa, b, pb, done);
      FlattenLast(inputs);
      FlattenConcat(Recrypted(a, pa, b, pb, done), [Crypt(b, pb + n, Crypt(a, pa + n, last))]);
      FlattenOne(Crypt(b, pb + n, Crypt(a, pa + n, last)));
      CryptConcat(a, pa, Flatten(done), last);
      CryptConcat(b, pb, Crypt(a, pa, Flatten(done)), Crypt(a, pa + n, last));
    }
  }

  function FlushParts(st: SplitState): seq<seq<byte>>
  {
    if st.cipher == [] then [] else [st.cipher]
  }

  // Everything the upstream task hands to the WebSocket writer: the parts of every
  // chunk, then the flushed tail; without a splitter, the chunks themselves.
  function Sent(ks: Keystream, splitProto: int, chunks: seq<seq<byte>>): seq<seq<byte>>
  {
    if splitProto < 0 then chunks
    else
      var (st, parts) := Run(ks, splitProto, HANDSHAKE_LEN, chunks);
      parts + FlushParts(st)
  }

  lemma SentIsTheChunks(ks: Keystream, splitProto: int, chunks: seq<seq<byte>>)
    ensures Flatten(Sent(ks, splitProto, chunks)) == Flatten(chunks)
  {
    if splitProto >= 0 {
      RunOutcome(ks, splitProto, HANDSHAKE_LEN, chunks);
      var (st, parts) := Run(ks, splitProto, HANDSHAKE_LEN, chunks);
      FlattenConcat(parts, FlushParts(st));
      FlattenOne(st.cipher);
    }
  }

  lemma RecryptedGrows(a: Keystream, pa: nat, b: Keystream, pb: nat, inputs: seq<seq<byte>>, i: nat)
    requires i < |inputs|
    ensures var n := |Flatten(inputs[..i])|;
            && |Flatten(inputs[..i + 1])| == n + |inputs[i]|
            && Recrypted(a, pa, b, pb, inputs[..i + 1])
               == Recrypted(a, pa, b, pb, inputs[..i]) + [Crypt(b, pb + n, Crypt(a, pa + n, inputs[i]))]
  {
    hide Crypt;
    assert inputs[..i + 1][..i] == inputs[..i] && inputs[..i + 1][i] == inputs[i];
    FlattenLast(inputs[..i + 1]);
  }

  lemma RunGrows(ks: Keystream, proto: nat, start: nat, chunks: seq<seq<byte>>, chunk: seq<byte>)
    ensures var (st, parts) := Run(ks, proto, start, chunks);
            var (next, more) := SplitStep(ks, proto, st, chunk);
            Run(ks, proto, start, chunks + [chunk]) == (next, parts + more)
  {
    hide SplitStep;
    assert (chunks + [chunk])[..|chunks|] == chunks;
  }

  // What upstream has handed over after some reads, before any flush.
  function Fed(ks: Keystream, splitProto: int, chunks: seq<seq<byte>>): seq<seq<byte>>
  {
    if splitProto < 0 then chunks else Run(ks, splitProto, HANDSHAKE_LEN, chunks).1
  }

  // The splitter after some reads, if there is one.
  function Left(ks: Keystream, splitProto: int, chunks: seq<seq<byte>>): SplitState
  {
    if splitProto < 0 then SplitState([], [], HANDSHAKE_LEN, false)
    else Run(ks, splitProto, HANDSHAKE_LEN, chunks).0
  }

  lemma SentIsFedAndTail(ks: Keystream, splitProto: int, chunks: seq<seq<byte>>)
    ensures Sent(ks, splitProto, chunks)
            == Fed(ks, splitProto, chunks) + (if splitProto < 0 then [] else FlushParts(Left(ks, splitProto, chunks)))
  {
    hide Run, FlushParts;
  }

  // The parts of one more read, in terms of the whole run.
  lemma FedGrows(a: Keystream, b: Keystream, splitProto: int, inputs: seq<seq<byte>>, i: nat)
    requires i < |inputs|
    ensures var pos := HANDSHAKE_LEN + |Flatten(inputs[..i])|;
            var chunk := Crypt(b, pos, Crypt(a, pos, inputs[i]));
            var before := Recrypted(a, HANDSHAKE_LEN, b, HANDSHAKE_LEN, inputs[..i]);
            var after := Recrypted(a, HANDSHAKE_LEN, b, HANDSHAKE_LEN, inputs[..i + 1]);
            if splitProto < 0 then Fed(b, splitProto, after) == Fed(b, splitProto, before) + [chunk]
            else
              var (next, more) := SplitStep(b, splitProto, Left(b, splitProto, before), chunk);
              && Left(b, splitProto, after) == next
              && Fed(b, splitProto, after) == Fed(b, splitProto, before) + more
  {
    hide Recrypted, Run, SplitStep, Crypt, Flatten;
    var n := |Flatten(inputs[..i])|;
    RecryptedGrows(a, HANDSHAKE_LEN, b, HANDSHAKE_LEN, inputs, i);
    if splitProto >= 0 {
      RunGrows(b, splitProto, HANDSHAKE_LEN, Recrypted(a, HANDSHAKE_LEN, b, HANDSHAKE_LEN, inputs[..i]),
               Crypt(b, HANDSHAKE_LEN + n, Crypt(a, HANDSHAKE_LEN + n, inputs[i])));
    }
  }

  // One read of the upstream task: the parts it sends.
  method UpRead(crypto: CryptoUp, splitter: MsgSplitter?, input: seq<byte>) returns (parts: seq<seq<byte>>)
    requires crypto.cltDec != crypto.tgEnc
    requires splitter != null ==>
               splitter.dec != crypto.cltDec && splitter.dec != crypto.tgEnc && splitter.Valid()
    modifies crypto.cltDec, crypto.tgEnc, splitter, if splitter == null then {} else {splitter.dec}
    ensures crypto.cltDec.pos == old(crypto.cltDec.pos) + |input|
    ensures crypto.tgEnc.pos == old(crypto.tgEnc.pos) + |input|
    ensures var chunk := Crypt(crypto.tgEnc.Ks(), old(crypto.tgEnc.pos),
                               Crypt(crypto.cltDec.Ks(), old(crypto.cltDec.pos), input));
            if splitter == null then parts == [chunk]
            else
              && splitter.Valid()
              && (splitter.State(), parts) == SplitStep(splitter.dec.Ks(), splitter.proto, old(splitter.State()), chunk)
  {
    hide Crypt, SplitStep;
    var chunk := crypto.ClientToTelegram(input);
    if splitter != null {
      parts := splitter.Split(chunk);
    } else {
      parts := [chunk];
    }
  }

  lemma {:induction false} RecryptedPrefix(a: Keystream, pa: nat, b: Keystream, pb: nat, inputs: seq<seq<byte>>, i: nat)
    requires i <= |inputs|
    ensures Recrypted(a, pa, b, pb, inputs[..i]) == Recrypted(a, pa, b, pb, inputs)[..i]
  {
    hide Crypt;
    var n := |inputs|;
    if i == n {
      assert inputs[..i] == inputs;
    } else {
      assert inputs[..n - 1][..i] == inputs[..i];
      RecryptedPrefix(a, pa, b, pb, inputs[..n - 1], i);
    }
  }

  lemma {:induction false} FedPrefix(ks: Keystream, splitProto: int, chunks: seq<seq<byte>>, i: nat)
    requires i <= |chunks|
    ensures Fed(ks, splitProto, chunks[..i]) <= Fed(ks, splitProto, chunks)
  {
    hide SplitStep;
    var n := |chunks|;
    if i == n {
      assert chunks[..i] == chunks;
    } else {
      assert chunks[..n - 1][..i] == chunks[..i];
      FedPrefix(ks, splitProto, chunks[..n - 1], i);
    }
  }

  // What was handed over after `i` reads starts everything that would be.
  lemma FedStartsSent(a: Keystream, b: Keystream, splitProto: int, inputs: seq<seq<byte>>, i: nat)
    requires i <= |inputs|
    ensures Fed(b, splitProto, Recrypted(a, HANDSHAKE_LEN, b, HANDSHAKE_LEN, inputs[..i]))
            <= Sent(b, splitProto, Recrypted(a, HANDSHAKE_LEN, b, HANDSHAKE_LEN, inputs))
  {
    RecryptedPrefix(a, HANDSHAKE_LEN, b, HANDSHAKE_LEN, inputs, i);
    var chunks := Recrypted(a, HANDSHAKE_LEN, b, HANDSHAKE_LEN, inputs);
    FedPrefix(b, splitProto, chunks, i);
    hide Run, Recrypted;
  }

  lemma Refusal(a: Keystream, b: Keystream, splitProto: int, inputs: seq<seq<byte>>, i: nat, room: nat)
    requires i <= |inputs|
    ensures var fed := Fed(b, splitProto, Recrypted(a, HANDSHAKE_LEN, b, HANDSHAKE_LEN, inputs[..i]));
            var all := Sent(b, splitProto, Recrypted(a, HANDSHAKE_LEN, b, HANDSHAKE_LEN, inputs));
            if room < |fed| then Front(all, room) == Front(fed, room) else Front(fed, room) == fed
  {
    var fed := Fed(b, splitProto, Recrypted(a, HANDSHAKE_LEN, b, HANDSHAKE_LEN, inputs[..i]));
    var all := Sent(b, splitProto, Recrypted(a, HANDSHAKE_LEN, b, HANDSHAKE_LEN, inputs));
    FedStartsSent(a, b, splitProto, inputs, i);
    hide *;
    if room < |fed| {
      FrontOfPrefix(fed, all, room);
    } else {
      FrontOfAll(fed, room);
    }
  }

  // Sends to a driver that takes `room` parts in all and then hangs up.
  method Send(sent: seq<seq<byte>>, parts: seq<seq<byte>>, room: nat) returns (now: seq<seq<byte>>, refused: bool)
    requires |sent| <= room
    ensures now == Front(sent + parts, room)
    ensures refused <==> room < |sent + parts|
  {
    now := sent;
    for i := 0 to |parts|
      invariant now == sent + parts[..i] && |now| <= room
    {
      if |now| == room {
        return now, true;
      }
      now := now + [parts[i]];
    }
    refused := false;
  }

  /**
   The upstream task: decrypt, re-encrypt, split, send; flush at end of input. The driver
   takes `room` parts before it hangs up, and the first send after that ends it.
   */
  method UpTask(crypto: CryptoUp, splitter: MsgSplitter?, inputs: seq<seq<byte>>, room: nat)
    returns (sent: seq<seq<byte>>)
    requires crypto.cltDec != crypto.tgEnc
    requires crypto.cltDec.pos == crypto.tgEnc.pos == HANDSHAKE_LEN
    requires splitter != null ==>
               && splitter.dec != crypto.cltDec && splitter.dec != crypto.tgEnc
               && splitter.Valid() && splitter.dec.Ks() == crypto.tgEnc.Ks()
               && splitter.State() == SplitState([], [], HANDSHAKE_LEN, false)
    modifies crypto.cltDec, crypto.tgEnc, splitter, if splitter == null then {} else {splitter.dec}
    ensures var chunks := Recrypted(crypto.cltDec.Ks(), HANDSHAKE_LEN, crypto.tgEnc.Ks(), HANDSHAKE_LEN, inputs);
            sent == Front(Sent(crypto.tgEnc.Ks(), if splitter == null then -1 else splitter.proto, chunks), room)
  {
    ghost var a, b := crypto.cltDec.Ks(), crypto.tgEnc.Ks();
    ghost var proto: int := if splitter == null then -1 else splitter.proto;
    sent := [];
    assert inputs[..0] == [];
    hide Crypt, SplitStep, Front, FlushParts;
    for i := 0 to |inputs|
      invariant crypto.cltDec.pos == crypto.tgEnc.pos == HANDSHAKE_LEN + |Flatten(inputs[..i])|
      invariant var chunks := Recrypted(a, HANDSHAKE_LEN, b, HANDSHAKE_LEN, inputs[..i]);
        && sent == Fed(b, proto, chunks) && |sent| <= room
        && (splitter != null ==> splitter.Valid() && splitter.State() == Left(b, proto, chunks))
    {
      hide Recrypted, Run, Flatten, Fed, Left, Sent;
      RecryptedGrows(a, HANDSHAKE_LEN, b, HANDSHAKE_LEN, inputs, i);
      FedGrows(a, b, proto, inputs, i);
      var parts := UpRead(crypto, splitter, inputs[i]);
      Refusal(a, b, proto, inputs, i + 1, room);
      var refused;
      sent, refused := Send(sent, parts, room);
      if refused {
        return;
      }
    }
    assert inputs[..|inputs|] == inputs;
    SentIsFedAndTail(b, proto, Recrypted(a, HANDSHAKE_LEN, b, HANDSHAKE_LEN, inputs));
    hide Recrypted, Run, Flatten, Fed, Left, Sent;
    FrontOfAll(sent, room);
    if splitter != null {
      var tail := splitter.Flush();
      var refused;
      sent, refused := Send(sent, tail, room);
    }
  }

  /**
   The downstream task: every payload re-encrypted and written to the client, whose socket
   takes `room` bytes in all; the write that does not fit fails and ends it.
   */
  method DownTask(crypto: CryptoDown, payloads: seq<seq<byte>>, room: nat) returns (written: seq<byte>)
    requires crypto.tgDec != crypto.cltEnc
    requires crypto.tgDec.pos == crypto.cltEnc.pos == 0
    modifies crypto.tgDec, crypto.cltEnc
    ensures written == Front(Flatten(Recrypted(crypto.tgDec.Ks(), 0, crypto.cltEnc.Ks(), 0, payloads)), room)
  {
    ghost var a, b := crypto.tgDec.Ks(), crypto.cltEnc.Ks();
    written := [];
    assert payloads[..0] == [];
    for i := 0 to |payloads|
      invariant crypto.tgDec.pos == crypto.cltEnc.pos == |Flatten(payloads[..i])|
      invariant written == Flatten(Recrypted(a, 0, b, 0, payloads[..i])) && |written| <= room
    {
      RecryptedFlows(a, b, payloads, i);
      var out := crypto.TelegramToClient(payloads[i]);
      hide *;
      var all := written + out;
      written := Front(all, room);
      if room < |all| {
        RecryptedStarts(a, b, payloads, i + 1);
        FrontOfPrefix(all, Flatten(Recrypted(a, 0, b, 0, payloads)), room);
        return;
      }
      FrontOfAll(all, room);
    }
    assert payloads[..|payloads|] == payloads;
  }

  // One more payload, in terms of the bytes for the client.
  lemma RecryptedFlows(a: Keystream, b: Keystream, payloads: seq<seq<byte>>, i: nat)
    requires i < |payloads|
    ensures var n := |Flatten(payloads[..i])|;
            && |Flatten(payloads[..i + 1])| == n + |payloads[i]|
            && Flatten(Recrypted(a, 0, b, 0, payloads[..i + 1]))
               == Flatten(Recrypted(a, 0, b, 0, payloads[..i])) + Crypt(b, n, Crypt(a, n, payloads[i]))
  {
    hide *;
    var n := |Flatten(payloads[..i])|;
    var out := Crypt(b, n, Crypt(a, n, payloads[i]));
    RecryptedGrows(a, 0, b, 0, payloads, i);
    FlattenConcat(Recrypted(a, 0, b, 0, payloads[..i]), [out]);
    FlattenOne(out);
  }

  lemma RecryptedStarts(a: Keystream, b: Keystream, payloads: seq<seq<byte>>, i: nat)
    requires i <= |payloads|
    ensures Flatten(Recrypted(a, 0, b, 0, payloads[..i])) <= Flatten(Recrypted(a, 0, b, 0, payloads))
  {
    hide *;
    RecryptedPrefix(a, 0, b, 0, payloads, i);
    FlattenPrefix(Recrypted(a, 0, b, 0, payloads), i);
  }

  lemma FlattenPrefix(all: seq<seq<byte>>, i: nat)
    requires i <= |all|
    ensures Flatten(all[..i]) <= Flatten(all)
  {
    hide *;
    assert all == all[..i] + all[i..];
    FlattenConcat(all[..i], all[i..]);
  }

  // ---- The identities -------------------------------------------------------------------

  // Decrypting the start of a stream gives the start of its plaintext.
  lemma CryptFront(ks: Keystream, pos: nat, plain: seq<byte>, data: seq<byte>)
    requires data <= Crypt(ks, pos, plain)
    ensures Crypt(ks, pos, data) == plain[..|data|]
  {
    CryptSlice(ks, pos, plain, 0, |data|);
    CryptTwice(ks, pos, plain[..|data|]);
    assert data == Crypt(ks, pos, plain)[0..|data|] && plain[0..|data|] == plain[..|data|];
  }

  // Upstream: Telegram, decrypting with the stream the relay init announces, inputs the
  // client's plaintext, for every splitter protocol (or none) and every cut into reads; and
  // however few parts the driver took, the start of that plaintext.
  lemma UpstreamIdentity(aes: BlockCipher, clientInit: seq<byte>, relayInit: seq<byte>, splitProto: int,
                         plain: seq<byte>, inputs: seq<seq<byte>>, room: nat)
    requires |clientInit| == |relayInit| == HANDSHAKE_LEN
    requires Flatten(inputs) == Crypt(UpKs(aes, clientInit), HANDSHAKE_LEN, plain)
    ensures var clt, tg := UpKs(aes, clientInit), UpKs(aes, relayInit);
            var sent := Sent(tg, splitProto, Recrypted(clt, HANDSHAKE_LEN, tg, HANDSHAKE_LEN, inputs));
            && Crypt(tg, HANDSHAKE_LEN, Flatten(sent)) == plain
            && Crypt(tg, HANDSHAKE_LEN, Flatten(Front(sent, room))) <= plain
  {
    var clt, tg := UpKs(aes, clientInit), UpKs(aes, relayInit);
    hide Sent, Recrypted, Crypt, Flatten;
    var sent := Sent(tg, splitProto, Recrypted(clt, HANDSHAKE_LEN, tg, HANDSHAKE_LEN, inputs));
    RecryptedIsOneStream(clt, HANDSHAKE_LEN, tg, HANDSHAKE_LEN, inputs);
    SentIsTheChunks(tg, splitProto, Recrypted(clt, HANDSHAKE_LEN, tg, HANDSHAKE_LEN, inputs));
    CryptTwice(clt, HANDSHAKE_LEN, plain);
    CryptTwice(tg, HANDSHAKE_LEN, plain);
    FlattenPrefix(sent, |Front(sent, room)|);
    assert Front(sent, room) == sent[..|Front(sent, room)|];
    CryptFront(tg, HANDSHAKE_LEN, plain, Flatten(Front(sent, room)));
  }

  // Downstream: Telegram encrypts with the reversed key and iv from position zero, and
  // the client decrypts likewise, as far as its socket took the bytes.
  lemma DownstreamIdentity(aes: BlockCipher, clientInit: seq<byte>, relayInit: seq<byte>,
                           plain: seq<byte>, payloads: seq<seq<byte>>, room: nat)
    requires |clientInit| == |relayInit| == HANDSHAKE_LEN
    requires Flatten(payloads) == Crypt(DownKs(aes, relayInit), 0, plain)
    ensures var tg, clt := DownKs(aes, relayInit), DownKs(aes, clientInit);
            var out := Flatten(Recrypted(tg, 0, clt, 0, payloads));
            && Crypt(clt, 0, out) == plain
            && Crypt(clt, 0, Front(out, room)) == Front(plain, room)
  {
    var tg, clt := DownKs(aes, relayInit), DownKs(aes, clientInit);
    RecryptedIsOneStream(tg, 0, clt, 0, payloads);
    CryptTwice(tg, 0, plain);
    CryptTwice(clt, 0, plain);
    CryptFront(clt, 0, plain, Front(Flatten(Recrypted(tg, 0, clt, 0, payloads)), room));
  }

  // Consecutive packets encrypted by one running stream.
  function EncryptEach(ks: Keystream, pos: nat, packets: seq<seq<byte>>): seq<seq<byte>>
    decreases |packets|
  {
    if packets == [] then []
    else [Crypt(ks, pos, packets[0])] + EncryptEach(ks, pos + |packets[0]|, packets[1..])
  }

  lemma {:induction false} SlicesOfCipher(ks: Keystream, pos: nat, plain: seq<byte>, lens: seq<nat>)
    requires Sum(lens) <= |plain|
    ensures Slices(Crypt(ks, pos, plain), lens) == EncryptEach(ks, pos, Slices(plain, lens))
    decreases |lens|
  {
    if lens != [] {
      var n := lens[0];
      CryptSlice(ks, pos, plain, 0, n);
      CryptSlice(ks, pos, plain, n, |plain|);
      assert plain[0..n] == plain[..n] && plain[n..|plain|] == plain[n..];
      SlicesOfCipher(ks, pos + n, plain[n..], lens[1..]);
      assert Crypt(ks, pos, plain)[n..] == Crypt(ks, pos + n, plain[n..]);
      assert Slices(plain, lens)[1..] == Slices(plain[n..], lens[1..]);
    }
  }

  // One WebSocket message per packet: when the client's plaintext is a sequence of
  // transport packets and an incomplete one, the splitter sends exactly the encrypted
  // packets, then flushes the incomplete tail, for every cut into reads.
  lemma OneMessagePerPacket(aes: BlockCipher, clientInit: seq<byte>, relayInit: seq<byte>, proto: nat,
                            packets: seq<seq<byte>>, tail: seq<byte>, inputs: seq<seq<byte>>)
    requires |clientInit| == |relayInit| == HANDSHAKE_LEN
    requires forall p | p in packets :: IsPacket(proto, p)
    requires NextPacketLen(proto, tail) == -1
    requires Flatten(inputs) == Crypt(UpKs(aes, clientInit), HANDSHAKE_LEN, Flatten(packets) + tail)
    ensures var clt, tg := UpKs(aes, clientInit), UpKs(aes, relayInit);
            var chunks := Recrypted(clt, HANDSHAKE_LEN, tg, HANDSHAKE_LEN, inputs);
            var (st, parts) := Run(tg, proto, HANDSHAKE_LEN, chunks);
            && parts == EncryptEach(tg, HANDSHAKE_LEN, packets)
            && st.cipher == Crypt(tg, HANDSHAKE_LEN + |Flatten(packets)|, tail)
            && st.plain == tail && !st.disabled
  {
    hide NextPacketLen, Parse, Slices, Crypt, IsPacket, EncryptEach, Run, Recrypted, Sum;
    var clt, tg := UpKs(aes, clientInit), UpKs(aes, relayInit);
    var plain := Flatten(packets) + tail;
    var chunks := Recrypted(clt, HANDSHAKE_LEN, tg, HANDSHAKE_LEN, inputs);
    RecryptedIsOneStream(clt, HANDSHAKE_LEN, tg, HANDSHAKE_LEN, inputs);
    CryptTwice(clt, HANDSHAKE_LEN, plain);
    var total := Crypt(tg, HANDSHAKE_LEN, plain);
    assert Flatten(chunks) == total;
    CryptTwice(tg, HANDSHAKE_LEN, plain);
    RunOutcome(tg, proto, HANDSHAKE_LEN, chunks);
    ParseOfPackets(proto, packets, tail);
    var c := Parse(proto, plain);
    SlicesOfCipher(tg, HANDSHAKE_LEN, plain, c.lens);
    var (st, parts) := Run(tg, proto, HANDSHAKE_LEN, chunks);
    assert parts[..|c.lens|] == parts;
    assert plain[c.used..] == tail;
    CryptConcat(tg, HANDSHAKE_LEN, Flatten(packets), tail);
    assert total[c.used..] == Crypt(tg, HANDSHAKE_LEN + c.used, tail);
  }
}
