# wrtg, modelled and proved

wrtg is a transparent Telegram proxy. A client's obfuscated2 stream is decrypted, re-encrypted for
Telegram, cut into MTProto packets and sent as WebSocket frames, one packet a frame. Around that
pipeline sit a pool of connections opened in advance, tables that decide what is worth trying next,
parsers that look at the first bytes of a stream, and a file of learned addresses. This project models
those parts in Dafny and proves what they promise.

## How the project is laid out

- `Bytes`, `Seqs`, `Modular`, `Text`, `Utf8`, `Wrappers`: bytes and exclusive or, sequences, remainders,
  strings, lossy decoding (section 3.9 of the Unicode Standard), options.
- `Ctr`, `Mtproto`: counter mode (section 6.5 of NIST SP 800-38A), handshakes, the relay init, the four cipher streams.
- `Splitter`, `RelayStream`: the incremental packet splitter of the Abridged, Intermediate and Padded
  intermediate transports, and the two relay directions end to end.
- `WsFrame`, `WsMessages`, `WsReassembly`: frames (section 5.2 and 5.3 of RFC 6455), the receive loop, and
  fragmentation with control frames in between (sections 5.4 and 5.5 of RFC 6455).
- `Bridge`, `BridgeProgress`: the upstream half of a session as a state machine over reader, channel, batching
  writer and pings: that it is safe, and that it gets on.
- `Downstream`: the other half, from the server's bytes to what the client decrypts.
- `ConnPool`, `ConnPoolRuns`: the pool's lock sections, and every interleaving of them with connects and time.
- `Cooldown429`, `TtlMap`: backoff and expiring keys.
- `CfBalancer`, `DomainPool`, `CfRuns`: the choice among fallback domains, the lists it may be given, and both
  over whole runs of configuration, refreshes and sessions.
- `IdleGuard`: the guard that ends a stalled session.
- `Handshake`, `ContentLength`, `TlsSni`, `HttpHost`, `HostTrim`: what the first bytes decide, the handshake
  search, the prefixed stream and the rest of an HTTP request, the server name, the Host header.
- `DcLearn`, `DcLearnRuns`: the learned address file, and concurrent learning between two loads.

Objects the program updates in place are classes. Each method is proved against a function of its inputs
and the old state, and the promises are lemmas about those functions. Where tasks run concurrently, each
lock section, single write or clock reading is one step of a state machine, and the promises hold after
every sequence of steps.

AES is an arbitrary function of key and counter; random bytes, clock readings, read sizes, connect results
and the arrival of bytes are parameters. Integers that the program keeps in machine words are unbounded
here except where the width matters: the i16 DC index, the strike counter, the round-robin counter, the
millisecond counter of the idle guard, and the lengths of packets and frames.

## Where a promise holds only under a condition

The table below names, for each of these, the lemma with the exact condition and, where the code misses the
promise, the one with a concrete case.

- A file of learned addresses restores the map if and only if every learned address is IPv4 text, no append
  failed and every line is written on its own. `persist` (crates/wrtg/src/dc_learn.rs:140-158) writes the text and the line
  break of a line as two writes, so of two appends that overlap the later one is lost to the next start.
- The comment in crates/wrtg/src/bridge.rs:109-111 says the idle guard reads the latest touch. It reads the
  last one stored, which is the latest throughout a run if and only if the two directions store in the order
  they read the clock. It counts whole milliseconds, so a touch can be up to one millisecond younger than the
  limit; and where the counter has 32 bits (crates/wrtg/src/bridge.rs:113-116) a touch counts as older by
  every wrap, so that the first touch after 49.7 days is resolved at once.
- The choice among fallback domains relies on its lists: a selection repeats nothing, and a domain that
  connected is preferred while its pool lists it, because every list is distinct and in lower case. All of
  them are, as `normalize_domain_pool` (crates/wrtg/src/cf_proxy_domains.rs:192-204) and the built-in names see
  to it; the bare functions say what they would do with other lists.
- The Host reader sees a rewritten host only behind CRLF and within 4096 bytes; the rewriter also accepts a
  bare line feed and any position (crates/wrtg/src/media.rs:106-131, crates/wrtg/src/tls_sni.rs:158-181).
- That reader takes an offset in decoded, lower-cased text for an offset in the bytes. The two agree if and
  only if the text in front of the header is as long as its bytes, as it is for every request whose headers
  are ASCII; otherwise it reads another part of the line, or past the end of the bytes.
- A pooled connection is at most the ttl old when it is popped. That it still is when its caller gets it holds
  if and only if nothing in the slot had expired, because `acquire` first waits for expired ones to be closed
  (crates/wrtg/src/conn_pool.rs:158-181); a pool promises it in every run if and only if its slots hold at most
  one connection or its ttl is zero.
- `TtlMap::clear` answers presence, not activity, and so depends on whether a probe pruned the entry first.
- The ClientHello guard admits a body of exactly 34 bytes and then reads one byte past it
  (crates/wrtg/src/tls_sni.rs:78-82); every well-formed hello is longer.
- A frame whose length is not in its shortest form is accepted, so reading and re-encoding is the identity
  exactly for the shortest form.

## Model

| member | source | states |
|---|---|---|
| Bytes.XorCancels | crates/wrtg/src/ws.rs:620-625 | Exclusive or with the same key byte twice gives the byte back; xor is defined bit by bit, so this is proved, not assumed |
| Bytes.BeNatLeads | crates/wrtg/src/ws.rs:491-498 | In a big-endian number the first byte counts 256^(n-1) and the rest is such a number |
| Bytes.LeNatLeads | crates/wrtg/src/splitter.rs:132-134 | In a little-endian number it is the last byte |
| Ctr.CryptTwice | crates/wrtg/src/mtproto.rs:337-340 | A counter-mode stream run twice over the same positions is the identity, for any block function |
| Ctr.CryptConcat | crates/wrtg/src/mtproto.rs:459-464 | Running a stream over a concatenation is running it over the pieces, one after the other at the running position |
| Ctr.CountsBlocks | crates/wrtg/src/mtproto.rs:337-340 | The first block is numbered by the iv read as a big-endian number, every further block by the next number modulo 2^128 |
| Ctr.CtrStream.ApplyKeystream | crates/wrtg/src/mtproto.rs:459-464 | The in-place stream: the buffer becomes its exclusive or with the keystream from the old position, and the position moves by its length |
| Mtproto.GenerateRelayInit | crates/wrtg/src/mtproto.rs:396-436 | Uses the first acceptable random block and no other, and returns that block with its last eight bytes replaced by the encrypted tag, DC index and own last two bytes |
| Mtproto.OverwriteTail | crates/wrtg/src/mtproto.rs:427-433 | The tail computed by xor-ing out the keystream from the encrypted block is exactly the encryption of the plain tail |
| Mtproto.RelayInitKeepsKeys | crates/wrtg/src/mtproto.rs:396-436 | The tail overwrite leaves key, iv, the reversed key and iv, and the reserved-prefix filter as the random block had them |
| Mtproto.RelayInitRoundTrip | crates/wrtg/src/mtproto.rs:342-394 | For every protocol, all 65536 DC indices and every block, parsing the generated init gives that protocol, DC \|index\| with media = (index < 0) when it is a valid DC, and dc 0 otherwise |
| Mtproto.RelayInitSays | crates/wrtg/src/mtproto.rs:412-436 | A relay init is its random block up to byte 55; behind that it decrypts, under its own key, to the tag, the DC index with its low byte first, and the last two bytes of the block |
| Mtproto.ParsesExactly | crates/wrtg/src/mtproto.rs:342-394 | A handshake parses if and only if it has 64 bytes and its four tag bytes decrypt to 0xef, 0xee or 0xdd four times; protocol, DC, media and the DC flag are told from the decrypted bytes |
| Mtproto.AcceptableExactly | crates/wrtg/src/mtproto.rs:33-53 | A random block is passed over exactly if its start is a plain transport tag, HEAD, POST or GET with a space, a TLS hello or zeros, or its second four bytes are zeros |
| Mtproto.KeysOf | crates/wrtg/src/mtproto.rs:480-506 | The keystreams of sender and answering party, byte by byte of the init |
| Mtproto.Recrypt | crates/wrtg/src/mtproto.rs:459-464 | Output is the input decrypted by one stream and encrypted by the other, both positions advance by its length |
| Mtproto.CryptoCtx.BuildDirect | crates/wrtg/src/mtproto.rs:480-517 | The four streams are distinct; the up-streams have key bytes 8..39 and iv bytes 40..55 of their init and are advanced 64 bytes; the down-streams have key byte i = init byte 55-i and iv byte i = init byte 23-i, from position 0 |
| Mtproto.CryptoUp.ClientToTelegram | crates/wrtg/src/mtproto.rs:528-532 | Upstream bytes are decrypted with the client stream and encrypted with the Telegram stream at their running positions |
| Mtproto.CryptoDown.TelegramToClient | crates/wrtg/src/mtproto.rs:534-538 | Downstream bytes are decrypted with the Telegram stream and encrypted with the client stream at their running positions |
| Mtproto.NewRelayDecryptStream | crates/wrtg/src/mtproto.rs:541-548 | The splitter's own stream has key bytes 8..39 and iv bytes 40..55 of the relay init and is advanced past the 64 handshake bytes |
| Splitter.EncodeIsPacket | crates/wrtg/src/splitter.rs:96-147 | What a client encodes in each of the three transports satisfies the independent packet definition |
| Splitter.HeadIsPacket | crates/wrtg/src/splitter.rs:83-147 | The length functions answer n exactly when the first n bytes are one whole packet: header and declared payload |
| Splitter.HeadIsStable | crates/wrtg/src/splitter.rs:83-147 | Once the length functions answer 0 or n, more bytes never change the answer |
| Splitter.AnswersExactly | crates/wrtg/src/splitter.rs:83-147 | The length functions ask for more exactly when what is there is a proper prefix of some packet, and give up exactly when no packet agrees with it; the largest packet is just large enough for the three zero bytes of a header |
| Splitter.LengthsFit | crates/wrtg/src/splitter.rs:96-147 | Every computed length fits a 32-bit usize and every answer an i32 |
| Splitter.ParseAppend | crates/wrtg/src/splitter.rs:50-65 | Parsing may stop and resume anywhere: the parse of more bytes is the earlier parse followed by the parse of the leftover and the new bytes |
| Splitter.ParsedPiecesArePackets | crates/wrtg/src/splitter.rs:50-65 | Every part cut before disabling is exactly one packet |
| Splitter.ParseOfPackets | crates/wrtg/src/splitter.rs:50-65 | A plaintext made of packets and an incomplete tail is cut into exactly those packets |
| Splitter.StepKeepsWellformed | crates/wrtg/src/splitter.rs:32-72 | Between calls the plain buffer is the decryption of the cipher buffer at the matching position, holds no complete packet and is shorter than the maximum packet |
| Splitter.StepConserves | crates/wrtg/src/splitter.rs:32-72 | Parts of a call followed by what stays buffered are the old buffer followed by the chunk: no byte lost, repeated or moved |
| Splitter.ScanStep | crates/wrtg/src/splitter.rs:49-66 | One turn of the cutting loop extends the parts by the next packet of the same parse, or the parse is complete |
| Splitter.MsgSplitter.Split | crates/wrtg/src/splitter.rs:32-72 | The loop over the two buffers computes the split step of the whole state: new buffers, cipher position, disabling, and parts |
| Splitter.MsgSplitter.Flush | crates/wrtg/src/splitter.rs:74-81 | Hands out the whole cipher buffer as one part, or nothing when it is empty, and clears both buffers |
| Splitter.RunOutcome | crates/wrtg/src/splitter.rs:32-72 | After any run of chunks, parts, buffers and disabling are those that the concatenated ciphertext determines |
| Splitter.ChunkingIndependence | crates/wrtg/src/splitter.rs:32-147 | Two ways of cutting the same ciphertext into reads give the same packets before the disabling point, disable at the same offset or not at all, buffer the same tail and give the same bytes in total |
| RelayStream.UpTask | crates/wrtg/src/bridge.rs:254-284 | The reading task (decrypt, re-encrypt, split, send, flush) over a driver that takes any number of parts and then hangs up: what it sent is the start of the parts of the re-encrypted chunks and the flushed tail, and all of them if the driver took them |
| RelayStream.DownTask | crates/wrtg/src/bridge.rs:287-295 | The downstream task over a client socket that takes any number of bytes and then fails: what was written is the start of the payloads re-encrypted for the client, in order, and all of it if the socket took it |
| RelayStream.UpstreamIdentity | crates/wrtg/src/mtproto.rs:459-548 | For every client init, relay init, splitter protocol and way of cutting the plaintext into reads, a peer stream keyed from relay-init bytes 8..56 and advanced 64 bytes decrypts the sent parts to the client's plaintext, and the parts a driver took before it hung up to a prefix of it |
| RelayStream.DownstreamIdentity | crates/wrtg/src/mtproto.rs:480-538 | What Telegram encrypts with the reversed key and iv (Mtproto.KeysOf) is what the client decrypts, however the payloads are cut; of the first bytes a failing socket took, the client decrypts exactly the same number of bytes of the plaintext |
| RelayStream.OneMessagePerPacket | crates/wrtg/src/bridge.rs:262-283 | When the client writes packets, each message sent is exactly one encrypted packet, and the flush is the incomplete rest |
| Downstream.SessionPrefix | crates/wrtg/src/ws.rs:443-472 | What a session delivers of a part of a stream is a prefix of what it delivers of the whole, wherever the stream breaks off and whenever the writer stops taking pongs |
| Downstream.DownstreamPrefix | crates/wrtg/src/bridge.rs:240-295 | From the server's bytes to the client's plaintext: over any legal session of messages in fragments with pings and pongs in between, whatever part arrives, however many messages reach the task and bytes the socket, the client decrypts a prefix of what Telegram encrypted |
| Downstream.DownstreamDelivers | crates/wrtg/src/bridge.rs:240-295 | And all of it when all of it arrives, is taken and is written |
| WsFrame.LengthRoundTrip | crates/wrtg/src/ws.rs:582-618 | The 7-, 16- and 64-bit length forms decode to the length they encode, using exactly their own bytes |
| WsFrame.FrameRoundTrip | crates/wrtg/src/ws.rs:475-522 | An unmasked frame reads back exactly, whatever follows it, if and only if it is within the cap and, for control frames, final and at most 125 bytes; otherwise with the stated error |
| WsFrame.ReadFrameIsCanonical | crates/wrtg/src/ws.rs:475-522 | A frame that was read re-encodes to the bytes it was read from if and only if its length used the shortest form; longer forms are accepted |
| WsFrame.FramesRoundTrip | crates/wrtg/src/ws.rs:475-522 | Reading repeatedly over the concatenation of any frames gives exactly those frames with nothing left over |
| WsFrame.UnmaskMask | crates/wrtg/src/ws.rs:620-625 | The server side walks the data with a rotating key: that computes the mask, and undoes it |
| WsFrame.MaskByFours | crates/wrtg/src/ws.rs:620-625 | Masking works on four bytes at a time, and four zero bytes become the key |
| WsFrame.ClientFrameOnWire | crates/wrtg/src/ws.rs:566-618 | A client frame byte by byte: final bit and opcode, mask bit and shortest length form, key, and data byte i exclusive-or key byte i mod 4 |
| WsFrame.ServerFrameOnWire | crates/wrtg/src/ws.rs:566-597 | An unmasked frame byte by byte, and that the frame built without a mask is it |
| WsFrame.RefusedHeads | crates/wrtg/src/ws.rs:475-486 | RSV bits are refused first, then a mask bit, exactly when they are set |
| WsFrame.MaskedRoundTrip | crates/wrtg/src/ws.rs:566-625 | A server that unmasks with a rotating key reads back every frame built with masking: opcode, data and length, whatever key and length form |
| WsFrame.PartialIsNotRead | crates/wrtg/src/ws.rs:566-625 | No proper prefix of a written frame is taken for a frame |
| WsMessages.WsReadHalf.ReadFrame | crates/wrtg/src/ws.rs:475-522 | Reading from the stream piece by piece gives the frame, or the error, that parsing the bytes at the position gives, and consumes exactly that frame |
| WsMessages.WsReadHalf.RecvBinary | crates/wrtg/src/ws.rs:443-472 | The receive loop gives the outcome, the answered pings and the consumed bytes of the specification of one call |
| WsMessages.ProgressTurn | crates/wrtg/src/ws.rs:449-471 | Each turn of the receive loop keeps: the whole call equals what is answered so far followed by the call from here with the kept fragments |
| WsReassembly.RecvControls | crates/wrtg/src/ws.rs:449-460 | Any run of pings and pongs is skipped with one answer per ping, same payloads, same order |
| WsReassembly.RecvPieces | crates/wrtg/src/ws.rs:443-472 | Any fragmentation of a message up to the cap, with control frames anywhere between, gives the concatenated payload and one pong per ping in order |
| WsReassembly.OverlongIsRefused | crates/wrtg/src/ws.rs:541-556 | The fragment that takes a message over the cap is refused with MessageTooLarge, whatever control frames precede it |
| WsReassembly.IllegalOrderIsRefused | crates/wrtg/src/ws.rs:524-560 | A continuation with nothing to continue, a new message inside one, or a reserved opcode fails with its own error after any legal unfinished prefix |
| WsReassembly.SessionDelivers | crates/wrtg/src/ws.rs:443-472 | Repeated receiving over a whole legal session returns every message in order, answers every ping in order, and stops at the close frame |
| WsReassembly.OnlyLegalSequences | crates/wrtg/src/ws.rs:443-472 | The converse: whenever a message is returned, the frames consumed are a legal fragment sequence whose concatenated payload it is |
| Bridge.OnReadConserves | crates/wrtg/src/bridge.rs:257-275 | A read adds to the parts and the splitter buffer exactly its re-encrypted bytes |
| Bridge.WireGrows | crates/wrtg/src/ws.rs:417-433 | A frame written whole adds its payload to what the server reads, and nothing else |
| Bridge.WireTears | crates/wrtg/src/ws.rs:417-433 | A frame cut off at any byte adds nothing to what the server reads |
| Bridge.StepKeepsInv | crates/wrtg/src/bridge.rs:201-284 | Every event of reader, channel, batching writer, pings and aborts keeps: delivered, waiting and buffered bytes are the re-encrypted input, in order |
| Bridge.PrefixSafety | crates/wrtg/src/bridge.rs:185-284 | In every interleaving, what Telegram decrypts from the complete frames is a prefix of the client's plaintext, and what is missing is exactly what sits in the batch, the channel, the parts being sent and the splitter buffer |
| Bridge.BoundedQueues | crates/wrtg/src/bridge.rs:185-187 | Channel, batch, control queue and splitter buffer stay within their limits in every run |
| BridgeProgress.DrainsInAnyOrder | crates/wrtg/src/bridge.rs:185-284 | From every reachable state with both tasks alive, in whatever order their steps come: there are no more steps than the work there was, and when no step is left nothing waits anywhere and everything read is on the wire; after the end of the input, what Telegram decrypts is the client's whole plaintext |
| BridgeProgress.DrainIsPossible | crates/wrtg/src/bridge.rs:185-284 | And there is such a run, with or without an end of the input; without one the reading task is back at reading |
| ConnPool.Pool.TakeExpired | crates/wrtg/src/conn_pool.rs:69-75 | Splits a slot into its young and its expired connections, both in order |
| ConnPool.Pool.Acquire | crates/wrtg/src/conn_pool.rs:158-181 | The lock section of acquire: drops expired entries, pops the newest, marks the slot used; a media key without media service and an unknown key change nothing |
| ConnPool.Pool.FillOne | crates/wrtg/src/conn_pool.rs:196-218 | The lock section after a connect: drops expired entries and puts the socket last, or reports it spare at capacity |
| ConnPool.Pool.RefillOne | crates/wrtg/src/conn_pool.rs:223-235 | Marks the slot used; what is asked for and what is held make the pool size, or what is held if that is more |
| ConnPool.Pool.ActiveSlots | crates/wrtg/src/conn_pool.rs:248-264 | Drops the expired entries of every slot, returns exactly those entries, each once, in the order the map is walked, and keeps warm exactly the slots used in the last 600 seconds |
| ConnPool.AcquireExactly | crates/wrtg/src/conn_pool.rs:158-181 | A caller gets the newest connection at most the ttl old, and nothing only when none is; the young ones before it stay in order |
| ConnPool.ExpiryConcat | crates/wrtg/src/conn_pool.rs:69-75 | Expiry goes through a list entry by entry and keeps its order |
| ConnPoolRuns.ExpirySplits | crates/wrtg/src/conn_pool.rs:69-75 | Expiry partitions a slot: nothing lost, nothing in both halves, the kept ones young |
| ConnPoolRuns.AcquireKeepsInv | crates/wrtg/src/conn_pool.rs:158-181 | An acquire moves the popped socket to its caller and the expired ones of the slot to closed; the placement of every other socket is stated to be what it was |
| ConnPoolRuns.PushKeepsInv | crates/wrtg/src/conn_pool.rs:185-221 | A fill that reaches its lock section moves its socket to the slot, or to closed when the slot filled up meanwhile, and the slot's expired ones to closed; the placement of every other socket is stated to be what it was |
| ConnPoolRuns.StepKeepsInv | crates/wrtg/src/conn_pool.rs:158-264 | Every lock section, connect result, return to a caller and passage of time keeps the whole placement invariant |
| ConnPoolRuns.Capacity | crates/wrtg/src/conn_pool.rs:185-221 | In every interleaving no slot ever exceeds the pool size |
| ConnPoolRuns.WarmExactly | crates/wrtg/src/conn_pool.rs:223-264 | In every run the slots kept warm are exactly those refilled, or asked for while there, within the last 600 seconds, told from the events alone |
| ConnPoolRuns.RefillCompletes | crates/wrtg/src/conn_pool.rs:223-235 | In every run a refill asks for exactly what the slot lacks to the pool size |
| ConnPoolRuns.ExactlyOnePlace | crates/wrtg/src/conn_pool.rs:158-264 | In every interleaving every socket a connect produced is in exactly one place: one slot, once; one fill; with a caller; or closed |
| ConnPoolRuns.HandedOnceAndYoung | crates/wrtg/src/conn_pool.rs:158-181 | No socket is handed out twice; each is at most the ttl old when popped under the lock, and when its caller gets it too if the call had nothing to close |
| ConnPoolRuns.YoungBackIffNothingExpired | crates/wrtg/src/conn_pool.rs:158-181 | What an acquire pops is at most the ttl old when its caller gets it, whatever happens until then, if and only if nothing in the slot had expired at the pop |
| ConnPoolRuns.PendingComesBackOld | crates/wrtg/src/conn_pool.rs:158-181 | In every run, every caller that has not got its socket yet is waiting for others to be closed, and gets it older than the ttl if that takes longer than the ttl; closing has no time limit |
| ConnPoolRuns.AllYoungBackIff | crates/wrtg/src/conn_pool.rs:158-221 | No run of a pool ever gives a caller a socket older than the ttl if and only if the pool size is below two or the ttl is zero |
| ConnPoolRuns.OldOnReturn | crates/wrtg/src/conn_pool.rs:158-181 | For every other pool a run that does, with a connect of one second, a pop at exactly the age of the ttl and a close of one second |
| Cooldown429.Cooldown.NextDelay | crates/wrtg/src/cooldown429.rs:55-70 | The doubling loop gives min(base doubled per strike, max) or min(Retry-After, max), and after its second turn base doubled turns-1 times is still below max, so it takes about log2(max/base) turns however many strikes |
| Cooldown429.Cooldown.Remaining | crates/wrtg/src/cooldown429.rs:79-100 | The time left as Left gives it (Cooldown429.ProbeTellsTimeLeft), and removal of exactly an entry that has been quiet for more than a whole max window |
| Cooldown429.ProbeTellsTimeLeft | crates/wrtg/src/cooldown429.rs:79-100 | Over any run: after a mark at t that set a delay d, every probe at t' answers max(t + d - t', 0), whatever other keys and probes come between, until the key is marked again or cleared |
| Cooldown429.ProbeTellsNothing | crates/wrtg/src/cooldown429.rs:79-90 | A key that was never marked has no time left, in any run |
| Cooldown429.ClearForgets | crates/wrtg/src/cooldown429.rs:142-148 | After a clear, in any run, no probe has time left until the next mark, and that mark sets the first delay again |
| Cooldown429.KeysAgree | crates/wrtg/src/cooldown429.rs:79-83 | Two names share a cooldown exactly when they differ only in letter case and in the spaces around them; names of spaces have none |
| Cooldown429.Cooldown.MarkFor | crates/wrtg/src/cooldown429.rs:113-140 | A mark sets the end of the cooldown from the previous entry and counts the strike, from 1 after a quiet window |
| Cooldown429.OneCallAgrees | crates/wrtg/src/cooldown429.rs:79-148 | One call on the pruned table answers as on a table that lacks nothing, and the tables still agree up to forgotten entries |
| Cooldown429.ForgettingIsInvisible | crates/wrtg/src/cooldown429.rs:55-148 | Any run of marks, probes and clears under a monotone clock gives the delays and remaining times of a table that never deletes |
| Cooldown429.EnoughDoublings | crates/wrtg/src/cooldown429.rs:62-69 | Ninety-six doublings of any non-zero base pass every cap a Duration can hold |
| Cooldown429.SaturationIsUnseen | crates/wrtg/src/cooldown429.rs:123-127 | The saturating 32-bit strike counter never changes a delay |
| Cooldown429.StreakEscalates | crates/wrtg/src/cooldown429.rs:113-134 | During a streak, whatever probes and other keys come between, every further mark doubles the cooldown up to the cap; a Retry-After wins for one mark without breaking the streak |
| Cooldown429.KthMark | crates/wrtg/src/cooldown429.rs:55-134 | The k-th consecutive mark sets min(base * 2^(k-1), max), over the pruning table and any interleaved calls |
| TtlMap.TtlMap.MarkIfAbsent | crates/wrtg/src/ttl_map.rs:45-56 | Inserts, and says so, exactly when the key is missing or its time is over; an active entry is left alone |
| TtlMap.TtlMap.IsActive | crates/wrtg/src/ttl_map.rs:59-69 | Answers whether the key is within its time and removes exactly an entry that is over |
| TtlMap.TableFollowsHistory | crates/wrtg/src/ttl_map.rs:38-75 | After any run the table holds, for each key, the expiry the bare call history gives, or lacks a key whose time is over |
| TtlMap.PruningIsInvisible | crates/wrtg/src/ttl_map.rs:45-69 | Every activity answer and every "if absent" answer of any run is the one the bare history gives |
| TtlMap.ActiveExpiryStands | crates/wrtg/src/ttl_map.rs:42-56 | However many concurrent failures re-mark an active key, its expiry does not move, each such call inserts nothing, and probes find it active |
| TtlMap.ClearTellsPresence | crates/wrtg/src/ttl_map.rs:71-75 | Clearing never misses an active key, and its answer differs from activity exactly on an entry that has run out and was not probed since |
| TtlMap.ClearSeesPruning | crates/wrtg/src/ttl_map.rs:71-75 | The concrete case: the same key cleared at the same time answers differently with and without a probe in between |
| CfBalancer.Balancer.OrderedDomains | crates/wrtg/src/cf_balancer.rs:77-102 | The rotation loop gives the list from the DC's cursor round, drawing a new cursor from the shared counter only for a new DC and a list of at least two |
| CfBalancer.FirstUsesSpread | crates/wrtg/src/cf_balancer.rs:77-102 | DCs that pick for the first time, any number of them, start at consecutive places of the list |
| CfBalancer.Balancer.ProxyDomainsForDc | crates/wrtg/src/cf_balancer.rs:111-127 | Cursor order with a surviving sticky domain moved to the front |
| CfBalancer.Balancer.UpdateProxyDomainForDc | crates/wrtg/src/cf_balancer.rs:130-140 | Remembers the trimmed lower-case domain for the DC; an empty one changes nothing |
| CfBalancer.Balancer.AdvanceProxyDomainsForDc | crates/wrtg/src/cf_balancer.rs:149-161 | Forgets the sticky and moves the cursor past the window, and one further when it would land on that sticky |
| CfBalancer.Balancer.SetProxyDomains | crates/wrtg/src/cf_balancer.rs:24-31 | A refresh changes the list and nothing else: cursors, shared counter and sticky domains are stated to be what they were |
| CfBalancer.SelectionIsPermutation | crates/wrtg/src/cf_balancer.rs:110-127 | The bare function, on any list: a surviving sticky is first, and the selection is a permutation of the list if and only if no sticky survives or the list has no duplicates |
| CfBalancer.ConnectedIsFirst | crates/wrtg/src/cf_balancer.rs:110-140 | The bare functions, on any list and name: the name is the first choice after it connected if and only if the list has its trimmed lower-case form and that is the name itself, or the list lacks that form and the cursor stands on the name; a name that trims to nothing changes nothing |
| CfBalancer.FailedStickyIsNotFirst | crates/wrtg/src/cf_balancer.rs:142-161 | Right after an advance on a pool of at least two, the first entry is not the failed sticky unless the pool lists it at both places the cursor may stop at; never for distinct domains |
| CfBalancer.CoveredAhead | crates/wrtg/src/cf_balancer.rs:149-161 | A domain any distance ahead of the cursor is in the window of one of the sessions whose windows add up to that distance |
| CfBalancer.FailureCoverage | crates/wrtg/src/bridge.rs:717-779 | Any ceil(n/w) consecutive failing sessions of one DC without a sticky put every domain of the pool in some window, from any cursor and whatever other DCs do in between |
| Modular.StepRound | crates/wrtg/src/cf_balancer.rs:157-157 | Moving a cursor round by a window leaves a place ahead of it where it was |
| DomainPool.NormalizeDomainPool | crates/wrtg/src/cf_proxy_domains.rs:192-204 | The loop with its set of names seen computes the normal form of a raw list |
| DomainPool.NormalizedHolds | crates/wrtg/src/cf_proxy_domains.rs:166-204 | A normal list holds exactly the valid names of the raw one, each once and equal to its own trimmed lower-case form |
| DomainPool.NormalizedIsSame | crates/wrtg/src/cf_proxy_domains.rs:192-204 | A list is left as it is if and only if it is distinct, trimmed, lower-case and valid; so no other list becomes a pool this way |
| DomainPool.ValidExactly | crates/wrtg/src/cf_proxy_domains.rs:166-190 | A name is a domain if and only if it is two or more good labels joined by dots, the last with a letter and two characters, of at most 253 characters |
| DomainPool.DecodeApart | crates/wrtg/src/cf_proxy_domains.rs:95-118 | Different built-in names decode to different domains, although each is shifted by its own number of letters |
| DomainPool.DecodeExactly | crates/wrtg/src/cf_proxy_domains.rs:95-118 | For every name that ends in .com, in either letter case: as many letters forward in the alphabet as there are letters in front of the end, each decoded letter is the encoded one; other characters stay; the end becomes .co.uk |
| DomainPool.DecodesFirst | crates/wrtg/src/cf_proxy_domains.rs:95-118 | The concrete case: virkgj.com is pclead.co.uk |
| DomainPool.DefaultsAreNormal | crates/wrtg/src/cf_proxy_domains.rs:71-125 | Making the built-in list normal drops none of its domains: all twenty are valid |
| Text.LowerExactly | crates/wrtg/src/cf_balancer.rs:130-131 | Lower-casing leaves no capital, changes only the case of letters, and makes two texts equal exactly when they differ in nothing else |
| Text.TrimExactly | crates/wrtg/src/cf_balancer.rs:130-131 | Trimming gives the one text without spaces at its ends from which spaces on both sides make the original |
| Text.SplitJoins | crates/wrtg/src/cf_proxy_domains.rs:173-173 | Parts hold no separator and joined make the text |
| Text.JoinSplits | crates/wrtg/src/cf_proxy_domains.rs:173-173 | And no other parts do |
| DomainPool.DefaultsAreProper | crates/wrtg/src/cf_proxy_domains.rs:71-125 | The twenty built-in names decode to distinct domains, each equal to its trimmed lower-case form |
| CfRuns.StepKeepsInv | crates/wrtg/src/config.rs:159-268 | Every configuration, seeding, fetch, reload and report of a session keeps: pool and saved list are distinct and in lower case, and so is every name offered or remembered |
| CfRuns.SelectionInRuns | crates/wrtg/src/cf_balancer.rs:110-127 | In every state any run reaches, every selection is a permutation of the pool without repetition, with a surviving sticky first |
| CfRuns.ConnectedStaysFirst | crates/wrtg/src/bridge.rs:717-779 | From the moment a domain connected until its DC reports again, through any refreshes and reloads and whatever other DCs do, it is the first choice of the DC exactly in those states whose pool lists it |
| CfRuns.FailedIsNotFirst | crates/wrtg/src/cf_balancer.rs:142-161 | In every reachable state with at least two domains, a sticky that failed is not the first choice of the next session |
| CfRuns.RefreshIsUnseen | crates/wrtg/src/cf_balancer.rs:24-31 | Any configurations, fetches, seedings and reloads that end with the list they began with leave every selection, and its effect on the cursors, as it was |
| CfRuns.CoverageAcrossRefreshes | crates/wrtg/src/cf_balancer.rs:24-31 | Any ceil(n/w) failing sessions of one DC put every domain in some window also with any refreshes to the same list before, between and during them |
| CfRuns.ReloadKeepsLive | crates/wrtg/src/config.rs:221-268 | With automatic domains a reload never leaves an empty list, and when the file names no valid domain it leaves the live list with its cursors and stickies |
| IdleGuard.Activity.Round | crates/wrtg/src/bridge.rs:144-153 | One round of the guard: resolves exactly when the counter is the idle limit old in whole milliseconds, and otherwise sleeps at least 50 ms |
| IdleGuard.DecidesExactly | crates/wrtg/src/bridge.rs:113-154 | The exact law, in every interleaving and for any counter width: the guard resolves if and only if the touch it reads, counted older by every wrap of the counter, is the idle limit old in whole milliseconds |
| IdleGuard.NeverTooEarly | crates/wrtg/src/bridge.rs:131-154 | While the two directions store in the order they read the clock and the counter has not wrapped, in every interleaving the guard resolves only when the latest finished touch is the idle limit old in whole milliseconds; exactly when that is less than the limit in real time, and by under a millisecond |
| IdleGuard.ResolvesAFractionEarly | crates/wrtg/src/bridge.rs:131-154 | The missing fraction happens for every limit of whole seconds and every counter width, on exact sleeps: a touch 0.999999 ms into a millisecond counts as its start |
| IdleGuard.LatestIffInOrder | crates/wrtg/src/bridge.rs:131-147 | The counter stands for the latest touch throughout a run if and only if the two directions store in the order they read the clock |
| IdleGuard.StaleStoreHidesTouch | crates/wrtg/src/bridge.rs:131-147 | Stores out of order, for every limit of whole seconds and every counter width, on exact sleeps: an older reading overwrites a newer one and the guard resolves a millisecond after payload moved |
| IdleGuard.WrapResolvesAtOnce | crates/wrtg/src/bridge.rs:113-154 | For every limit of whole seconds the counter can hold, on exact sleeps that each end with a touch: the first touch after the counter wrapped is resolved at its own instant |
| IdleGuard.NeverTooLate | crates/wrtg/src/bridge.rs:139-154 | With exact sleeps the guard has resolved by the latest touch + the limit + 50 ms, even if the counter wraps |
| Handshake.FindHandshakeOffset | crates/wrtg/src/handshake.rs:215-221 | The least offset whose 64-byte window parses, and None exactly when there is none |
| Handshake.OffsetIsStable | crates/wrtg/src/handshake.rs:215-221 | More bytes never move the offset, and a prefix finds it as soon as it holds the window |
| Handshake.PrefixedStream.PollRead | crates/wrtg/src/handshake.rs:77-89 | Every read delivers exactly as many of the next bytes as it has room for of the prefix, and after it of what has arrived at the socket; nothing only with no room or nothing there |
| Handshake.ReadToEnd | crates/wrtg/src/handshake.rs:76-89 | Reading with room until a read delivers nothing delivers the whole prefix and the whole of the socket, so that the end is never reported early |
| Handshake.PrefixedStream.IntoParts | crates/wrtg/src/handshake.rs:36-43 | The returned bytes followed by the socket are what was still to be delivered |
| Handshake.TakeOver | crates/wrtg/src/handshake.rs:127-137 | The window that parses in the buffer is the handshake at the least offset of the whole stream |
| Handshake.ReadInitBuffer | crates/wrtg/src/handshake.rs:98-149 | For any schedule of reads, timeouts and errors: the first read whose bytes decide, decides. HTTP with whole headers is read on as a request, else TLS bytes are handed on as they are, else the least window that parses is taken over; if none decides the bytes come back as not recognised, or with the read error. Each with exactly the bytes read, and with the socket they are the stream |
| Handshake.KindExactly | crates/wrtg/src/handshake.rs:121-127 | What decides, told by the bytes: POST, GET, HEAD or OPTIONS in front and a blank line anywhere; else 22 or 23 and then 3; else a 64-byte window that parses |
| Handshake.FoundExactly | crates/wrtg/src/handshake.rs:98-149 | A stream that starts neither like HTTP nor like TLS is taken over if and only if the bytes that come hold its handshake |
| Handshake.ReadsExactly | crates/wrtg/src/handshake.rs:106-117 | After each read the buffer holds the sum of what came, as far as there is room and the stream goes |
| Handshake.ReadsEnd | crates/wrtg/src/handshake.rs:106-117 | The reads end with a full buffer, with the end of the stream, or at the first wait that brings nothing, and with an error exactly if that wait was one |
| Handshake.ReadFullHttpRequest | crates/wrtg/src/handshake.rs:154-184 | Reads on to exactly the end of the request that Content-Length states or the 4096 bytes of the buffer, as far as the schedule brings bytes, never beyond, and loses none |
| Handshake.WholeRequest | crates/wrtg/src/handshake.rs:151-184 | From the blank line and the stated length: a request is handed on to its last byte or the 4096th, never beyond unless read with the headers, and all the way when every wait brings something, as far as the client sends it |
| Handshake.WantedIsStable | crates/wrtg/src/handshake.rs:158-166 | The length wanted is the same from any prefix with complete headers as from the whole stream |
| ContentLength.ParseContentLength | crates/wrtg/src/handshake.rs:186-213 | The two searches give the number of the first header line of that name that has one, CRLF lines before bare line feed ones, and None when the number does not fit a usize |
| ContentLength.WrittenLengthReads | crates/wrtg/src/handshake.rs:186-213 | A Content-Length line in any letter case, after CRLF or a bare line feed, with any spaces and tabs and any number reads back as that number, if none before it does and, after a bare line feed, no CRLF line gives one; None when it does not fit |
| ContentLength.NothingStated | crates/wrtg/src/handshake.rs:186-213 | Without any numbered line there is no length |
| ContentLength.NamesSpell | crates/wrtg/src/handshake.rs:187-188 | A line matches exactly when it spells the name after CRLF or a line feed, its letters in either case |
| Handshake.ServeClient | crates/wrtg/src/handshake.rs:76-149 | The outcome is that of reading the init; and no byte is lost or repeated: handshake, bytes delivered in pieces of any size, bytes handed back and the rest of the socket are the client's stream from the least offset |
| TlsSni.ParseSniExtension | crates/wrtg/src/tls_sni.rs:132-154 | The loop over the name list computes the first host_name of the list |
| TlsSni.SniFromClientHello | crates/wrtg/src/tls_sni.rs:69-130 | The walk over the hello's fields computes the specification reading, including the out-of-bounds read |
| TlsSni.ParseTlsClientHelloSni | crates/wrtg/src/tls_sni.rs:45-67 | The loop over records computes the first reading that is not empty |
| TlsSni.ServerNamesRead | crates/wrtg/src/tls_sni.rs:132-154 | The server_name extension a client builds reads back as its first host_name, if that is UTF-8 |
| TlsSni.NameMayOutrunList | crates/wrtg/src/tls_sni.rs:132-154 | A name that runs past the end of its list is read as it stands: only the data bounds it |
| Utf8.Utf8Exactly | crates/wrtg/src/tls_sni.rs:149-149 | A byte string is accepted as UTF-8 if and only if it is the encodings of some scalar values in turn, by an independent encoder |
| TlsSni.ExtensionsRead | crates/wrtg/src/tls_sni.rs:115-129 | The extension loop over built extensions gives the first server_name extension that yields a host |
| TlsSni.BodyReads | crates/wrtg/src/tls_sni.rs:77-129 | For any session id, cipher suites and compression methods, the hello body reads as its extensions say |
| TlsSni.SniInvertsConstruction | crates/wrtg/src/tls_sni.rs:45-154 | For every well-formed ClientHello record, whatever extensions and names come before and whatever follows, the parser returns exactly the first host_name of the server_name extension |
| TlsSni.GuardLetsOneThrough | crates/wrtg/src/tls_sni.rs:78-82 | For one handshake payload, the read past the end happens exactly for a hello whose declared body length is 34 |
| TlsSni.RecordsReadPastEnd | crates/wrtg/src/tls_sni.rs:45-82 | For a whole stream, the read past the end happens if and only if the first record that does not read as no host is such a hello |
| HttpHost.ReplaceHttpHost | crates/wrtg/src/media.rs:106-131 | The scan and the copy give the bytes with the value of the first Host line replaced; None exactly without such a line |
| HttpHost.NamesSpell | crates/wrtg/src/media.rs:106-112 | A line matches exactly when it spells host and a colon after CRLF or a line feed, its letters in either case |
| HttpHost.HttpHostRaw | crates/wrtg/src/tls_sni.rs:158-181 | For any bytes: the reader searches the lossily decoded, lower-cased text of the first 4096 bytes for CRLF and the header name, and reads the bytes at the offset found in that text; trimmed value, none, or a read past the end |
| HttpHost.TextFind | crates/wrtg/src/tls_sni.rs:163-166 | Searching that text finds the header exactly when searching the bytes does, at the offset where the text of the bytes in front of it ends |
| HttpHost.OffsetIsByteOffset | crates/wrtg/src/tls_sni.rs:163-168 | The offset found is the byte offset if and only if the text in front is as long as its bytes: always behind ASCII, and where lower-casing keeps widths exactly when every replaced sequence had three bytes |
| HttpHost.ReadsPastEndExactly | crates/wrtg/src/tls_sni.rs:166-170 | The slice starts past the end if and only if the first such header is found and its offset in the text with the name does not fit the bytes |
| Utf8.DecodedSplits | crates/wrtg/src/tls_sni.rs:163-164 | Lossy decoding splits before every ASCII byte: no sequence, complete or cut short, reaches over one |
| Utf8.GapIsMaximal | crates/wrtg/src/tls_sni.rs:163-164 | One replacement character stands for as many bytes as still begin some character, and for one at least |
| HostTrim.WhiteExactly | crates/wrtg/src/tls_sni.rs:175-180 | The bytes trimmed off a host are exactly the encodings of white space |
| HostTrim.TrimmedExactly | crates/wrtg/src/tls_sni.rs:175-180 | Trimming takes white space off both ends of the decoded text, and all of it |
| HttpHost.MatchesSurvive | crates/wrtg/src/media.rs:106-131 | Splicing in a host creates no new header match: every match in the result was one before, wholly before or after the value |
| HttpHost.RewrittenLine | crates/wrtg/src/media.rs:106-131 | After a rewrite the Host line starts where it did and its value ends right after the new host |
| HttpHost.RewriteThenRead | crates/wrtg/src/tls_sni.rs:158-181 | For any bytes, by how many bytes the text before a CRLF header drifts: with 0 or 1 the new host is read back exactly if it ends within the first 4096 bytes; from within the header name never, unless those bytes end with the name or the blank and the rest of the name is spelled like the host; from within the host never; outside the line only if the same word stands there; and never without a CRLF header |
| HttpHost.RewriteThenReadBehindAscii | crates/wrtg/src/tls_sni.rs:158-181 | Behind ASCII, whatever bytes follow the header: read back if and only if the header began with CRLF and the new value ends within the first 4096 bytes |
| HttpHost.BareLineFeedIsNotRead | crates/wrtg/src/media.rs:108-112 | The concrete case: a Host line behind a bare line feed is rewritten and the reader does not find it |
| HttpHost.StrayByteIsMisread | crates/wrtg/src/tls_sni.rs:163-168 | One byte that is no UTF-8 before the header: the new host abc is read back as bc |
| HttpHost.StrayByteReadsPastEnd | crates/wrtg/src/tls_sni.rs:163-168 | The same byte before a header with nothing behind it: the reader slices past the end |
| HttpHost.RewriteAgain | crates/wrtg/src/media.rs:106-131 | Rewriting again is rewriting once with the later host; with the same host it changes nothing |
| HttpHost.OutsideIsUnchanged | crates/wrtg/src/media.rs:124-130 | Every byte outside the old value and its leading blanks is kept, in place and in order |
| DcLearn.DcMap.Load | crates/wrtg/src/dc_learn.rs:69-86 | Loading replaces the map by the learned file's entries with the admin file's on top |
| DcLearn.AdminOnTop | crates/wrtg/src/dc_learn.rs:69-86 | The loaded map is that of the learned file overridden by that of the admin file |
| DcLearn.LineReads | crates/wrtg/src/dc_learn.rs:44-63 | A line is read whatever the blanks around its words, whatever follows the third word and whatever stands behind a # |
| DcLearn.Ipv4Exactly | crates/wrtg/src/dc_learn.rs:51-53 | A word is an address if and only if it is four numbers up to 255, as usually written, with dots between them |
| DcLearn.I32Exactly | crates/wrtg/src/dc_learn.rs:54-54 | A word is read as the number n if and only if n fits 32 bits and the word is an optional sign, any zeros and n in decimal |
| DcLearn.TagExactly | crates/wrtg/src/dc_learn.rs:58-61 | The third word means media exactly if it is media, true or m in any letter case, or 1 |
| DcLearn.DcMap.Learn | crates/wrtg/src/dc_learn.rs:113-133 | Learns, and gives the line to append, exactly for a non-empty, valid, not hardcoded and not yet known address; otherwise changes nothing |
| DcLearn.WrittenReads | crates/wrtg/src/dc_learn.rs:140-146 | Every appended line, even after blanks, parses back to its address, DC and media flag |
| DcLearn.MergedNever | crates/wrtg/src/dc_learn.rs:44-63 | An entry written on a line that is not blank is lost for good: no further bytes make the line give that address |
| DcLearn.OtherNever | crates/wrtg/src/dc_learn.rs:44-63 | A line that starts with one address never gives another, whatever is appended |
| DcLearn.TextLoads | crates/wrtg/src/dc_learn.rs:69-81 | An entry written on a blank last line is exactly what loading gains |
| DcLearn.LoadedOver | crates/wrtg/src/dc_learn.rs:69-81 | Loading over a map is that map overridden by what the lines alone give |
| DcLearnRuns.FirstObservationWins | crates/wrtg/src/dc_learn.rs:105-133 | In every interleaving an address keeps the slot first observed, a loaded one keeps its slot, and no address is appended twice |
| DcLearnRuns.StepKeepsBooks | crates/wrtg/src/dc_learn.rs:113-158 | Every check, insertion, write and failed append keeps: the map is the loaded map, what is queued, what was appended and what failed to be, each address once |
| DcLearnRuns.ReloadRestores | crates/wrtg/src/dc_learn.rs:69-158 | Once nothing is left to append, a reload restores exactly the map if and only if every learned address was IPv4 text, no append failed and every entry was written on a line of its own |
| DcLearnRuns.OwnLinesIfOneAtATime | crates/wrtg/src/dc_learn.rs:144-157 | From a file that ends with a line break, entries get lines of their own exactly when appends never overlap |
| DcLearnRuns.ReloadRestoresIffSerial | crates/wrtg/src/dc_learn.rs:69-158 | The whole law for a file that is empty or ends with a line break: restored if and only if all addresses are IPv4 text, no append failed and none starts inside another |
| DcLearnRuns.OverlapLosesEntries | crates/wrtg/src/dc_learn.rs:140-157 | The concrete case: two new addresses whose texts are both written before either line break are in the map and not restored from the file |

## Left out

- AES, SHA-1, base64 and random generation: the block function is a parameter, random blocks and mask keys are arguments.
- Dialling, TLS, DNS, the WebSocket upgrade, socket options and firewall scripts: a connect is a step that succeeds or fails.
- Mtproto.GenerateRelayInit: takes the generator's blocks as a finite list and returns None when none is acceptable, because the source's retry loop ends only with probability one.
- Ctr.CtrStream.ApplyKeystream: the 128-bit counter wraps as in the source, but the error the cipher library raises at the end of its keystream is not modelled.
- Bridge.PrefixSafety: claims a prefix and exactly what is missing, not delivery, because the drivers are aborted after a drain timeout.
- BridgeProgress.DrainsInAnyOrder: that each task gets its turn is the scheduler's part; control frames that keep coming are not among the steps it counts.
- Bridge.StepKeepsInv: covers the upstream half of a session; the downstream half is Downstream.DownstreamPrefix and RelayStream.DownTask, where the channel in between is the number of messages that reached the task.
- RelayStream.DownTask: a write that fails is taken to have written as many bytes as the socket had room for; how the bytes it wrote are cut into writes is not modelled.
- RelayStream.UpTask: waiting for room in the channel and being aborted are events of Bridge; here a send succeeds or finds the channel closed.
- WsMessages.WsReadHalf.RecvBinary: waiting for room in the pong channel is not modelled, only its closing; after an error the position is not specified, as the session ends.
- ConnPoolRuns.StepKeepsInv: each lock section reads the clock once, although the source reads it once per entry; times are whole seconds. The warm-up and periodic refill tasks are the refill events, in any order.
- Cooldown429.Cooldown.MarkFor: one clock reading per call, although the source takes up to three under its lock.
- TtlMap.TtlMap.IsActive: one clock reading per call, taken while the lock is held.
- CfBalancer.Balancer.ProxyDomainsForDc: one atomic step, although the source takes its locks one after another; what is proved of a selection holds for every list, cursor and sticky, so also for readings of different moments.
- CfBalancer.Balancer.AdvanceProxyDomainsForDc: one atomic step, although the source takes three locks in turn.
- CfRuns.StepKeepsInv: the raw lists are arguments, so how they are split, fetched and cut to bare hosts is not modelled; every step on the shared list is atomic.
- ConnPoolRuns.AllYoungBackIff: in whole seconds, as a ttl is.
- CfBalancer.FailureCoverage: a domain in a window is not dialled while its 429 cooldown lasts (crates/wrtg/src/cf_proxy.rs:127-137), so every domain is offered, not every one dialled. It is about sessions without a sticky domain; CfRuns.CoverageAcrossRefreshes adds refreshes to the same list; the first session after a sticky domain fails dials the sticky and w-1 others while the cursor moves by w.
- IdleGuard.NeverTooLate: sleeps are exact and the guard runs as soon as it wakes; NeverTooEarly needs neither.
- Handshake.ReadInitBuffer: the schedule of arrivals stands for the sockets' timeouts and for both deadlines; the text of the error is not modelled.
- TlsSni.SniInvertsConstruction: the hello stands whole in the first record of the stream; a hello split over several records is not read by the source either.
- HttpHost.HttpHostRaw: the lower case of a character outside ASCII is a parameter, restricted to texts without a byte of the header name, as no such character has one; that a capital sigma is lowered by its context is not modelled.
- HttpHost.ReplaceHttpHost: which host a front gets, and when the rewrite applies, are table lookups and not modelled.
- DcLearnRuns.ReloadRestores: an append fails before its text, or after it and before its line break; a text cut short in the middle is not modelled, nor are loads while entries are still being learned.
- DcLearn.DcMap.Load: file contents are text; a file that is not UTF-8 counts as unreadable, like a missing one.
- Configuration, IP tables, fallback target lists, statistics, logging, the watchdog and the user interface: one-branch facts or reporting.
