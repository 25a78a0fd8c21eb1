# Verified model of the BAP protocol stack

This project models the `network` crate's BAP stack in Dafny and proves what the layers promise, each alone
and composed. It has two parts.

**The wire stack and the protocol on it.** Bytes are carved into frames by an incremental decoder
(`StreamFraming`), frames are parsed and serialised (`Framing`), encrypted bodies are opened and sealed by a
session with one nonce sequence for each direction (`GcmNonce`, `SessionContext`, `Session`), and bodies
become logical messages (`MessageCodec`). `Pipeline` composes byte source, decoder and session.
`ProtocolState`, `ResponsePolicy` and `StatefulSession` are the server's state machine; `Boundary` is one
connection of the localhost boundary, `ConnectionRuns` proves what all its runs keep, and `ReadSizes` says which
streams it takes in reads of which sizes. `Verdicts` says what every frame and every read does to a connection, and
`SocketReplies` carries its replies over to an attached socket. `Client` is the compatibility client, and
`ClientVerdicts` says how each of its calls fails; `Exchange` and `Handshake` join client and boundary by two byte
queues under every schedule, and `Window` says how many frames the client may send without a reply. `Collector` is
the worker loop, the shared event log and the connection limit under every interleaving, and `WorkerEnds` says how
each worker comes to its end. `Sockets` is the writing half of a socket, which may fail part way through any write.

**The sequence algorithms of the analyser.** `Lcs` (table, backtrack, divergence), `Alignment`,
`ObservationDiff` (greedy difference), `Replay` (state replay and counting), and `Structure` (regions of equal
stability, byte difference).

How the model is laid out:

- What the source keeps in a struct and updates in place is a class; each method is proved equal to a
  specification function of the old value (`Value()` ties the fields to that value), and the theorems are
  lemmas about those functions. Loops of the source are loops with invariants. Long source functions are
  split where a loop or a second half starts.
- AES-128-GCM is a pair of functions with laws (`Aead.Lawful`): plaintexts up to the limit of NIST SP 800-38D
  are accepted, opening undoes sealing under equal key and nonce, and lengths agree. A transparent cipher
  shows the laws consistent. Nothing is assumed about forgeries: a damaged frame may have any outcome of its own.
- Integer widths are explicit: bytes, `u16` and `u32` as bounded integers, nonces modulo 2^96 and counters
  saturating at 2^64 - 1. The counts of states and transitions, `u32` in the source, are unbounded: they are at
  most the number of messages, so only a capture of 2^32 messages tells the difference. `usize` is 64 bits wide,
  so the length sum in `network/src/framing.rs:113-115` cannot overflow. Frame indices and connection ids count
  without wrapping.
- A payload whose frame would not fit a 32-bit length field makes the source panic
  (`network/src/bap_session.rs:222-232`); encoders require that it fits.
- `hide` statements only keep function bodies out of proofs that do not need them.

Where code and documentation differ, the model follows the code. `network/src/protocol_state.rs:279` calls an
observed message a no-op, but the first one on an established channel makes the server `Active`
(`OpenServerIsACounter`).

Some promises hold up to a bound, and the bound is exact:

- Nonces stay unique up to 2^88 uses of a direction, and every session repeats one at use 2^88
  (`NonceReuseAtTheBound`).
- Whether a connection takes a stream does not depend on how it is cut into reads of at most n bytes, if and only
  if n is at most 59 (`SafeReadSizeIff`). The harness reads up to 4096 bytes at a time
  (`network/src/external_client_boundary.rs:26`); for that and every other size `CuttingsAgreeIff` says for
  which streams the cutting does not matter.
- A NAT probe has no reply, so nothing holds back a client that sends many. The server closes the connection on a
  read that completes more than 64 frames, and so a client is safe under every schedule if and only if it sends at
  most 64 frames after the last reply it read (`SafeWindowIff`; `SixtyFiveProbes` is the run that fails).
- The greedy comparison of sequences is not minimal: a script may explain the difference with fewer entries. It is
  minimal against everything that may be observed if and only if at most one frame is expected
  (`MinimalForExpectedIff`), and the same holds the other way round (`MinimalForObservedIff`). For a single deviation
  between frames that agree, the condition is exact: added frames are always counted right (`AddedFrames`), a missing
  frame if and only if its id does not come again (`MissingFrameIff`), and a replaced frame if and only if neither id
  does (`ReplacedFrameIff`). Sequences with a common id never give more entries than their lengths together less two
  (`NeverWorse`), and a frame that comes late reaches that, where two entries suffice (`LateFrame`).

## Model

| member | source | states |
|---|---|---|
| Bytes.BigEndianRoundTrips | network/src/framing.rs:181-182 | big-endian decoding and encoding of 16-bit and 32-bit integers are inverse, both ways |
| Bytes.NetworkOrder | network/src/framing.rs:181-182 | both widths are the big-endian value of the bytes, most significant first |
| Aead.TransparentCipherIsLawful | network/src/crypto/aead.rs:83-140 | the laws assumed of the cipher have a model |
| GcmNonce.IncrementNonce | network/src/crypto/gcm_nonce.rs:82-89 | the in-place loop turns the array into its successor nonce |
| GcmNonce.IncrementIsSuccessor | network/src/crypto/gcm_nonce.rs:78-89 | an increment adds one to the little-endian value, modulo 256 to the length |
| GcmNonce.NonceAtValue | network/src/crypto/session_context.rs:98-107 | after n increments the value is the base plus n modulo 2^96 |
| GcmNonce.BaseValue | network/src/crypto/gcm_nonce.rs:50-97 | the client base is 2^88 above or below the session nonce, by the parity of its last byte; the server base equals it |
| GcmNonce.NoncesCollideIff | network/src/crypto/gcm_nonce.rs:50-97 | exactly when two uses of one session, in any directions, see the same nonce |
| GcmNonce.NoncesUnique | network/src/crypto/gcm_nonce.rs:50-97 | no nonce repeats within or across directions while each has used at most 2^88 |
| GcmNonce.NonceReuseAtTheBound | network/src/crypto/gcm_nonce.rs:50-97 | for every session nonce the bound is reached: use 2^88 of one direction repeats the first of the other |
| SessionContext.SessionCryptoContext.New | network/src/crypto/session_context.rs:42-67 | wrong lengths are refused, the key's first; otherwise both directions start at their bases with counters zero |
| SessionContext.SessionCryptoContext.NextNonce | network/src/crypto/session_context.rs:110-125 | returns the direction's current nonce and moves that direction on, and only that one |
| Framing.ParseExactly | network/src/framing.rs:103-151 | data parses to a frame and a length if and only if it starts with the serialisation of that well-formed frame: round trips both ways, and what follows never matters |
| Framing.WireLayout | network/src/framing.rs:143-151 | what stands at which offset of a serialised frame: magic, kind, length and body, with id, context, tag and payload in theirs |
| Framing.ParseFailsIff | network/src/framing.rs:103-218 | each parse error with its exact condition on the bytes, and success exactly when none holds |
| Framing.BodyRoundTrip | network/src/framing.rs:177-218 | body parsers and serialisers are exact inverses for each kind |
| Framing.ParseAll | network/src/framing.rs:130-141 | the loop computes the frames at the front of the data, or the first failure |
| Framing.ParseAllExactly | network/src/framing.rs:129-141 | data parses to a list of frames if and only if it is their wire form followed by nothing or by a byte that is not the magic |
| StreamFraming.BapStreamDecoder.Push | network/src/stream_framing.rs:83-91 | the frames completed by the pushed bytes and the buffer left; on a bad header its error, with frames carved earlier in the call lost |
| StreamFraming.BapStreamDecoder.DrainComplete | network/src/stream_framing.rs:102-134 | the draining loop carves every complete frame at the front |
| StreamFraming.BapStreamDecoder.Finish | network/src/stream_framing.rs:94-100 | succeeds exactly on an empty buffer |
| StreamFraming.CarveAppend | network/src/stream_framing.rs:86-134 | carving a longer buffer is carving a piece and going on with what that left |
| StreamFraming.CarveSound | network/src/stream_framing.rs:102-134 | emitted bytes plus the rest are the bytes taken in, every emitted frame is sound and within bounds, and carving stops only where no sound frame is in front |
| StreamFraming.CarveComplete | network/src/stream_framing.rs:102-134 | every decomposition into sound frames and a rest without one is the carving |
| StreamFraming.CarveVerdict | network/src/stream_framing.rs:102-134 | on the bytes alone: after the sound frames in front, the buffer is refused exactly if its next six bytes are there and have a wrong magic, or else a wrong kind, or else an announced length above the limit, with that error |
| StreamFraming.EveryBufferSplits | network/src/stream_framing.rs:102-134 | every buffer is a list of sound frames and a rest with none in front, so the verdict covers all of them |
| StreamFraming.ChunkingIndependence | network/src/stream_framing.rs:83-134 | every cutting of a sound stream gives the frames and buffer of one push; every cutting of a bad one fails with the same error after a prefix of the frames before the bad header |
| StreamFraming.SettledBound | network/src/stream_framing.rs:102-134 | after a successful push fewer than a header and a largest body are buffered |
| StreamFraming.FramesPerPush | network/src/stream_framing.rs:102-134 | how many frames a push of n bytes can complete |
| Session.BapSession.EncodeEncrypted | network/src/bap_session.rs:115-130 | seals under the direction's current nonce and uses it up, even on failure |
| Session.BapSession.DecodeFrame | network/src/bap_session.rs:134-144 | one frame exactly, decoded; trailing bytes and malformed frames are refused without using a nonce |
| Session.BapSession.DecodeEncrypted | network/src/bap_session.rs:166-193 | empty ciphertext is refused before a nonce is used; otherwise the nonce is used whatever the outcome |
| Session.FrameRoundTrip | network/src/bap_session.rs:109-216 | a clear or encrypted message comes back as it was whenever key and current nonce agree |
| Session.OpensIff | network/src/bap_session.rs:166-216 | an encrypted frame decodes if and only if the cipher opens it under the current nonce, and then to what was opened; otherwise the error is that decryption failed; the nonce is used up either way |
| Session.DecodingVerdict | network/src/bap_session.rs:134-193 | what any bytes decode to: no frame, a frame with bytes after it, and each kind of body |
| Session.SealedLayout | network/src/bap_session.rs:115-130 | an encrypted frame has its tag and ciphertext in their places and opens to id and context in network order and the payload |
| Session.CounterLaw | network/src/bap_session.rs:5-12 | over any calls, failing or not, a direction's counter and nonce have moved once per frame encrypted and per complete encrypted frame decoded in it, saturating and wrapping as the source does |
| Session.SessionNoncesUnique | network/src/crypto/session_context.rs:110-125 | in any run no two uses of nonces coincide while no direction is used more than 2^88 times |
| Session.DamageContained | network/src/bap_session.rs:9-11 | changing a frame's body in place changes the outcome of that frame at most, earlier and later ones not at all |
| Pipeline.ChunkStream | network/src/byte_source.rs:67-80 | the pieces join to the stream and follow the schedule of positive sizes; only the last may be short |
| Pipeline.PositiveSizesAre | network/src/byte_source.rs:67-80 | the sizes of the schedule are the positive ones given, in order |
| Pipeline.MockByteSource.Read | network/src/byte_source.rs:56-64 | the queued reads in order, then a clean end of file |
| Pipeline.BapOfflinePipeline.CollectRawFrames | network/src/bap_pipeline.rs:51-66 | drains the source through the decoder; source failure, framing error and unfinished frame are told apart |
| Pipeline.BapOfflinePipeline.RunDirected | network/src/bap_pipeline.rs:92-110 | frames decoded in their directions up to the first failure; a wrong number of directions is refused before any is decoded |
| Pipeline.CollectIsPushAll | network/src/bap_pipeline.rs:51-66 | draining a source that never fails is pushing its pieces in turn |
| Pipeline.SourceFailureReported | network/src/bap_pipeline.rs:51-66 | a read that fails is reported as itself if the reads before it are sound, and what follows it is not read |
| Pipeline.FailingSourceFails | network/src/bap_pipeline.rs:51-66 | no source with a failing read is drained without an error |
| Pipeline.CollectVerdict | network/src/bap_pipeline.rs:51-66 | on the bytes alone, whatever the pieces: the frames of a stream, or which error it ends in and exactly when |
| Pipeline.WrongCount | network/src/bap_pipeline.rs:92-104 | a sound stream with the wrong number of directions is refused, and no nonce used |
| Pipeline.TamperedFrame | network/src/bap_pipeline.rs:92-110 | a frame that does not authenticate fails the whole run as a decryption failure, with its own nonce used and none after it |
| Pipeline.EndToEnd | network/src/bap_pipeline.rs:51-110 | any mixture of messages, encoded and cut in any way, is recovered if and only if every body is within the decoder's limit, and then exactly, with the decoder empty and both nonces and counters those of the encoder |
| MessageCodec.RecordExactly | network/src/message_codec.rs:119-188 | 0x1A records and their byte form correspond one to one |
| MessageCodec.RecordLayout | network/src/message_codec.rs:119-188 | what stands at which offset of a record, and that its length field counts what follows it |
| MessageCodec.NoRecordIff | network/src/message_codec.rs:149-188 | which payloads are no record, with the error of each |
| MessageCodec.KnownIds | network/src/message_codec.rs:294-332 | exactly ten ids are known, each decoded to its own kind; others are kept as they came |
| MessageCodec.LoginRecordIff | network/src/message_codec.rs:294-332 | a 0x1A payload decodes to a record if and only if it is the encoding of that record, and to none if it is the encoding of none |
| MessageCodec.FrameMeans | network/src/message_codec.rs:363-403 | which decoded frames carry a message: clear ones, and encrypted ones with an id and a context |
| MessageCodec.EnvelopeRoundTrip | network/src/message_codec.rs:294-360 | encoding a decoded envelope returns its payload, for every id, and id, context and direction are kept |
| MessageCodec.RoundtripNeverFalse | network/src/message_codec.rs:420-430 | the round-trip check never answers no, and fails exactly on a hand-made record with inconsistent lengths |
| MessageCodec.DecodedMessagesAreFixpoints | network/src/message_codec.rs:294-360 | a message came from the decoder if and only if decoding its encoding returns it |
| StatefulSession.StatefulBapSession.HandleMessage | network/src/stateful_bap_session.rs:143-212 | events, state and result of one message, the reply chosen from the state before |
| StatefulSession.StatefulBapSession.SetState | network/src/stateful_bap_session.rs:117-126 | a transition is logged exactly when the state changes |
| StatefulSession.TransitionLaw | network/src/protocol_state.rs:121-241 | what an open server rejects, with the ids and directions written out: requests from the server and replies from the client in every state, and before the encrypted channel each of ten ids but the next request; and what it makes of everything else |
| StatefulSession.TransientStates | network/src/protocol_state.rs:121-232 | what the states that a server only passes through would accept |
| StatefulSession.OpenServerIsACounter | network/src/protocol_state.rs:121-232 | the open server is a counter of stages: a rejection changes only its log, the next request moves on one stage, and which reply is earned by what |
| StatefulSession.HandledLogs | network/src/stateful_bap_session.rs:143-212 | exactly what one message adds to the log of an open server |
| StatefulSession.ClosingLogs | network/src/stateful_bap_session.rs:245-253 | closing goes through both states and logs each once |
| StatefulSession.ClosedServerRejects | network/src/protocol_state.rs:125-134 | a closing or closed server rejects everything and changes nothing but its log |
| StatefulSession.AcceptedStage | network/src/response_policy.rs:61-121 | a handshake reply is sent exactly for the next request, properly directed, and moves on one stage |
| StatefulSession.CallStep | network/src/stateful_bap_session.rs:117-253 | every call keeps a server sound, never lowers its rank and logs at most one handshake reply, for the request it takes |
| StatefulSession.EveryRunIsSound | network/src/stateful_bap_session.rs:92-253 | in every run the state between calls is never transient, logged transitions form a path to the current state, handshake replies are a prefix of 0x1F, 0x1A, 0x7A, and ranks never fall |
| StatefulSession.RepliesWereEarned | network/src/stateful_bap_session.rs:143-212 | the encrypted states are reached only through accepted 0x1E, 0x19 and 0x79 from the client, in that order, and each reply is for one of them |
| Boundary.ExternalClientConnection.WithMaterial | network/src/external_client_boundary.rs:234-255 | a new connection, with one event logged |
| Boundary.ExternalClientConnection.FeedBytes | network/src/external_client_boundary.rs:293-341 | limits, framing, frames and events of one read, in every branch |
| Boundary.ExternalClientConnection.HandleRawFrame | network/src/external_client_boundary.rs:343-417 | one frame: numbered, decrypted, handled and answered, or refused |
| Boundary.ExternalClientConnection.ApplyResponse | network/src/external_client_boundary.rs:419-453 | which frame one reply puts on its way and which nonce it uses, whether or not writing it fails |
| Boundary.ExternalClientConnection.WriteOut | network/src/external_client_boundary.rs:455-464 | to the socket if one is attached, which may fail at any write after any part of the frame; to the outbound queue otherwise |
| Boundary.ExternalClientConnection.BeginClose | network/src/external_client_boundary.rs:474-490 | closes connection and protocol session with one event and an empty decoder; closing again changes nothing |
| Boundary.StaysOpen | network/src/external_client_boundary.rs:343-417 | a frame handled without error leaves the connection active |
| SocketReplies.SocketGetsReplies | network/src/external_client_boundary.rs:419-464 | a read with a socket attached does what it does without one, but writes the replies that would be queued; if a write fails, the read fails with it, having written the replies before it and the part that went out, and the nonces are those after sealing that reply |
| SocketReplies.AnswersReachSocket | network/src/external_client_boundary.rs:335-464 | every request in a read gets its one reply on the socket, in order, and nothing is queued |
| Verdicts.FrameUndecodable | network/src/external_client_boundary.rs:343-370 | a frame that the session does not decode closes the connection, with what is logged |
| Verdicts.FrameWithoutMessage | network/src/external_client_boundary.rs:372-380 | a frame that carries no message is reported and leaves the connection as it was but for nonce and count |
| Verdicts.FrameWithMessage | network/src/external_client_boundary.rs:372-417 | a message that is rejected closes the connection, one that the reply policy refuses does not, and any other fails only if its reply cannot be written |
| Verdicts.FrameClosesIff | network/src/external_client_boundary.rs:343-417 | exactly which frames close an open connection: those not decoded and those whose message is rejected |
| Verdicts.TamperedFrameCloses | network/src/external_client_boundary.rs:343-370 | a frame that does not authenticate closes the connection, uses up its nonce, and is not answered |
| Verdicts.FeedVerdict | network/src/external_client_boundary.rs:293-341 | the verdict on a read from the bytes alone: too many bytes, then a bad header, then too many frames close it before any frame is handled; otherwise all frames are handled and the rest is kept |
| Verdicts.EndVerdict | network/src/external_client_boundary.rs:474-501 | ending closes everything once, with the reason logged; a closed connection takes nothing |
| Verdicts.ReplyIsReadable | network/src/external_client_boundary.rs:419-453 | a reply on its way decodes, for a client with the same key and nonce, to the message decided on |
| ConnectionRuns.EachAppend | network/src/external_client_boundary.rs:335-340 | handling frames in two goes is handling them in one, errors included |
| ConnectionRuns.FeedAllInOneGo | network/src/external_client_boundary.rs:293-341 | pieces fed without error leave what one handling of all frames of the joined stream leaves |
| ConnectionRuns.SplitIndependence | network/src/external_client_boundary.rs:293-463 | two error-free cuttings of the same bytes leave equal states, counters, frame index, outbound frames and buffer, and equal logs but for the record of arrivals |
| ReadSizes.SmallReadsFitLimits | network/src/external_client_boundary.rs:25-28 | a read of at most 59 bytes hits neither the buffer nor the frame limit |
| ReadSizes.SmallReadsAgree | network/src/external_client_boundary.rs:293-341 | two cuttings of a soundly framed stream into reads of at most 59 bytes end alike, failures included |
| ReadSizes.SmallReadsSucceed | network/src/external_client_boundary.rs:293-341 | a stream that some cutting gets through is taken in all reads of at most 59 bytes, with the same connection at the end |
| ReadSizes.EveryCuttingTakenIff | network/src/external_client_boundary.rs:293-341 | exactly which streams are taken however they are cut into reads of at most n bytes |
| ReadSizes.CuttingsAgreeIff | network/src/external_client_boundary.rs:293-341 | exactly for which streams it does not matter how they are cut into reads of at most n bytes |
| ReadSizes.SixtyByteRead | network/src/external_client_boundary.rs:300-304 | one stream, taken by single bytes and refused with one read of 60 bytes in it |
| ReadSizes.SafeReadSizeIff | network/src/external_client_boundary.rs:25-28 | the cutting matters for no stream if and only if reads have at most 59 bytes |
| ConnectionRuns.CallKeepsCoherence | network/src/external_client_boundary.rs:293-498 | one call keeps the life cycle, only adds to the log, and changes nothing once closed |
| ConnectionRuns.EveryRunIsCoherent | network/src/external_client_boundary.rs:293-498 | in every run frames are numbered from 0 without gaps, one closing is logged exactly if closed, closed means protocol session closed and buffer empty for ever, an open connection's buffer is bounded, and its server is sound |
| Client.BapCompatibilityClient.FeedBytes | network/src/compatibility_client.rs:361-386 | the frames completed by the bytes, decoded in order; a failure loses those of the same call |
| Client.BapCompatibilityClient.ReadFrame | network/src/compatibility_client.rs:388-419 | a stacked frame if there is one, otherwise the first of the next read that completes any; end of stream, timeout and failure told apart |
| Client.BapCompatibilityClient.SendEncrypted | network/src/compatibility_client.rs:325-358 | refused before the session is established; otherwise one frame is sealed and written, and the nonce is used even if writing fails part way |
| Client.BapCompatibilityClient.RunHandshake | network/src/compatibility_client.rs:478-514 | refused unless freshly connected; otherwise three exchanges, stopping at the first failure in the state reached |
| Client.BapCompatibilityClient.SendNatProbe | network/src/compatibility_client.rs:516-526 | one encrypted 0x12E, refused before the channel stands; a failing write leaves the state as it was |
| Client.BapCompatibilityClient.SendKeepalive | network/src/compatibility_client.rs:528-539 | a clear 0xFA and the clear 0xFB that must answer it, with failures of writing, reading and checking told apart |
| Client.DeliveryIsFifo | network/src/compatibility_client.rs:361-419 | on an error-free stream, whatever the read sizes, each call hands over the first frame due and leaves exactly the rest; end of stream if and only if none is due |
| Client.SendKeepsDue | network/src/compatibility_client.rs:325-358 | sending encrypted frames changes nothing that is due |
| Client.HandshakeSucceedsIff | network/src/compatibility_client.rs:478-514 | the handshake succeeds if and only if the next frames due are clear 0x1F, clear 0x1A and encrypted 0x7A and the socket takes all three requests; it takes exactly those frames and ends Active |
| Client.ReplyExpectedIff | network/src/compatibility_client.rs:421-458 | the check of a reply passes exactly a clear 0x1F, a clear 0x1A, and an encrypted 0x7A with a context |
| ClientVerdicts.ExpectMeans | network/src/compatibility_client.rs:421-458 | for every id and either kind: which frame passes as the reply awaited, and which error every other frame gives |
| ClientVerdicts.HandshakeStops | network/src/compatibility_client.rs:478-514 | every failing handshake: where it stops, with which error, in which state, and what is left to read |
| ClientVerdicts.KeepaliveVerdict | network/src/compatibility_client.rs:528-539 | a keepalive succeeds exactly on a clear 0xFB, and how every other one fails |
| ClientVerdicts.ClearRequestsAreReadable | network/src/compatibility_client.rs:299-323 | every clear frame the client sends decodes, for any server, to the message meant; what a failing write leaves |
| ClientVerdicts.SealedRequestsAreReadable | network/src/compatibility_client.rs:325-358 | every encrypted one does for a server with the same key and nonce, and uses a nonce whether or not it gets through |
| ClientVerdicts.ReadFails | network/src/compatibility_client.rs:361-419 | how a read fails that completes no frame before: time-out, failure, end of stream, bad header and undecodable frame, each with its error and what is left |
| ClientVerdicts.SettledIff | network/src/stream_framing.rs:102-134 | the buffers that complete no frame and no bad header, by their bytes |
| ClientVerdicts.TamperedReply | network/src/compatibility_client.rs:361-419 | a reply that does not authenticate fails the read and uses up its nonce |
| Exchange.ServerAnswers | network/src/external_client_boundary.rs:335-453 | however many requests one read completes, each gets its one reply in order and each probe none, and each side's nonces move with its own messages |
| Exchange.MessagesArrive | network/src/stream_framing.rs:102-134 | part of the bytes of some messages carves into the first of them and less than one frame more |
| Exchange.CounterAhead | network/src/bap_session.rs:5-12 | a sender's counter is ahead of its receiver's by the encrypted frames sent and not decoded |
| Handshake.StepBurnsFuel | network/src/compatibility_client.rs:478-514 | every possible step before the client is Active uses up a bounded fuel |
| Handshake.HandshakeUnderEverySchedule | network/src/compatibility_client.rs:478-539 | in every interleaving of handshake, probes and keepalives and for all read sizes: the client meets no unexpected frame, the server refuses at most a read of too many frames, Active client means established server, counters differ by the encrypted frames under way, of which there are at most as many as the client counts, the client is where its own handshake method leaves it, and no schedule of 3000 steps misses Active |
| Window.ReadRefusedIff | network/src/external_client_boundary.rs:329-333 | in every state reached, a read is refused if and only if it completes more than 64 frames |
| Window.SixtyFiveProbes | network/src/compatibility_client.rs:516-526 | the run of handshake, 65 probes and one read that closes the connection |
| Window.SafeWindowIff | network/src/compatibility_client.rs:516-539 | no schedule is refused if and only if the client sends at most 64 frames after the last reply it read |
| Collector.EventLog.FlushEvents | network/src/external_client_boundary.rs:681-718 | appends exactly the connection's events beyond those counted in the log |
| Collector.FlushCollects | network/src/external_client_boundary.rs:681-718 | a flush brings its connection up to date and leaves every other one alone |
| Collector.MoveIsSane | network/src/external_client_boundary.rs:615-679 | every step of the worker loop keeps its connection coherent, only adds to what it logged, and leaves nothing unflushed where the loop begins again or ends |
| Collector.CollectorUnderEverySchedule | network/src/external_client_boundary.rs:615-772 | under every schedule a connection's part of the log is a prefix of its events; once its worker left the loop it is all of them, the connection is closed, and the log has its frames 0 to n - 1 and one closing; nothing else is logged, and the active count equals the live workers up to one being started and never exceeds the limit |
| WorkerEnds.FeedEnds | network/src/external_client_boundary.rs:293-453 | a read leaves the connection open if it succeeds, and if it fails closes it exactly for certain failures, each logged last with its own reason |
| WorkerEnds.WorkersEnd | network/src/external_client_boundary.rs:615-679 | under every schedule a worker leaves only after a read that ends it, and how its part of the log ends tells that read: end, time-out, read failure, or bytes not handled, with a failure noted once and with its place before or after the closing |
| Lcs.FillTable | network/src/message_correlation.rs:457-466 | the loops fill the table of subsequence lengths of all pairs of prefixes |
| Lcs.LcsIds | network/src/message_correlation.rs:454-483 | the result is a subsequence of both inputs and no common subsequence is longer |
| Lcs.LcsChoice | network/src/message_correlation.rs:467-482 | which longest common subsequence is returned: its last id ends the shortest prefix of the first sequence that reaches the full length, and is matched at its last occurrence in the second |
| Lcs.ChoiceExists | network/src/message_correlation.rs:467-482 | such a place always exists, so the choice is determined |
| Lcs.EntryBounds | network/src/message_correlation.rs:457-466 | no common subsequence of two prefixes is longer than their table entry |
| Lcs.WalkIsCommon | network/src/message_correlation.rs:467-482 | the backtrack collects a common subsequence as long as the entry it starts from |
| Lcs.ComputeSequenceDivergence | network/src/message_correlation.rs:541-566 | a maximal common prefix, a maximal suffix that does not overlap it, the ids at the first difference, and a total bounded by the longest common subsequence |
| Alignment.AlignSequences | network/src/message_correlation.rs:486-539 | dropping one side's segments spells the other side, common segments spell the longest common subsequence, neighbours differ in kind, common ids are taken as early as they come, and the early break is never taken |
| ObservationDiff.DiffIdSequences | network/src/observation_diff.rs:81-158 | the entries are those of the justified edit script, are empty exactly for equal sequences, and number at least the longer length less the longest common subsequence |
| ObservationDiff.EntriesAreUnmatched | network/src/observation_diff.rs:88-138 | the entries show exactly the unmatched frames of each sequence, in order, and their category fits the ids they show |
| ObservationDiff.ScriptIsUnique | network/src/observation_diff.rs:88-138 | the reasons for each step leave exactly one script, so they determine the entries |
| ObservationDiff.JustifiedSpells | network/src/observation_diff.rs:88-138 | the script projects to both sequences |
| ObservationDiff.MinimalForExpectedIff | network/src/observation_diff.rs:88-138 | no script explains any difference from this expected sequence with fewer entries, if and only if at most one frame is expected |
| ObservationDiff.MinimalForObservedIff | network/src/observation_diff.rs:88-138 | the same for every observed sequence, against all that might be expected |
| ObservationDiff.ReplacedFrameIff | network/src/observation_diff.rs:96-138 | one frame replaced between frames that agree: minimal if and only if neither id comes again |
| ObservationDiff.MissingFrameIff | network/src/observation_diff.rs:96-122 | one frame missing between frames that agree: minimal if and only if its id does not come again |
| ObservationDiff.AddedFrames | network/src/observation_diff.rs:96-107 | if the expected sequence is contained in the observed one, the entries are the additional frames, and no script has fewer |
| ObservationDiff.NeverWorse | network/src/observation_diff.rs:88-158 | sequences without a common id differ in every frame of the longer one; with one, the entries number at most both lengths together less two |
| ObservationDiff.LateFrame | network/src/observation_diff.rs:96-122 | a first frame that comes late by any number of frames makes all of these count twice, where two entries suffice |
| ObservationDiff.EmptyIffEqual | network/src/observation_diff.rs:54-57 | no entries if and only if the sequences are equal |
| Replay.StartupPrefixLen | network/src/state_machine.rs:189-196 | the length of the longest common prefix with the startup sequence |
| Replay.NextStateForgetsHistory | network/src/state_machine.rs:240-274 | the rule that looks at the current state gives what position and id alone determine, whatever the branch is called |
| Replay.ReplayStateTrace | network/src/state_machine.rs:215-238 | every entry copies its observation and ends in the history-free state; entries chain from START |
| Replay.AggregateStates | network/src/state_machine.rs:276-301 | count, first and last frame of each state are those of the trace, and counts add up to its length |
| Replay.CollectTransitions | network/src/state_machine.rs:303-337 | one edge per key joins the entries of that key; over all contexts the edges count the entries key by key, and occurrences add up to the trace length |
| Replay.InPairMeans | network/src/state_machine.rs:303-337 | an edge is a request or response exactly if its id stands in a pair |
| Replay.MergeTransitions | network/src/state_machine.rs:339-379 | edges are joined per key without context, classified by the captures seen, and no occurrence is lost |
| Replay.GroupMeans | network/src/state_machine.rs:309-377 | a joined edge exists exactly if its key occurs, sums its occurrences, unites its captures, and is a request or response if one of them is |
| Replay.MergedGraph | network/src/state_machine.rs:487-489 | from two traces to the merged graph: an edge exactly for every key shown, counting the entries of both traces with that key, seen in exactly the captures that show one, stable if both do; so every message is counted once and under its own key |
| Structure.BuildRegions | network/src/payload_structure.rs:311-381 | contiguous runs of equal stability that cover all offsets, neighbours different, labelled by their first offset |
| Structure.TilingIsUnique | network/src/payload_structure.rs:311-381 | there is only one way to split into such regions |
| Structure.PayloadByteDiff | network/src/message_inventory.rs:123-147 | the common prefix is maximal and the count is the number of positions that differ after padding |
| Structure.DistanceIsAMetric | network/src/message_inventory.rs:123-147 | the count is zero exactly on equal payloads, symmetric, and satisfies the triangle inequality |

## Left out

- Sockets and threads: a stream is a queue of reads and a list of writes, read sizes and failures are arbitrary; of the accept loop only the steps on the shared counters remain. In the two-party model replies are taken from the outbound queue, and no read or write of the client fails.
- `send_unknown`: the client of the two-party model sends only what its own methods send, as the server answers some other ids unasked, 0x0A0A for one.
- The inside of AES-GCM, and the CBC and HMAC checks of session records.
- Connecting and reconnecting of the client: it starts connected with a session of its own; its event log is left out too.
- The observational message dispatcher: it only counts what it sees.
- Texts of errors, events and reports: errors and events carry their data, not their wording; categories that the source spells as strings are constructors.
- `run_unidirectional`: it is the directed run with one direction throughout.
- AggregateStates: the map is not listed in the order of its keys, its labels for repeating states are left out, and its counts do not overflow.
- CollectTransitions: the map is not listed in the order of its keys, and its counts do not overflow.
- MergedGraph: the edges are merged in any order of the two maps, and the context a merged edge shows is that of one of its edges.
- TransparentCipherIsLawful: it shows the laws consistent and says nothing of the AES-GCM library behind the wrapper.
- MergeTransitions: the final sorting of the edges for display is not modelled.
- BuildRegions: the numeric, bit and text candidates attached to each region are not modelled.
- DiffIdSequences: the labels and formatted sequences around the entries are not modelled, nor the later checks against a scenario.
- The remaining analysers (timing, periodicity, UDP statistics, matrices, evidence adapters), the command line, JSON loading and the other local server: tables, heuristics and repetitions of the connection loop.
