/** What a connection makes of one frame and of one read, case by case: what fails, what closes it, and
    what its log says. */
module Verdicts {
  import opened Bytes
  import opened Aead
  import opened GcmNonce
  import opened SessionContext
  import opened Framing
  import opened StreamFraming
  import opened Session
  import opened StatefulSession
  import opened Boundary
  import opened ConnectionRuns
  import Codec = MessageCodec
  import Protocol = ProtocolState
  import Policy = ResponsePolicy

  /** A refusal that closes the connection: both sessions are closed, the socket is let go, and nothing
      but the log and the frame count has moved since. */
  ghost predicate ClosedBy<T>(core: Core, e: Effect<T>, crypto: Context, frameIndex: nat) {
    && e.core.state == Closed && e.core.server.state == Protocol.Closed && e.core.stream == None
    && e.core.server.crypto == crypto && e.core.server.policy == core.server.policy
    && e.core.outbound == core.outbound && e.core.frameIndex == frameIndex && e.core.id == core.id
  }

  /** A message that the reply policy refuses: an unknown one on an established channel, under a policy
      that rejects those. */
  ghost predicate PolicyRefuses(s: Server, m: Codec.BapMessage, n: nat) {
    && n >= 3 && s.policy.unknown == Policy.Reject && m.Unknown? && !Answers(s, m.Id())
    && m.Id() != 0x12E && m.Id() != 0x12F
  }

  lemma FrameUndecodable(cipher: Cipher, core: Core, raw: RawBapFrame)
    requires Handling(core)
    ensures var (crypto, decoded) := Decoding(cipher, core.server.crypto, ClientToServer, raw.rawBytes);
            var e := RawEffect(cipher, core, raw);
            decoded.Err? ==>
              && e.result == Err(CryptoError(decoded.error)) && ClosedBy(core, e, crypto, core.frameIndex + 1)
              && e.events == [FrameRecovered(core.id, core.frameIndex, raw.kind, |raw.body|),
                              FrameRejected(core.id, CryptoCategory,
                                            if decoded.error == DecryptFailed then GcmDecryptFailed else AuthCrypto),
                              ConnectionClosed(core.id, CryptoFailure)]
  {
    hide Decoding, FrameEffect;
  }

  lemma FrameWithoutMessage(cipher: Cipher, core: Core, raw: RawBapFrame)
    requires Handling(core)
    ensures var (crypto, decoded) := Decoding(cipher, core.server.crypto, ClientToServer, raw.rawBytes);
            var e := RawEffect(cipher, core, raw);
            decoded.Ok? && Codec.DecodeFromFrame(decoded.value, ClientToServer).Err? ==>
              && e.result == Err(ProtocolError(BadMessage))
              && e.core == core.(frameIndex := core.frameIndex + 1, server := core.server.(crypto := crypto))
              && e.events == [FrameRecovered(core.id, core.frameIndex, raw.kind, |raw.body|),
                              FrameRejected(core.id, ProtocolCategory, BadMessage)]
  {
    hide Decoding, Codec.DecodeFromFrame, Handled, Undecodable;
  }

  /** A frame that carries a message. */
  lemma FrameWithMessage(cipher: Cipher, core: Core, raw: RawBapFrame, m: Codec.BapMessage, n: nat)
    requires Lawful(cipher) && Handling(core) && n < |STAGES| && core.server.state == STAGES[n]
    requires var decoded := Decoding(cipher, core.server.crypto, ClientToServer, raw.rawBytes).1;
             decoded.Ok? && Codec.DecodeFromFrame(decoded.value, ClientToServer) == Ok(m)
    ensures var crypto := Decoding(cipher, core.server.crypto, ClientToServer, raw.rawBytes).0;
            var e, t := RawEffect(cipher, core, raw), Protocol.Transition(core.server.state, m);
            var recovered := FrameRecovered(core.id, core.frameIndex, raw.kind, |raw.body|);
            && e.core.frameIndex == core.frameIndex + 1
            && if t.Rejected? then
                 && e.result == Err(ProtocolError(OutOfSequence)) && ClosedBy(core, e, crypto, core.frameIndex + 1)
                 && e.events == [recovered, FrameRejected(core.id, ProtocolCategory, OutOfSequence),
                                 ProtocolNote(core.id, core.server.state, RejectedLabel),
                                 ConnectionClosed(core.id, ProtocolReject)]
               else if PolicyRefuses(core.server, m, n) then
                 && e.result == Err(ProtocolError(BadState)) && e.core.state == core.state
                 && e.core.server.state == Protocol.Active && e.core.outbound == core.outbound
                 && e.events == [recovered, FrameRejected(core.id, ProtocolCategory, BadState)]
               else
                 && (e.result.Ok? || (core.stream.Some? && e.result == Err(IoError)))
                 && e.core.state == ProtocolActive
                 && e.events == [recovered, ProtocolNote(core.id, e.core.server.state,
                                                         MessageLabel(m.Id(), t.Advanced?))]
  {
    hide Decoding, Codec.DecodeFromFrame, Protocol.Transition, Undecodable, Handled, MessageEffect, Answers, Applied,
      AppliedAll;
    var crypto := Decoding(cipher, core.server.crypto, ClientToServer, raw.rawBytes).0;
    var server := core.server.(crypto := crypto);
    OpenServerIsACounter(server, m, n);
    HandledShape(server, m);
    var (server', r) := Handled(server, m);
    var core' := core.(frameIndex := core.frameIndex + 1, server := server');
    MessageVerdict(cipher, core', r, m, n);
    SameAnswers(core.server, crypto, m.Id());
  }

  lemma SameAnswers(s: Server, crypto: Context, id: u16)
    ensures Answers(s.(crypto := crypto), id) == Answers(s, id)
  {
  }

  lemma MessageVerdict(cipher: Cipher, core: Core, r: Result<HandleResult, Protocol.ProtocolStateError>,
      m: Codec.BapMessage, n: nat)
    requires Lawful(cipher) && Handling(core)
    requires r.Ok? ==>
               && |r.value.actions| == 1 && !r.value.actions[0].RejectMessage? && r.value.message == m
               && (r.value.actions[0].SendClear? || r.value.actions[0].SendEncrypted? ==>
                     |r.value.actions[0].payload| <= 9)
    ensures var e := MessageEffect(cipher, core, r);
            && e.core.frameIndex == core.frameIndex && e.core.id == core.id
            && match r
               case Err(_) =>
                 && e.result == Err(ProtocolError(BadState)) && e.core == core
                 && e.events == [FrameRejected(core.id, ProtocolCategory, BadState)]
               case Ok(h) =>
                 if h.transition.Rejected? then
                   && e.result == Err(ProtocolError(OutOfSequence))
                   && ClosedBy(core, e, core.server.crypto, core.frameIndex)
                   && e.events == [FrameRejected(core.id, ProtocolCategory, OutOfSequence),
                                   ProtocolNote(core.id, core.server.state, RejectedLabel),
                                   ConnectionClosed(core.id, ProtocolReject)]
                 else
                   && (e.result.Ok? || (core.stream.Some? && e.result == Err(IoError)))
                   && e.core.state == ProtocolActive && e.core.server.state == core.server.state
                   && e.events == [ProtocolNote(core.id, core.server.state,
                                                MessageLabel(m.Id(), h.transition.Advanced?))]
  {
    hide Applied, AppliedAll;
    if r.Ok? && !r.value.transition.Rejected? {
      var h, core' := r.value, core.(state := ProtocolActive);
      var note := [ProtocolNote(core.id, core.server.state, MessageLabel(m.Id(), h.transition.Advanced?))];
      OneApplied(cipher, core', h.actions);
      ReplyGoesOut(cipher, core', h.actions[0]);
      assert note + [] == note;
    }
  }

  lemma OneApplied(cipher: Cipher, core: Core, actions: seq<Policy.ResponseAction>)
    requires |actions| == 1
    ensures var e, all := Applied(cipher, core, actions[0]), AppliedAll(cipher, core, actions);
            all.core == e.core && all.events == e.events && (all.result == e.result || (all.result.Ok? && e.result.Ok?))
  {
    hide Applied;
    var e := Applied(cipher, core, actions[0]);
    assert actions[1..] == [] && e.events + [] == e.events;
  }

  /** A short reply is always sealed, so that only writing it can fail. */
  lemma ReplyGoesOut(cipher: Cipher, core: Core, action: Policy.ResponseAction)
    requires Lawful(cipher) && !action.RejectMessage?
    requires action.SendClear? || action.SendEncrypted? ==> |action.payload| <= 9
    ensures var e := Applied(cipher, core, action);
            && (e.result.Ok? || (core.stream.Some? && e.result == Err(IoError))) && e.events == []
            && e.core.state == core.state && e.core.server.state == core.server.state
            && e.core.frameIndex == core.frameIndex && e.core.id == core.id
  {
    hide Encoding, ClearRaw;
    if action.SendEncrypted? {
      SealedLayout(cipher, core.server.crypto, ServerToClient, action.msgId, action.context, action.payload);
    }
  }

  /** Which frames close a connection with an open server, and no others: those the session does not
      decode, and messages out of sequence or in the wrong direction. A frame without a message and
      a message that the policy refuses are reported, and leave it open. */
  lemma FrameClosesIff(cipher: Cipher, core: Core, raw: RawBapFrame, n: nat)
    requires Lawful(cipher) && Handling(core) && n < |STAGES| && core.server.state == STAGES[n]
    ensures var decoded := Decoding(cipher, core.server.crypto, ClientToServer, raw.rawBytes).1;
            var e := RawEffect(cipher, core, raw);
            && (e.core.state == Closed <==>
                  || decoded.Err?
                  || (Codec.DecodeFromFrame(decoded.value, ClientToServer).Ok? &&
                      Protocol.Transition(core.server.state,
                                          Codec.DecodeFromFrame(decoded.value, ClientToServer).value).Rejected?))
            && (e.result == Err(ProtocolError(BadMessage)) <==>
                  decoded.Ok? && Codec.DecodeFromFrame(decoded.value, ClientToServer).Err?)
            && (e.core.state != Closed ==>
                  e.core.server.state != Protocol.Closing && e.core.server.state != Protocol.Closed)
  {
    hide Decoding, Codec.DecodeFromFrame, RawEffect, Protocol.Transition, PolicyRefuses;
    var decoded := Decoding(cipher, core.server.crypto, ClientToServer, raw.rawBytes).1;
    FrameUndecodable(cipher, core, raw);
    FrameWithoutMessage(cipher, core, raw);
    if decoded.Ok? {
      var m := Codec.DecodeFromFrame(decoded.value, ClientToServer);
      if m.Ok? {
        FrameWithMessage(cipher, core, raw, m.value, n);
        if !Protocol.Transition(core.server.state, m.value).Rejected? {
          MessageLeavesOpen(cipher, core, raw, m.value, n);
        }
      }
    }
  }

  lemma MessageLeavesOpen(cipher: Cipher, core: Core, raw: RawBapFrame, m: Codec.BapMessage, n: nat)
    requires Lawful(cipher) && Handling(core) && n < |STAGES| && core.server.state == STAGES[n]
    requires var decoded := Decoding(cipher, core.server.crypto, ClientToServer, raw.rawBytes).1;
             decoded.Ok? && Codec.DecodeFromFrame(decoded.value, ClientToServer) == Ok(m)
    requires !Protocol.Transition(core.server.state, m).Rejected?
    ensures var s := RawEffect(cipher, core, raw).core.server.state; s != Protocol.Closing && s != Protocol.Closed
  {
    hide Decoding, Codec.DecodeFromFrame, Protocol.Transition, Undecodable, Handled, MessageEffect, Answers, Applied,
      AppliedAll;
    var server := core.server.(crypto := Decoding(cipher, core.server.crypto, ClientToServer, raw.rawBytes).0);
    OpenServerIsACounter(server, m, n);
    HandledShape(server, m);
    var (server', r) := Handled(server, m);
    MessageVerdict(cipher, core.(frameIndex := core.frameIndex + 1, server := server'), r, m, n);
  }

  /** A frame that does not authenticate closes the connection and uses up the client's nonce; nothing
      of its contents is handled or answered. */
  lemma TamperedFrameCloses(cipher: Cipher, core: Core, tag: Tag, ciphertext: Octets)
    requires Handling(core) && ciphertext != [] && TAG_LEN + |ciphertext| <= MAX_BODY_LEN
    requires cipher.open(core.server.crypto.key, core.server.crypto.c2s.nonce, ciphertext, tag).None?
    ensures var wire := EncryptedRaw(tag, ciphertext);
            && |wire| >= HEADER_LEN
            && var e := RawEffect(cipher, core, RawFrom(wire));
               && e.result == Err(CryptoError(DecryptFailed))
               && ClosedBy(core, e, Advance(core.server.crypto, ClientToServer), core.frameIndex + 1)
               && e.events == [FrameRecovered(core.id, core.frameIndex, 1, 16 + |ciphertext|),
                               FrameRejected(core.id, CryptoCategory, GcmDecryptFailed),
                               ConnectionClosed(core.id, CryptoFailure)]
  {
    hide Decoding, RawEffect, Advance, ClosedBy, U32Be;
    var wire := EncryptedRaw(tag, ciphertext);
    assert |wire| == 22 + |ciphertext| && wire[1] == 1;
    OpensIff(cipher, core.server.crypto, ClientToServer, tag, ciphertext);
    FrameUndecodable(cipher, core, RawFrom(wire));
  }

  /** The verdict on one read of an open connection, read off the bytes: what it held before and what came
      in are sound frames and a rest with none in front. Too many bytes, a bad header after the
      frames, and too many frames close it before any frame is handled, in this order of precedence;
      otherwise the frames are handled, and the rest is kept. */
  lemma FeedVerdict(cipher: Cipher, c: Connection, bytes: Octets, frames: seq<RawBapFrame>, rest: Octets)
    requires IsOpen(c.core) && c.buf + bytes == RawBytesOf(frames) + rest
    requires (forall f <- frames :: Carved(f, MAX_BODY_LEN)) && NoSoundFrame(rest, MAX_BODY_LEN)
    ensures var e, after, id := FeedEffect(cipher, c.core, c.buf, bytes), Fed(cipher, c, bytes), c.core.id;
            var headerFine :=
              |rest| < 6 || (rest[0] == 1 && (rest[1] == 1 || rest[1] == 2) && BigEndian(rest[2..6]) <= 0x40_0000);
            && after.core == e.core && after.events == c.events + e.events
            && if |c.buf| + |bytes| > 0x40_0040 then
                 && e.result == Err(LimitExceeded(BufferedBytesExceeded))
                 && ClosedBy(c.core, e, c.core.server.crypto, c.core.frameIndex) && after.buf == []
                 && e.events == [FrameRejected(id, LimitCategory, BufferedBytesExceeded),
                                 ConnectionClosed(id, LimitReached)]
               else if !headerFine then
                 var detail := if rest[0] != 1 then InvalidMagicSeen
                               else if rest[1] != 1 && rest[1] != 2 then InvalidKindSeen else OversizedFrame;
                 && e.result == Err(FramingError(detail))
                 && ClosedBy(c.core, e, c.core.server.crypto, c.core.frameIndex) && after.buf == []
                 && e.events == [BytesReceived(id, |bytes|), FrameRejected(id, FramingCategory, detail),
                                 ConnectionClosed(id, FramingFailure)]
               else if |frames| > 64 then
                 && e.result == Err(LimitExceeded(FramesPerIter))
                 && ClosedBy(c.core, e, c.core.server.crypto, c.core.frameIndex) && after.buf == []
                 && e.events == [BytesReceived(id, |bytes|), FrameRejected(id, LimitCategory, FramesPerIter),
                                 ConnectionClosed(id, LimitReached)]
               else
                 var each := EachEffect(cipher, Awake(c.core), frames);
                 && e.core == each.core && e.result == each.result
                 && e.events == [BytesReceived(id, |bytes|)] + each.events
                 && after.buf == (if e.core.state == Closed then [] else rest)
  {
    hide Carve, Carved, EachEffect, NoSoundFrame, BigEndian, ClosingBegun, ClosingFinished;
    CarveVerdict(frames, rest, MAX_BODY_LEN);
    HeaderRefusedIff(frames, rest, MAX_BODY_LEN);
    HeaderErrors(frames, rest);
    ShutIsClosed(c.core);
    ShutIsClosed(Awake(c.core));
    var id, n := c.core.id, |bytes|;
    assert forall a: Event, b: Event :: [BytesReceived(id, n)] + [a, b] == [BytesReceived(id, n), a, b];
  }

  lemma HeaderErrors(frames: seq<RawBapFrame>, rest: Octets)
    requires (forall f <- frames :: Carved(f, MAX_BODY_LEN)) && NoSoundFrame(rest, MAX_BODY_LEN)
    ensures var e := Carve(RawBytesOf(frames) + rest, MAX_BODY_LEN).error;
            e.Some? ==>
              && |rest| >= 6
              && FramingDetail(e.value) == if rest[0] != 1 then InvalidMagicSeen
                                           else if rest[1] != 1 && rest[1] != 2 then InvalidKindSeen else OversizedFrame
  {
    hide Carve, NoSoundFrame, Carved, BigEndian;
    CarveVerdict(frames, rest, MAX_BODY_LEN);
    var e := Carve(RawBytesOf(frames) + rest, MAX_BODY_LEN).error;
    if e.Some? {
      match e.value {
        case InvalidMagic(b) =>
        case InvalidKind(b) =>
        case FrameTooLarge(n) =>
        case IncompleteAtEnd(n) =>
      }
    }
  }

  lemma ShutIsClosed(core: Core)
    ensures var s := Shut(core);
            && s.state == Closed && s.server.state == Protocol.Closed && s.stream == None
            && s.server.crypto == core.server.crypto && s.server.policy == core.server.policy
            && s.outbound == core.outbound && s.frameIndex == core.frameIndex && s.id == core.id
  {
  }

  /** Ending an open connection closes both sessions, lets the socket and the buffer go, and logs the
      reason once; ending a closed one does nothing, and neither does feeding it. */
  lemma EndVerdict(cipher: Cipher, c: Connection, reason: Reason, bytes: Octets)
    ensures var after := Ended(c, reason);
            if c.core.state == Closed then after == c
            else
              && after.core.state == Closed && after.core.server.state == Protocol.Closed && after.core.stream == None
              && after.buf == [] && after.events == c.events + [ConnectionClosed(c.core.id, reason)]
              && after.core.server.crypto == c.core.server.crypto && after.core.outbound == c.core.outbound
              && after.core.frameIndex == c.core.frameIndex
    ensures !IsOpen(c.core) ==>
              && Fed(cipher, c, bytes) == c
              && FeedEffect(cipher, c.core, c.buf, bytes).result == Err(AlreadyClosed)
  {
    ShutIsClosed(c.core);
    assert c.events + [] == c.events;
  }

  /** What a reply puts on its way is what a client with the same key and nonce reads: the message of the
      action, clear or encrypted as it says. */
  lemma ReplyIsReadable(cipher: Cipher, core: Core, action: Policy.ResponseAction, client: Context)
    requires Lawful(cipher) && core.stream == None && Encodable(action)
    requires action.SendClear? || action.SendEncrypted?
    requires client.key == core.server.crypto.key && client.s2c.nonce == core.server.crypto.s2c.nonce
    ensures var e := Applied(cipher, core, action);
            && e.result == Ok(()) && e.events == [] && |e.core.outbound| == |core.outbound| + 1
            && core.outbound <= e.core.outbound
            && var wire := e.core.outbound[|core.outbound|];
               Decoding(cipher, client, ServerToClient, wire).1 ==
               Ok(if action.SendClear? then ClearFrame(action.msgId, action.context, action.payload)
                  else DecryptedFrame(Some(action.msgId), Some(action.context), action.payload, 6 + |action.payload|))
  {
    hide Decoding, Encoding, ClearRaw;
    FrameRoundTrip(cipher, core.server.crypto, client, ServerToClient, action.msgId, action.context, action.payload);
  }
}
