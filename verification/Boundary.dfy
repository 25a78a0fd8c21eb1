/** One connection of an external client: received bytes to frames, frames to the stateful
    session, replies to the outbound queue, and an event for everything that happens. */
module Boundary {
  import opened Bytes
  import opened Sockets
  import opened Aead
  import opened GcmNonce
  import opened Framing
  import opened StreamFraming
  import opened Session
  import opened StatefulSession
  import Codec = MessageCodec
  import Protocol = ProtocolState
  import Policy = ResponsePolicy

  const DEFAULT_MAX_READ_CHUNK := 4096
  const DEFAULT_MAX_BUFFERED := MAX_BODY_LEN + 64
  const DEFAULT_MAX_FRAMES_PER_ITER := 64

  datatype ConnectionState = Opened | Reading | ProtocolActive | Closing | Closed

  datatype Category = FramingCategory | ProtocolCategory | CryptoCategory | LimitCategory | OtherCategory

  datatype Detail =
    | BufferedBytesExceeded
    | FramesPerIter
    | InvalidMagicSeen
    | InvalidKindSeen
    | OversizedFrame
    | IncompleteStream
    | GcmDecryptFailed
    | AuthCrypto
    | BadMessage
    | BadState
    | OutOfSequence
    | PolicyReject

  datatype BoundaryError =
    | LimitExceeded(limit: Detail)
    | FramingError(framing: Detail)
    | CryptoError(session: BapSessionError)
    | ProtocolError(protocol: Detail)
    | IoError
    | AlreadyClosed

  datatype Reason =
    | LimitReached
    | FramingFailure
    | CryptoFailure
    | ProtocolReject
    | PolicyRejected
    | Eof
    | Given(text: string)

  datatype Label = RejectedLabel | MessageLabel(id: u16, advanced: bool)

  datatype Event =
    | ConnectionAccepted(connectionId: u64)
    | BytesReceived(connectionId: u64, byteLen: nat)
    | FrameRecovered(connectionId: u64, frameIndex: nat, kind: byte, bodyLen: nat)
    | FrameRejected(connectionId: u64, category: Category, detail: Detail)
    | ProtocolNote(connectionId: u64, protocolState: Protocol.ProtocolState, note: Label)
    | ConnectionFailed(connectionId: u64, category: Category, error: BoundaryError)
    | ConnectionClosed(connectionId: u64, reason: Reason)

  /** A connection without its buffer and event log. */
  datatype Core = Core(
    id: u64, state: ConnectionState, server: Server, frameIndex: nat, outbound: seq<Octets>, stream: Option<Outlet>)

  datatype Connection = Connection(core: Core, buf: Octets, events: seq<Event>)

  /** The core a step leaves, the events it logs, and its result. */
  datatype Effect<T> = Effect(core: Core, events: seq<Event>, result: Result<T, BoundaryError>)

  ghost function After<T>(events: seq<Event>, e: Effect<T>): Effect<T> { e.(events := events + e.events) }

  ghost function Shut(core: Core): (shut: Core)
    ensures shut.state == Closed
  {
    core.(state := Closed, server := ClosingFinished(ClosingBegun(core.server)), stream := None)
  }

  /** Logs the refusal, closes, and fails. */
  ghost function Refused<T>(core: Core, category: Category, detail: Detail, reason: Reason, error: BoundaryError)
    : Effect<T>
  {
    Effect(Shut(core), [FrameRejected(core.id, category, detail), ConnectionClosed(core.id, reason)], Err(error))
  }

  /** The body of a reply as the message codec writes it. */
  function EncodeViaCodec(msgId: u16, context: u32, payload: Octets): Octets {
    match Codec.EncodeMessage(Codec.Unparsed(msgId, context, ServerToClient, payload))
    case Ok(body) => body
    case Err(_) => payload
  }

  /** A reply whose frame has a length field wide enough for it. */
  ghost predicate Encodable(action: Policy.ResponseAction) {
    && (action.SendClear? ==> CLEAR_HEADER_LEN + |action.payload| < U32_LIMIT)
    && (action.SendEncrypted? ==> TAG_LEN + CLEAR_HEADER_LEN + |action.payload| < U32_LIMIT)
  }

  /** A reply goes to the socket if one is attached, and is queued otherwise. */
  ghost function WriteEffect(core: Core, bytes: Octets): Effect<()> {
    match core.stream
    case None => Effect(core.(outbound := core.outbound + [bytes]), [], Ok(()))
    case Some(s) =>
      Effect(core.(stream := Some(s.Write(bytes))), [], if s.Takes(bytes) then Ok(()) else Err(IoError))
  }

  ghost function Applied(cipher: Cipher, core: Core, action: Policy.ResponseAction): Effect<()> {
    match action
    case SendClear(id, context, payload) => WriteEffect(core, ClearRaw(id, context, payload))
    case SendEncrypted(id, context, payload) =>
      var (crypto, sent) := Encoding(cipher, core.server.crypto, ServerToClient, id, context, payload);
      var core' := core.(server := core.server.(crypto := crypto));
      (match sent
       case Err(e) => Effect(core', [], Err(CryptoError(e)))
       case Ok(wire) => WriteEffect(core', wire))
    case RejectMessage => Refused(core, ProtocolCategory, PolicyReject, PolicyRejected, ProtocolError(PolicyReject))
    case _ => Effect(core, [], Ok(()))
  }

  ghost function AppliedAll(cipher: Cipher, core: Core, actions: seq<Policy.ResponseAction>): Effect<()>
    decreases |actions|
  {
    if actions == [] then Effect(core, [], Ok(()))
    else
      var e := Applied(cipher, core, actions[0]);
      if e.result.Err? then e else After(e.events, AppliedAll(cipher, e.core, actions[1..]))
  }

  ghost function MessageEffect(cipher: Cipher, core: Core, r: Result<HandleResult, Protocol.ProtocolStateError>)
    : Effect<()>
  {
    match r
    case Err(_) => Effect(core, [FrameRejected(core.id, ProtocolCategory, BadState)], Err(ProtocolError(BadState)))
    case Ok(h) =>
      if h.transition.Rejected? then Unwanted(core)
      else
        var core' := core.(state := if core.state == Reading then ProtocolActive else core.state);
        After([ProtocolNote(core.id, core.server.state, MessageLabel(h.message.Id(), h.transition.Advanced?))],
              AppliedAll(cipher, core', h.actions))
  }

  ghost function Unwanted(core: Core): Effect<()> {
    Effect(Shut(core), [FrameRejected(core.id, ProtocolCategory, OutOfSequence),
                        ProtocolNote(core.id, core.server.state, RejectedLabel),
                        ConnectionClosed(core.id, ProtocolReject)], Err(ProtocolError(OutOfSequence)))
  }

  ghost function FrameEffect(cipher: Cipher, core: Core, frame: DecodedBapFrame): Effect<()> {
    match Codec.DecodeFromFrame(frame, ClientToServer)
    case Err(_) => Effect(core, [FrameRejected(core.id, ProtocolCategory, BadMessage)], Err(ProtocolError(BadMessage)))
    case Ok(m) =>
      var (server, r) := Handled(core.server, m);
      MessageEffect(cipher, core.(server := server), r)
  }

  ghost function RawEffect(cipher: Cipher, core: Core, raw: RawBapFrame): Effect<()> {
    var (crypto, decoded) := Decoding(cipher, core.server.crypto, ClientToServer, raw.rawBytes);
    var core' := core.(frameIndex := core.frameIndex + 1, server := core.server.(crypto := crypto));
    After([FrameRecovered(core.id, core.frameIndex, raw.kind, |raw.body|)],
          match decoded
          case Ok(frame) => FrameEffect(cipher, core', frame)
          case Err(e) => Undecodable(core', e))
  }

  ghost function Undecodable(core: Core, e: BapSessionError): Effect<()> {
    Refused(core, CryptoCategory, if e == DecryptFailed then GcmDecryptFailed else AuthCrypto, CryptoFailure,
            CryptoError(e))
  }

  /** Frames in order up to the first that fails. */
  ghost function EachEffect(cipher: Cipher, core: Core, raws: seq<RawBapFrame>): Effect<nat>
    decreases |raws|
  {
    if raws == [] then Effect(core, [], Ok(0))
    else
      var e := RawEffect(cipher, core, raws[0]);
      match e.result
      case Err(error) => Effect(e.core, e.events, Err(error))
      case Ok(_) =>
        var later := EachEffect(cipher, e.core, raws[1..]);
        After(e.events, later.(result := match later.result case Ok(n) => Ok(n + 1) case Err(error) => Err(error)))
  }

  ghost function Awake(core: Core): Core {
    core.(state := if core.state == Opened then Reading else core.state)
  }

  function FramingDetail(e: StreamFramingError): Detail {
    match e
    case InvalidMagic(_) => InvalidMagicSeen
    case InvalidKind(_) => InvalidKindSeen
    case FrameTooLarge(_) => OversizedFrame
    case IncompleteAtEnd(_) => IncompleteStream
  }

  ghost function IngestEffect(cipher: Cipher, core: Core, c: Carving): Effect<nat> {
    if c.error.Some? then
      var detail := FramingDetail(c.error.value);
      Refused(core, FramingCategory, detail, FramingFailure, FramingError(detail))
    else if |c.frames| > DEFAULT_MAX_FRAMES_PER_ITER then
      Refused(core, LimitCategory, FramesPerIter, LimitReached, LimitExceeded(FramesPerIter))
    else EachEffect(cipher, core, c.frames)
  }

  ghost function FeedEffect(cipher: Cipher, core: Core, buf: Octets, bytes: Octets): Effect<nat> {
    if core.state == Closed || core.state == Closing then Effect(core, [], Err(AlreadyClosed))
    else if |buf| + |bytes| > DEFAULT_MAX_BUFFERED then
      Refused(core, LimitCategory, BufferedBytesExceeded, LimitReached, LimitExceeded(BufferedBytesExceeded))
    else
      After([BytesReceived(core.id, |bytes|)], IngestEffect(cipher, Awake(core), Carve(buf + bytes, MAX_BODY_LEN)))
  }

  /** Feeding: the log grows by the events of the effect; the buffer keeps what was not carved,
      and a connection that closes starts it afresh. */
  ghost function Fed(cipher: Cipher, c: Connection, bytes: Octets): Connection {
    var e := FeedEffect(cipher, c.core, c.buf, bytes);
    Connection(e.core,
               if c.core.state == Closed || c.core.state == Closing then c.buf
               else if e.core.state == Closed then [] else Carve(c.buf + bytes, MAX_BODY_LEN).rest,
               c.events + e.events)
  }

  ghost function Ended(c: Connection, reason: Reason): Connection {
    if c.core.state == Closed then c
    else Connection(Shut(c.core), [], c.events + [ConnectionClosed(c.core.id, reason)])
  }

  ghost function Initial(id: u64, key: Key, nonce: Nonce): Connection {
    Connection(Core(id, Opened, Started(id, key, nonce), 0, [], None), [], [ConnectionAccepted(id)])
  }

  lemma AppliedKeepsState(cipher: Cipher, core: Core, action: Policy.ResponseAction)
    ensures Applied(cipher, core, action).result.Ok? ==> Applied(cipher, core, action).core.state == core.state
  {
  }

  class ExternalClientConnection {
    const connectionId: u64
    var connState: ConnectionState
    var decoder: BapStreamDecoder
    const stateful: StatefulBapSession
    var events: seq<Event>
    var frameIndex: nat
    var outbound: seq<Octets>
    var stream: Option<Outlet>

    ghost predicate Valid()
      reads this, stateful, stateful.session.Repr
    {
      && stateful.Valid() && this !in stateful.session.Repr && decoder !in stateful.session.Repr
      && decoder.maxBodyLen == MAX_BODY_LEN
    }

    ghost function CoreValue(): Core
      requires Valid()
      reads this, stateful, stateful.session.Repr
    {
      Core(connectionId, connState, stateful.Value(), frameIndex, outbound, stream)
    }

    ghost function Value(): Connection
      requires Valid()
      reads this, stateful, stateful.session.Repr, decoder
    {
      Connection(CoreValue(), decoder.buf, events)
    }

    constructor Over(id: u64, stateful: StatefulBapSession)
      requires stateful.Valid()
      ensures Valid() && this.stateful == stateful && fresh(decoder)
      ensures Value() == Connection(Core(id, Opened, stateful.Value(), 0, [], None), [], [ConnectionAccepted(id)])
    {
      connectionId, this.stateful, connState := id, stateful, Opened;
      decoder := new BapStreamDecoder();
      events, frameIndex, outbound, stream := [], 0, [], None;
      new;
      PushEvent(ConnectionAccepted(id));
    }

    static method WithMaterial(cipher: Cipher, id: u64, key: Key, nonce: Nonce) returns (c: ExternalClientConnection)
      requires Lawful(cipher)
      ensures c.Valid() && fresh(c) && c.stateful.session.cipher == cipher && c.Value() == Initial(id, key, nonce)
    {
      var s := StatefulBapSession.WithMaterial(cipher, id, key, nonce);
      c := new ExternalClientConnection.Over(id, s.value);
    }

    method PushEvent(e: Event)
      modifies this`events
      ensures events == old(events) + [e]
    {
      events := events + [e];
    }

    method TakeOutbound() returns (out: seq<Octets>)
      modifies this`outbound
      ensures out == old(outbound) && outbound == []
    {
      out := outbound;
      outbound := [];
    }

    method AttachStream(socket: Outlet)
      requires Valid()
      modifies this`stream
      ensures Valid() && Value() == old(Value()).(core := old(CoreValue()).(stream := Some(socket)))
    {
      stream := Some(socket);
    }

    method WriteOut(bytes: Octets) returns (r: Result<(), BoundaryError>)
      requires Valid()
      modifies this`stream, this`outbound
      ensures Valid() && CoreValue() == WriteEffect(old(CoreValue()), bytes).core
      ensures r == WriteEffect(old(CoreValue()), bytes).result
    {
      if stream.Some? {
        r := if stream.value.Takes(bytes) then Ok(()) else Err(IoError);
        stream := Some(stream.value.Write(bytes));
        return;
      }
      outbound := outbound + [bytes];
      return Ok(());
    }

    method RejectFrame(category: Category, detail: Detail)
      modifies this`events
      ensures events == old(events) + [FrameRejected(connectionId, category, detail)]
    {
      PushEvent(FrameRejected(connectionId, category, detail));
    }

    /** Logs a refusal and closes. */
    method Refuse(category: Category, detail: Detail, reason: Reason)
      requires Valid() && connState != Closed
      modifies this, stateful
      ensures Valid() && (decoder == old(decoder) || fresh(decoder)) && decoder.buf == []
      ensures CoreValue() == Shut(old(CoreValue()))
      ensures events == old(events) + [FrameRejected(connectionId, category, detail),
          ConnectionClosed(connectionId, reason)]
    {
      hide ClosingBegun, ClosingFinished;
      RejectFrame(category, detail);
      BeginClose(reason);
    }

    /** Closing twice is closing once. */
    method BeginClose(reason: Reason)
      requires Valid()
      modifies this, stateful
      ensures Valid() && Value() == Ended(old(Value()), reason) && (decoder == old(decoder) || fresh(decoder))
    {
      hide ClosingBegun, ClosingFinished;
      if connState == Closed {
        return;
      }
      connState := Closing;
      stateful.BeginClose();
      stream := None;
      stateful.FinishClose();
      connState := Closed;
      PushEvent(ConnectionClosed(connectionId, reason));
      decoder := new BapStreamDecoder();
    }

    method NotifyEof()
      requires Valid()
      modifies this, stateful
      ensures Valid() && Value() == Ended(old(Value()), Eof) && (decoder == old(decoder) || fresh(decoder))
    {
      BeginClose(Eof);
    }

    /** What a step does to the whole connection: a step that closes it empties the buffer. */
    twostate predicate Does<T>(new e: Effect<T>, new r: Result<T, BoundaryError>)
      requires old(Valid())
      reads this, stateful, stateful.session.Repr, decoder
    {
      && Valid() && (decoder == old(decoder) || fresh(decoder)) && (e.core.state != Closed ==> decoder == old(decoder))
      && CoreValue() == e.core && events == old(events) + e.events && r == e.result
      && decoder.buf == if e.core.state == Closed then [] else old(decoder.buf)
    }

    method ApplyResponse(action: Policy.ResponseAction) returns (r: Result<(), BoundaryError>)
      requires Valid() && connState != Closed
      requires Encodable(action)
      modifies this, stateful, stateful.session.Repr
      ensures Does(Applied(stateful.session.cipher, old(CoreValue()), action), r)
    {
      match action {
        case SendClear(id, context, payload) =>
          var body := EncodeViaCodec(id, context, payload);
          r := WriteOut(BapSession.EncodeClear(id, context, body));
        case SendEncrypted(id, context, payload) =>
          var body := EncodeViaCodec(id, context, payload);
          var sent := stateful.session.EncodeEncrypted(ServerToClient, id, context, body);
          match sent {
            case Err(e) => return Err(CryptoError(e));
            case Ok(wire) => r := WriteOut(wire);
          }
        case ObserveOnly | NoAction => return Ok(());
        case RejectMessage =>
          Refuse(ProtocolCategory, PolicyReject, PolicyRejected);
          return Err(ProtocolError(PolicyReject));
      }
    }

    method HandleRawFrame(raw: RawBapFrame) returns (r: Result<(), BoundaryError>)
      requires Valid() && (connState == Reading || connState == ProtocolActive)
      modifies this, stateful, stateful.session.Repr
      ensures Does(RawEffect(stateful.session.cipher, old(CoreValue()), raw), r)
    {
      hide Decoding, FrameEffect, Undecodable;
      var index := frameIndex;
      frameIndex := frameIndex + 1;
      PushEvent(FrameRecovered(connectionId, index, raw.kind, |raw.body|));
      var decoded := stateful.session.DecodeFrame(ClientToServer, raw.rawBytes);
      match decoded {
        case Err(e) => r := RefuseUndecodable(e);
        case Ok(frame) => r := HandleFrame(frame);
      }
    }

    /** A frame that the session could not decode closes the connection. */
    method RefuseUndecodable(e: BapSessionError) returns (r: Result<(), BoundaryError>)
      requires Valid() && connState != Closed
      modifies this, stateful
      ensures Does(Undecodable(old(CoreValue()), e), r)
    {
      hide ClosingBegun, ClosingFinished;
      Refuse(CryptoCategory, if e == DecryptFailed then GcmDecryptFailed else AuthCrypto, CryptoFailure);
      return Err(CryptoError(e));
    }

    /** The second half of frame handling, after decryption. */
    method HandleFrame(frame: DecodedBapFrame) returns (r: Result<(), BoundaryError>)
      requires Valid() && (connState == Reading || connState == ProtocolActive)
      modifies this, stateful, stateful.session.Repr
      ensures Does(FrameEffect(stateful.session.cipher, old(CoreValue()), frame), r)
    {
      hide Handled, MessageEffect, Codec.DecodeFromFrame;
      ghost var decoded := Codec.DecodeFromFrame(frame, ClientToServer);
      if decoded.Ok? {
        HandledShape(stateful.Value(), decoded.value);
      }
      var handled := stateful.HandleDecodedFrame(frame, ClientToServer);
      if handled.Err? && handled.error.InvalidMessage? {
        RejectFrame(ProtocolCategory, BadMessage);
        return Err(ProtocolError(BadMessage));
      }
      r := Conclude(handled);
    }

    /** What follows once the session has handled a message. */
    method Conclude(handled: Result<HandleResult, Protocol.ProtocolStateError>) returns (r: Result<(), BoundaryError>)
      requires Valid() && (connState == Reading || connState == ProtocolActive)
      requires handled.Ok? ==> forall a <- handled.value.actions :: Encodable(a)
      modifies this, stateful, stateful.session.Repr
      ensures Does(MessageEffect(stateful.session.cipher, old(CoreValue()), handled), r)
    {
      hide AppliedAll, Unwanted;
      if handled.Err? {
        RejectFrame(ProtocolCategory, BadState);
        return Err(ProtocolError(BadState));
      }
      var h := handled.value;
      if h.transition.Rejected? {
        r := RejectMessage();
        return;
      }
      if connState == Reading {
        connState := ProtocolActive;
      }
      PushEvent(ProtocolNote(connectionId, stateful.protocolState,
          MessageLabel(h.message.Id(), h.transition.Advanced?)));
      r := ApplyEach(h.actions);
    }

    /** A message out of sequence closes the connection. */
    method RejectMessage() returns (r: Result<(), BoundaryError>)
      requires Valid() && connState != Closed
      modifies this, stateful
      ensures Does(Unwanted(old(CoreValue())), r)
    {
      hide ClosingBegun, ClosingFinished;
      RejectFrame(ProtocolCategory, OutOfSequence);
      PushEvent(ProtocolNote(connectionId, stateful.protocolState, RejectedLabel));
      BeginClose(ProtocolReject);
      return Err(ProtocolError(OutOfSequence));
    }

    /** The reply loop of frame handling. */
    method ApplyEach(actions: seq<Policy.ResponseAction>) returns (r: Result<(), BoundaryError>)
      requires Valid() && connState != Closed
      requires forall a <- actions :: Encodable(a)
      modifies this, stateful, stateful.session.Repr
      ensures Does(AppliedAll(stateful.session.cipher, old(CoreValue()), actions), r)
    {
      hide Applied, ClosingBegun, ClosingFinished;
      ghost var whole := AppliedAll(stateful.session.cipher, CoreValue(), actions);
      assert actions[0..] == actions;
      for i := 0 to |actions|
        invariant Valid() && connState != Closed && decoder == old(decoder) && decoder.buf == old(decoder.buf)
        invariant var rest := AppliedAll(stateful.session.cipher, CoreValue(), actions[i..]);
                  && whole.core == rest.core && whole.result == rest.result
                  && old(events) + whole.events == events + rest.events
      {
        ghost var before := CoreValue();
        assert actions[i..][1..] == actions[i + 1..];
        var applied := ApplyResponse(actions[i]);
        AppliedKeepsState(stateful.session.cipher, before, actions[i]);
        if applied.Err? {
          return Err(applied.error);
        }
      }
      return Ok(());
    }

    method FeedBytes(bytes: Octets) returns (r: Result<nat, BoundaryError>)
      requires Valid()
      modifies this, stateful, stateful.session.Repr, decoder
      ensures Valid() && (decoder == old(decoder) || fresh(decoder))
      ensures Value() == Fed(stateful.session.cipher, old(Value()), bytes)
      ensures r == FeedEffect(stateful.session.cipher, old(CoreValue()), old(decoder.buf), bytes).result
    {
      hide Carve, IngestEffect, Shut;
      if connState == Closed || connState == Closing {
        return Err(AlreadyClosed);
      }
      if |decoder.buf| + |bytes| > DEFAULT_MAX_BUFFERED {
        Refuse(LimitCategory, BufferedBytesExceeded, LimitReached);
        return Err(LimitExceeded(BufferedBytesExceeded));
      }
      PushEvent(BytesReceived(connectionId, |bytes|));
      if connState == Opened {
        connState := Reading;
      }
      r := Ingest(bytes);
    }

    /** The second half of feeding, once the bytes are let in. */
    method Ingest(bytes: Octets) returns (r: Result<nat, BoundaryError>)
      requires Valid() && (connState == Reading || connState == ProtocolActive)
      modifies this, stateful, stateful.session.Repr, decoder
      ensures Valid() && (decoder == old(decoder) || fresh(decoder))
      ensures var c := Carve(old(decoder.buf) + bytes, MAX_BODY_LEN);
              var e := IngestEffect(stateful.session.cipher, old(CoreValue()), c);
              && CoreValue() == e.core && events == old(events) + e.events && r == e.result
              && decoder.buf == if e.core.state == Closed then [] else c.rest
    {
      hide Carve, EachEffect, Shut;
      var pushed := decoder.Push(bytes);
      if pushed.Err? {
        var detail := FramingDetail(pushed.error);
        Refuse(FramingCategory, detail, FramingFailure);
        return Err(FramingError(detail));
      }
      var frames := pushed.value;
      if |frames| > DEFAULT_MAX_FRAMES_PER_ITER {
        Refuse(LimitCategory, FramesPerIter, LimitReached);
        return Err(LimitExceeded(FramesPerIter));
      }
      r := HandleEach(frames);
    }

    /** The frame loop of feeding. */
    method HandleEach(frames: seq<RawBapFrame>) returns (r: Result<nat, BoundaryError>)
      requires Valid() && (connState == Reading || connState == ProtocolActive)
      modifies this, stateful, stateful.session.Repr
      ensures Does(EachEffect(stateful.session.cipher, old(CoreValue()), frames), r)
    {
      hide RawEffect, ClosingBegun, ClosingFinished;
      var processed := 0;
      ghost var whole := EachEffect(stateful.session.cipher, CoreValue(), frames);
      assert frames[0..] == frames;
      while processed < |frames|
        invariant processed <= |frames|
        invariant Valid() && (connState == Reading || connState == ProtocolActive)
        invariant decoder == old(decoder) && decoder.buf == old(decoder.buf) && old(events) <= events
        invariant var rest := EachEffect(stateful.session.cipher, CoreValue(), frames[processed..]);
                  && whole.core == rest.core && old(events) + whole.events == events + rest.events
                  && whole.result == match rest.result case Ok(n) => Ok(processed + n) case Err(e) => Err(e)
      {
        ghost var before := CoreValue();
        ghost var logged := events;
        assert frames[processed..][1..] == frames[processed + 1..];
        var handled := HandleRawFrame(frames[processed]);
        ghost var e := RawEffect(stateful.session.cipher, before, frames[processed]);
        if handled.Err? {
          return Err(handled.error);
        }
        StaysOpen(stateful.session.cipher, before, frames[processed]);
        processed := processed + 1;
      }
      return Ok(processed);
    }
  }

  /** Replies never close a connection, and a frame handled without error leaves it active. */
  lemma StaysOpen(cipher: Cipher, core: Core, raw: RawBapFrame)
    requires core.state == Reading || core.state == ProtocolActive
    ensures var e := RawEffect(cipher, core, raw);
            e.result.Ok? ==> e.core.state == ProtocolActive
  {
    hide Decoding, Handled, Applied;
    var (crypto, decoded) := Decoding(cipher, core.server.crypto, ClientToServer, raw.rawBytes);
    if decoded.Ok? {
      var m := Codec.DecodeFromFrame(decoded.value, ClientToServer);
      if m.Ok? {
        var (server, r) := Handled(core.server.(crypto := crypto), m.value);
        if r.Ok? {
          AppliedAllKeepsState(cipher,
              core.(state := ProtocolActive, server := server, frameIndex := core.frameIndex + 1), r.value.actions);
        }
      }
    }
  }

  lemma {:induction false} AppliedAllKeepsState(cipher: Cipher, core: Core, actions: seq<Policy.ResponseAction>)
    ensures var e := AppliedAll(cipher, core, actions); e.result.Ok? ==> e.core.state == core.state
    decreases |actions|
  {
    hide Encoding;
    if actions == [] {
    } else {
      AppliedKeepsState(cipher, core, actions[0]);
      AppliedAllKeepsState(cipher, Applied(cipher, core, actions[0]).core, actions[1..]);
    }
  }
}
