/** Logical messages and their bodies. Only 0x1A has an inner structure; every other body is
    kept as it is. */
module MessageCodec {
  import opened Bytes
  import opened GcmNonce
  import opened Session

  type Block16 = b: Octets | |b| == 16 witness seq(16, _ => 0)
  type Block32 = b: Octets | |b| == 32 witness seq(32, _ => 0)

  datatype CodecError = InvalidPayloadLength | InvalidFieldLength | InvalidRecordLength | MalformedMessage

  datatype Envelope = Envelope(id: u16, context: u32, direction: Direction, payload: Octets)

  /** Initialisation vector and MAC; a record may have no ciphertext at all. */
  const MIN_RECORD_LEN := 0x30

  datatype SessionLoginResponseRecord = SessionLoginResponseRecord(
    prefix: u16, recordLen: u32, iv: Block16, ciphertext: Octets, hmac: Block32)
  {
    function ValidateLengths(): Result<(), CodecError> {
      if recordLen < MIN_RECORD_LEN then Err(InvalidRecordLength)
      else if |ciphertext| != recordLen - 0x30 then Err(InvalidFieldLength)
      else Ok(())
    }

    function EncodePayload(): Result<Octets, CodecError> {
      match ValidateLengths()
      case Err(e) => Err(e)
      case Ok(_) => Ok(U16Be(prefix) + U32Be(recordLen) + iv + ciphertext + hmac)
    }

    static function DecodePayload(payload: Octets): Result<SessionLoginResponseRecord, CodecError> {
      if |payload| < 6 + MIN_RECORD_LEN then Err(InvalidPayloadLength)
      else
        var prefix, recordLen := FromU16Be(payload[0..2]), FromU32Be(payload[2..6]);
        if recordLen < MIN_RECORD_LEN then Err(InvalidRecordLength)
        else if |payload| != 6 + recordLen then Err(InvalidPayloadLength)
        else
          var material := payload[6..];
          var cipherLen := recordLen - 0x30;
          var rec := SessionLoginResponseRecord(prefix, recordLen, material[0..16], material[16..16 + cipherLen],
                                                material[16 + cipherLen..16 + cipherLen + 32]);
          match rec.ValidateLengths() case Ok(_) => Ok(rec) case Err(e) => Err(e)
    }
  }

  datatype OpaquePayload = OpaquePayload(context: u32, direction: Direction, payload: Octets)

  datatype KnownBapMessage =
    | DestinyServiceHandshakeRequest(body: OpaquePayload)
    | DestinyServiceHandshakeResponse(body: OpaquePayload)
    | SessionLoginRequest(body: OpaquePayload)
    | SessionLoginResponse(context: u32, direction: Direction,
                           record: Option<SessionLoginResponseRecord>, rawPayload: Octets)
    | EncryptedHandshakeRequest(body: OpaquePayload)
    | EncryptedHandshakeStatus(body: OpaquePayload)
    | Message0x12E(body: OpaquePayload)
    | Message0x12F(body: OpaquePayload)
    | Message0xFA(body: OpaquePayload)
    | Message0xFB(body: OpaquePayload)

  datatype BapMessage =
    | Known(known: KnownBapMessage)
    | Unknown(id: u16, context: u32, direction: Direction, payload: Octets)
  {
    function Id(): u16 {
      match this
      case Unknown(id, _, _, _) => id
      case Known(k) =>
        match k
        case DestinyServiceHandshakeRequest(_) => 0x1E
        case DestinyServiceHandshakeResponse(_) => 0x1F
        case SessionLoginRequest(_) => 0x19
        case SessionLoginResponse(_, _, _, _) => 0x1A
        case EncryptedHandshakeRequest(_) => 0x79
        case EncryptedHandshakeStatus(_) => 0x7A
        case Message0x12E(_) => 0x12E
        case Message0x12F(_) => 0x12F
        case Message0xFA(_) => 0xFA
        case Message0xFB(_) => 0xFB
    }

    function Context(): u32 {
      match this
      case Unknown(_, context, _, _) => context
      case Known(k) => if k.SessionLoginResponse? then k.context else k.body.context
    }

    function Direction(): Direction {
      match this
      case Unknown(_, _, direction, _) => direction
      case Known(k) => if k.SessionLoginResponse? then k.direction else k.body.direction
    }
  }

  /** The message of an id, a 0x1A body left unparsed. */
  function Unparsed(id: u16, context: u32, direction: Direction, payload: Octets): BapMessage {
    var o := OpaquePayload(context, direction, payload);
    match id
    case 0x1E => Known(DestinyServiceHandshakeRequest(o))
    case 0x1F => Known(DestinyServiceHandshakeResponse(o))
    case 0x19 => Known(SessionLoginRequest(o))
    case 0x1A => Known(SessionLoginResponse(context, direction, None, payload))
    case 0x79 => Known(EncryptedHandshakeRequest(o))
    case 0x7A => Known(EncryptedHandshakeStatus(o))
    case 0x12E => Known(Message0x12E(o))
    case 0x12F => Known(Message0x12F(o))
    case 0xFA => Known(Message0xFA(o))
    case 0xFB => Known(Message0xFB(o))
    case _ => Unknown(id, context, direction, payload)
  }

  /** Decoding never fails: a 0x1A body that is not a record is kept raw. */
  function DecodeMessage(env: Envelope): BapMessage {
    var m := Unparsed(env.id, env.context, env.direction, env.payload);
    match m
    case Known(SessionLoginResponse(context, direction, _, raw)) =>
      var record := match SessionLoginResponseRecord.DecodePayload(raw) case Ok(r) => Some(r) case Err(_) => None;
      Known(SessionLoginResponse(context, direction, record, raw))
    case _ => m
  }

  function EncodeMessage(message: BapMessage): Result<Octets, CodecError> {
    match message
    case Unknown(_, _, _, payload) => Ok(payload)
    case Known(SessionLoginResponse(_, _, record, raw)) =>
      if record.Some? then record.value.EncodePayload() else Ok(raw)
    case Known(k) => Ok(k.body.payload)
  }

  function DecodeFromFrame(frame: DecodedBapFrame, direction: Direction): Result<BapMessage, CodecError> {
    match frame
    case ClearFrame(id, context, payload) => Ok(DecodeMessage(Envelope(id, context, direction, payload)))
    case DecryptedFrame(Some(id), Some(context), payload, _) =>
      Ok(DecodeMessage(Envelope(id, context, direction, payload)))
    case _ => Err(MalformedMessage)
  }

  function Reenvelope(message: BapMessage, payload: Octets): Envelope {
    Envelope(message.Id(), message.Context(), message.Direction(), payload)
  }

  /** Encodes, decodes and compares the encodings. */
  function RoundtripOk(message: BapMessage): Result<bool, CodecError> {
    match EncodeMessage(message)
    case Err(e) => Err(e)
    case Ok(encoded) =>
      match EncodeMessage(DecodeMessage(Reenvelope(message, encoded)))
      case Err(e) => Err(e)
      case Ok(again) => Ok(again == encoded)
  }

  lemma EncodedRecordDecodes(rec: SessionLoginResponseRecord)
    requires rec.ValidateLengths().Ok?
    ensures SessionLoginResponseRecord.DecodePayload(rec.EncodePayload().value) == Ok(rec)
  {
    var payload := rec.EncodePayload().value;
    BigEndianRoundTrips(rec.prefix, rec.recordLen, U16Be(rec.prefix), U32Be(rec.recordLen));
    var n := rec.recordLen - 0x30;
    var material := rec.iv + rec.ciphertext + rec.hmac;
    assert payload == U16Be(rec.prefix) + U32Be(rec.recordLen) + material;
    assert payload[0..2] == U16Be(rec.prefix) && payload[2..6] == U32Be(rec.recordLen) && payload[6..] == material;
    assert material[0..16] == rec.iv && material[16..16 + n] == rec.ciphertext;
    assert material[16 + n..16 + n + 32] == rec.hmac;
  }

  /** Records and their byte form correspond one to one. */
  lemma RecordExactly(payload: Octets, rec: SessionLoginResponseRecord)
    ensures SessionLoginResponseRecord.DecodePayload(payload) == Ok(rec) <==> rec.EncodePayload() == Ok(payload)
  {
    var decoded := SessionLoginResponseRecord.DecodePayload(payload);
    if decoded == Ok(rec) {
      BigEndianRoundTrips(0, 0, payload[0..2], payload[2..6]);
      var material := payload[6..];
      var n := rec.recordLen - 0x30;
      assert material == material[0..16] + material[16..16 + n] + material[16 + n..16 + n + 32];
      assert material == rec.iv + rec.ciphertext + rec.hmac;
      assert payload == payload[0..2] + payload[2..6] + rec.iv + rec.ciphertext + rec.hmac;
    }
    if rec.EncodePayload() == Ok(payload) {
      EncodedRecordDecodes(rec);
    }
  }

  /** Where a record's fields are in its bytes: prefix and length in network order, initialisation
      vector, ciphertext, and MAC at the end. */
  lemma RecordLayout(payload: Octets, rec: SessionLoginResponseRecord)
    ensures rec.EncodePayload() == Ok(payload) <==>
              && |payload| >= 54
              && BigEndian(payload[..2]) == rec.prefix && BigEndian(payload[2..6]) == rec.recordLen == |payload| - 6
              && payload[6..22] == rec.iv && payload[22..|payload| - 32] == rec.ciphertext
              && payload[|payload| - 32..] == rec.hmac
  {
    hide U16Be, U32Be, FromU16Be, FromU32Be, BigEndian;
    var prefix, len := U16Be(rec.prefix), U32Be(rec.recordLen);
    BigEndianRoundTrips(rec.prefix, rec.recordLen, prefix, len);
    NetworkOrder(prefix, len);
    if rec.EncodePayload() == Ok(payload) {
      assert payload[..2] == prefix && payload[2..6] == len;
      assert payload[6..22] == rec.iv && payload[22..|payload| - 32] == rec.ciphertext;
      assert payload[|payload| - 32..] == rec.hmac;
    }
    if |payload| >= 54 {
      NetworkOrder(payload[..2], payload[2..6]);
      BigEndianRoundTrips(0, 0, payload[..2], payload[2..6]);
      var n := |payload| - 32;
      assert payload == payload[..2] + payload[2..6] + payload[6..22] + payload[22..n] + payload[n..];
    }
  }

  /** Why a payload is no record. */
  lemma NoRecordIff(payload: Octets)
    ensures var r := SessionLoginResponseRecord.DecodePayload(payload);
            && (r == Err(InvalidRecordLength) <==> |payload| >= 54 && BigEndian(payload[2..6]) < 48)
            && (r == Err(InvalidPayloadLength) <==>
                  |payload| < 54 || (BigEndian(payload[2..6]) >= 48 && |payload| != 6 + BigEndian(payload[2..6])))
            && (r.Err? ==> r.error.InvalidRecordLength? || r.error.InvalidPayloadLength?)
  {
    hide FromU16Be, FromU32Be, BigEndian;
    if |payload| >= 54 {
      NetworkOrder([0, 0], payload[2..6]);
    }
  }

  /** Exactly ten ids are known, each as a kind of its own. */
  lemma KnownIds(env: Envelope)
    ensures var m := DecodeMessage(env);
            && (m.Known? <==> env.id in {0x19, 0x1A, 0x1E, 0x1F, 0x79, 0x7A, 0xFA, 0xFB, 0x12E, 0x12F})
            && (m.Unknown? ==> m == Unknown(env.id, env.context, env.direction, env.payload))
            && (m.Known? && env.id != 0x1A ==>
                  var body := OpaquePayload(env.context, env.direction, env.payload);
                  m.known == (if env.id == 0x1E then DestinyServiceHandshakeRequest(body)
                              else if env.id == 0x1F then DestinyServiceHandshakeResponse(body)
                              else if env.id == 0x19 then SessionLoginRequest(body)
                              else if env.id == 0x79 then EncryptedHandshakeRequest(body)
                              else if env.id == 0x7A then EncryptedHandshakeStatus(body)
                              else if env.id == 0x12E then Message0x12E(body)
                              else if env.id == 0x12F then Message0x12F(body)
                              else if env.id == 0xFA then Message0xFA(body)
                              else Message0xFB(body)))
  {
  }

  /** A 0x1A payload is decoded to a record if and only if it is that record's encoding; one that is no
      record's encoding is kept raw. */
  lemma LoginRecordIff(env: Envelope)
    requires env.id == 0x1A
    ensures var m := DecodeMessage(env);
            && m.Known? && m.known.SessionLoginResponse? && m.known.rawPayload == env.payload
            && m.known.context == env.context && m.known.direction == env.direction
            && (forall rec :: m.known.record == Some(rec) <==> rec.EncodePayload() == Ok(env.payload))
            && (m.known.record.None? <==>
                  forall rec: SessionLoginResponseRecord :: rec.EncodePayload() != Ok(env.payload))
  {
    hide SessionLoginResponseRecord.DecodePayload, SessionLoginResponseRecord.EncodePayload;
    var decoded := SessionLoginResponseRecord.DecodePayload(env.payload);
    forall rec: SessionLoginResponseRecord ensures decoded == Ok(rec) <==> rec.EncodePayload() == Ok(env.payload)
    {
      RecordExactly(env.payload, rec);
    }
  }

  /** A decoded frame with an id and a context is a message from the direction it came in; others
      carry none. */
  lemma FrameMeans(frame: DecodedBapFrame, direction: Direction)
    ensures var r := DecodeFromFrame(frame, direction);
            && (r.Ok? <==> frame.ClearFrame? || (frame.DecryptedFrame? && frame.id.Some? && frame.context.Some?))
            && (r.Err? ==> r == Err(MalformedMessage))
            && (r.Ok? ==>
                  && r.value.Direction() == direction
                  && r.value.Id() == (if frame.ClearFrame? then frame.msgId else frame.id.value)
                  && r.value.Context() == (if frame.ClearFrame? then frame.clearContext else frame.context.value)
                  && EncodeMessage(r.value) == Ok(frame.payload))
  {
    if frame.ClearFrame? {
      EnvelopeRoundTrip(Envelope(frame.msgId, frame.clearContext, direction, frame.payload));
    } else if frame.DecryptedFrame? && frame.id.Some? && frame.context.Some? {
      EnvelopeRoundTrip(Envelope(frame.id.value, frame.context.value, direction, frame.payload));
    }
  }

  /** Decoding loses nothing: every envelope, whatever its id and payload, is rebuilt. */
  lemma EnvelopeRoundTrip(env: Envelope)
    ensures EncodeMessage(DecodeMessage(env)) == Ok(env.payload)
    ensures Reenvelope(DecodeMessage(env), env.payload) == env
  {
    if env.id == 0x1A {
      var d := SessionLoginResponseRecord.DecodePayload(env.payload);
      if d.Ok? {
        RecordExactly(env.payload, d.value);
      }
    }
  }

  /** The round-trip check never says no; it fails only on a hand-made 0x1A record whose lengths
      disagree. */
  lemma RoundtripNeverFalse(message: BapMessage)
    ensures RoundtripOk(message) == Ok(true) || RoundtripOk(message).Err?
    ensures RoundtripOk(message).Err? <==>
            && message.Known? && message.known.SessionLoginResponse? && message.known.record.Some?
            && message.known.record.value.ValidateLengths().Err?
  {
    var encoded := EncodeMessage(message);
    if encoded.Ok? {
      EnvelopeRoundTrip(Reenvelope(message, encoded.value));
    }
  }

  /** A message came out of the decoder if and only if decoding its own encoding gives it back. */
  lemma DecodedMessagesAreFixpoints(message: BapMessage)
    ensures (exists env :: DecodeMessage(env) == message) <==>
            EncodeMessage(message).Ok? && DecodeMessage(Reenvelope(message, EncodeMessage(message).value)) == message
  {
    if env :| DecodeMessage(env) == message {
      EnvelopeRoundTrip(env);
    }
  }
}
