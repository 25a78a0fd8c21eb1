/** The encrypted session: logical messages to wire frames and back, one nonce per encrypted
    frame and direction. */
module Session {
  import opened Bytes
  import opened Aead
  import opened GcmNonce
  import opened SessionContext
  import opened Framing

  datatype BapSessionError =
    | FramingFailed(framing: FramingError)
    | ContextFailed(context: SessionContextError)
    | DecryptFailed
    | EncryptFailed
    | EmptyCiphertext
    | TrailingBytes

  datatype DecodedBapFrame =
    | ClearFrame(msgId: u16, clearContext: u32, payload: Octets)
    | DecryptedFrame(id: Option<u16>, context: Option<u32>, payload: Octets, plaintextLen: nat)
    | OpaqueFrame(kind: byte, bodyLen: nat)

  function Plaintext(msgId: u16, context: u32, payload: Octets): Octets {
    U16Be(msgId) + U32Be(context) + payload
  }

  function DecodePlaintext(plaintext: Octets): DecodedBapFrame {
    if |plaintext| >= CLEAR_HEADER_LEN
    then DecryptedFrame(Some(FromU16Be(plaintext[0..2])), Some(FromU32Be(plaintext[2..6])), plaintext[6..], |plaintext|)
    else DecryptedFrame(None, None, plaintext, |plaintext|)
  }

  /** The source panics on a body too long for its length field; callers rule that out. */
  function Raw(frame: BapFrame): Octets {
    match Serialize(frame) case Ok(bytes) => bytes case Err(_) => []
  }

  function ClearRaw(msgId: u16, context: u32, payload: Octets): Octets {
    Raw(BapFrame(Clear, ClearBody(msgId, context, payload)))
  }

  function EncryptedRaw(tag: Tag, ciphertext: Octets): Octets {
    Raw(BapFrame(Encrypted, EncryptedBody(tag, ciphertext)))
  }

  ghost function Encoding(
    cipher: Cipher, c: Context, d: Direction, msgId: u16, context: u32, payload: Octets
  ): (Context, Result<Octets, BapSessionError>) {
    var sealed := cipher.seal(c.key, c.Of(d).nonce, Plaintext(msgId, context, payload));
    (Advance(c, d), match sealed
                    case None => Err(EncryptFailed)
                    case Some(blob) => Ok(EncryptedRaw(blob.tag, blob.ciphertext)))
  }

  ghost function DecodingParsed(cipher: Cipher, c: Context, d: Direction, frame: BapFrame)
    : (Context, Result<DecodedBapFrame, BapSessionError>)
  {
    match frame.body
    case ClearBody(id, context, payload) => (c, Ok(ClearFrame(id, context, payload)))
    case OpaqueBody(bytes) => (c, Ok(OpaqueFrame(frame.kind.AsByte(), |bytes|)))
    case EncryptedBody(tag, ciphertext) =>
      if ciphertext == [] then (c, Err(EmptyCiphertext))
      else (Advance(c, d), match cipher.open(c.key, c.Of(d).nonce, ciphertext, tag)
                           case None => Err(DecryptFailed)
                           case Some(plaintext) => Ok(DecodePlaintext(plaintext)))
  }

  ghost function Decoding(cipher: Cipher, c: Context, d: Direction, raw: Octets)
    : (Context, Result<DecodedBapFrame, BapSessionError>)
  {
    match Parse(raw)
    case Err(e) => (c, Err(FramingFailed(e)))
    case Ok((frame, consumed)) =>
      if consumed != |raw| then (c, Err(TrailingBytes)) else DecodingParsed(cipher, c, d, frame)
  }

  class BapSession {
    const cipher: Cipher
    const crypto: SessionCryptoContext
    ghost const Repr: set<object>

    ghost predicate Valid()
      reads Repr
    {
      Lawful(cipher) && Repr == crypto.Repr && crypto in Repr
      && crypto.clientToServerNonce in Repr && crypto.serverToClientNonce in Repr && crypto.Valid()
    }

    ghost function Value(): Context
      requires Valid()
      reads Repr
    {
      crypto.Value()
    }

    constructor FromCrypto(cipher: Cipher, crypto: SessionCryptoContext)
      requires Lawful(cipher) && crypto.Valid()
      ensures Valid() && this.cipher == cipher && Repr == crypto.Repr && Value() == crypto.Value()
    {
      this.cipher, this.crypto, Repr := cipher, crypto, crypto.Repr;
    }

    static method New(cipher: Cipher, key: Octets, nonce: Octets) returns (r: Result<BapSession, BapSessionError>)
      requires Lawful(cipher)
      ensures |key| != KEY_LEN ==> r == Err(ContextFailed(BadKeyLength(|key|)))
      ensures |key| == KEY_LEN && |nonce| != NONCE_LEN ==> r == Err(ContextFailed(BadNonceLength(|nonce|)))
      ensures |key| == KEY_LEN && |nonce| == NONCE_LEN ==>
                && r.Ok? && r.value.Valid() && fresh(r.value) && fresh(r.value.Repr)
                && r.value.cipher == cipher && r.value.Value() == Fresh(key, nonce)
    {
      var c := SessionCryptoContext.New(key, nonce);
      if c.Err? {
        return Err(ContextFailed(c.error));
      }
      var s := new BapSession.FromCrypto(cipher, c.value);
      return Ok(s);
    }

    /** A clear frame; no nonce is used. */
    static function EncodeClear(msgId: u16, context: u32, payload: Octets): Octets
      requires CLEAR_HEADER_LEN + |payload| < U32_LIMIT
    {
      ClearRaw(msgId, context, payload)
    }

    method EncodeEncrypted(direction: Direction, msgId: u16, context: u32, payload: Octets)
      returns (r: Result<Octets, BapSessionError>)
      requires Valid() && TAG_LEN + CLEAR_HEADER_LEN + |payload| < U32_LIMIT
      modifies Repr
      ensures Valid()
      ensures (Value(), r) == Encoding(cipher, old(Value()), direction, msgId, context, payload)
    {
      var plaintext := U16Be(msgId) + U32Be(context) + payload;
      var nonce := crypto.NextNonce(direction);
      var blob := cipher.seal(crypto.sessionKey, nonce, plaintext);
      match blob {
        case None => return Err(EncryptFailed);
        case Some(b) => return Ok(EncryptedRaw(b.tag, b.ciphertext));
      }
    }

    method DecodeFrame(direction: Direction, rawFrame: Octets) returns (r: Result<DecodedBapFrame, BapSessionError>)
      requires Valid()
      modifies Repr
      ensures Valid()
      ensures (Value(), r) == Decoding(cipher, old(Value()), direction, rawFrame)
    {
      match Parse(rawFrame) {
        case Err(e) => return Err(FramingFailed(e));
        case Ok((frame, consumed)) =>
          if consumed != |rawFrame| {
            return Err(TrailingBytes);
          }
          r := DecodeParsed(direction, frame);
      }
    }

    method DecodeParsed(direction: Direction, frame: BapFrame) returns (r: Result<DecodedBapFrame, BapSessionError>)
      requires Valid()
      modifies Repr
      ensures Valid()
      ensures (Value(), r) == DecodingParsed(cipher, old(Value()), direction, frame)
    {
      match frame.body {
        case ClearBody(id, context, payload) => r := Ok(ClearFrame(id, context, payload));
        case OpaqueBody(bytes) => r := Ok(OpaqueFrame(frame.kind.AsByte(), |bytes|));
        case EncryptedBody(tag, ciphertext) => r := DecodeEncrypted(direction, tag, ciphertext);
      }
    }

    /** The nonce is used up before the frame is opened, and stays used when opening fails; a frame
        without ciphertext is refused before that. */
    method DecodeEncrypted(direction: Direction, tag: Tag, ciphertext: Octets)
      returns (r: Result<DecodedBapFrame, BapSessionError>)
      requires Valid()
      modifies Repr
      ensures Valid()
      ensures (Value(), r) == DecodingParsed(cipher, old(Value()), direction,
                                                   BapFrame(Encrypted, EncryptedBody(tag, ciphertext)))
    {
      if ciphertext == [] {
        return Err(EmptyCiphertext);
      }
      var nonce := crypto.NextNonce(direction);
      match cipher.open(crypto.sessionKey, nonce, ciphertext, tag) {
        case None => return Err(DecryptFailed);
        case Some(plaintext) => return Ok(DecodePlaintext(plaintext));
      }
    }
  }

  /** A message that fits its frame, with its tag if encrypted, comes back from the wire as it was,
      whoever receives it, as long as both ends hold the same key and the same current nonce for
      the direction. */
  lemma FrameRoundTrip(
    cipher: Cipher, sender: Context, receiver: Context, d: Direction, msgId: u16, context: u32, payload: Octets
  )
    requires Lawful(cipher) && CLEAR_HEADER_LEN + |payload| < U32_LIMIT
    requires sender.key == receiver.key && sender.Of(d).nonce == receiver.Of(d).nonce
    ensures Decoding(cipher, receiver, d, ClearRaw(msgId, context, payload)) ==
            (receiver, Ok(ClearFrame(msgId, context, payload)))
    ensures var wire := Encoding(cipher, sender, d, msgId, context, payload).1;
            TAG_LEN + CLEAR_HEADER_LEN + |payload| < U32_LIMIT ==>
            && wire.Ok?
            && Decoding(cipher, receiver, d, wire.value) ==
               (Advance(receiver, d), Ok(DecryptedFrame(Some(msgId), Some(context), payload, 6 + |payload|)))
  {
    var p := Plaintext(msgId, context, payload);
    BigEndianRoundTrips(msgId, context, U16Be(msgId), U32Be(context));
    assert p[0..2] == U16Be(msgId) && p[2..6] == U32Be(context) && p[6..] == payload;

    var clear := BapFrame(Clear, ClearBody(msgId, context, payload));
    ParseExactly(ClearRaw(msgId, context, payload), clear, |ClearRaw(msgId, context, payload)|);

    if TAG_LEN + CLEAR_HEADER_LEN + |payload| < U32_LIMIT {
      var blob := cipher.seal(sender.key, sender.Of(d).nonce, p).value;
      var frame := BapFrame(Encrypted, EncryptedBody(blob.tag, blob.ciphertext));
      ParseExactly(EncryptedRaw(blob.tag, blob.ciphertext), frame, |EncryptedRaw(blob.tag, blob.ciphertext)|);
    }
  }

  /** Authentication. An encrypted frame is decoded if and only if the cipher opens its ciphertext and
      tag under the direction's current nonce, and then to what was opened; otherwise decryption has
      failed, and nothing of the ciphertext is passed on. The nonce is used up either way. */
  lemma OpensIff(cipher: Cipher, c: Context, d: Direction, tag: Tag, ciphertext: Octets)
    requires ciphertext != [] && TAG_LEN + |ciphertext| < U32_LIMIT
    ensures var (c', r) := Decoding(cipher, c, d, EncryptedRaw(tag, ciphertext));
            var plain := cipher.open(c.key, c.Of(d).nonce, ciphertext, tag);
            && c' == Advance(c, d)
            && (r.Ok? <==> plain.Some?)
            && (plain.None? ==> r == Err(DecryptFailed))
            && (forall p :: plain == Some(p) && |p| < 6 ==> r == Ok(DecryptedFrame(None, None, p, |p|)))
            && (forall id, context, payload :: plain == Some(U16Be(id) + U32Be(context) + payload) ==>
                  r == Ok(DecryptedFrame(Some(id), Some(context), payload, 6 + |payload|)))
  {
    hide U16Be, U32Be, FromU16Be, FromU32Be, Serialize, Parse, Advance;
    SerializesShort(tag, ciphertext);
    DecodingVerdict(cipher, c, d, BapFrame(Encrypted, EncryptedBody(tag, ciphertext)), []);
    assert EncryptedRaw(tag, ciphertext) + [] == EncryptedRaw(tag, ciphertext);
    var plain := cipher.open(c.key, c.Of(d).nonce, ciphertext, tag);
    forall id, context, payload | plain == Some(U16Be(id) + U32Be(context) + payload)
      ensures DecodePlaintext(plain.value) == DecryptedFrame(Some(id), Some(context), payload, 6 + |payload|)
    {
      var p := plain.value;
      BigEndianRoundTrips(id, context, U16Be(id), U32Be(context));
      assert p[0..2] == U16Be(id) && p[2..6] == U32Be(context) && p[6..] == payload;
    }
  }

  lemma SerializesShort(tag: Tag, ciphertext: Octets)
    requires TAG_LEN + |ciphertext| < U32_LIMIT
    ensures Serialize(BapFrame(Encrypted, EncryptedBody(tag, ciphertext))) == Ok(EncryptedRaw(tag, ciphertext))
  {
  }

  /** What decoding answers to any bytes. Bytes that are no frame, bytes after a frame and a tag without
      ciphertext are refused before a nonce is used; clear and opaque frames need none. */
  lemma DecodingVerdict(cipher: Cipher, c: Context, d: Direction, frame: BapFrame, extra: Octets)
    requires frame.WellFormed() && Serialize(frame).Ok?
    ensures forall raw: Octets :: Parse(raw).Err? ==>
              Decoding(cipher, c, d, raw) == (c, Err(FramingFailed(Parse(raw).error)))
    ensures var decoded := Decoding(cipher, c, d, Serialize(frame).value + extra);
            if extra != [] then decoded == (c, Err(TrailingBytes))
            else match frame.body
              case ClearBody(id, context, payload) => decoded == (c, Ok(ClearFrame(id, context, payload)))
              case OpaqueBody(bytes) => decoded == (c, Ok(OpaqueFrame(frame.kind.AsByte(), |bytes|)))
              case EncryptedBody(tag, ciphertext) =>
                if ciphertext == [] then decoded == (c, Err(EmptyCiphertext))
                else
                  var plain := cipher.open(c.key, c.Of(d).nonce, ciphertext, tag);
                  decoded == (Advance(c, d),
                              if plain.Some? then Ok(DecodePlaintext(plain.value)) else Err(DecryptFailed))
  {
    hide Parse, Serialize, Advance, DecodePlaintext;
    var wire := Serialize(frame).value;
    ParseExactly(wire + extra, frame, |wire|);
  }

  /** What encrypting puts on the wire: a frame whose ciphertext opens, under the nonce that was current,
      to id and context in network order and the payload. */
  lemma SealedLayout(cipher: Cipher, c: Context, d: Direction, msgId: u16, context: u32, payload: Octets)
    requires Lawful(cipher) && TAG_LEN + CLEAR_HEADER_LEN + |payload| < U32_LIMIT
    ensures var (c', r) := Encoding(cipher, c, d, msgId, context, payload);
            && c' == Advance(c, d) && r.Ok?
            && var w := r.value;
               && |w| == 6 + 16 + 6 + |payload| && w[0] == 1 && w[1] == 1 && BigEndian(w[2..6]) == |w| - 6
               && var plain := cipher.open(c.key, c.Of(d).nonce, w[22..], w[6..22]);
                  && plain.Some? && |plain.value| == 6 + |payload|
                  && BigEndian(plain.value[..2]) == msgId && BigEndian(plain.value[2..6]) == context
                  && plain.value[6..] == payload
  {
    hide U16Be, U32Be, FromU16Be, FromU32Be, BigEndian, Advance;
    var p := Plaintext(msgId, context, payload);
    var blob := cipher.seal(c.key, c.Of(d).nonce, p).value;
    WireLayout(BapFrame(Encrypted, EncryptedBody(blob.tag, blob.ciphertext)));
    var w := EncryptedRaw(blob.tag, blob.ciphertext);
    assert w[6..22] == blob.tag && w[22..] == blob.ciphertext;
    BigEndianRoundTrips(msgId, context, U16Be(msgId), U32Be(context));
    NetworkOrder(U16Be(msgId), U32Be(context));
    assert p[..2] == U16Be(msgId) && p[2..6] == U32Be(context) && p[6..] == payload;
  }

  /** One call on a session. */
  datatype Call =
    | Encrypt(direction: Direction, msgId: u16, context: u32, payload: Octets)
    | Decode(direction: Direction, raw: Octets)

  datatype Outcome = Sent(wire: Octets) | Received(frame: DecodedBapFrame) | Failed(error: BapSessionError)

  ghost function After(cipher: Cipher, c: Context, call: Call): (Context, Outcome) {
    match call
    case Encrypt(d, id, context, payload) =>
      var (c', r) := Encoding(cipher, c, d, id, context, payload);
      (c', match r case Ok(w) => Sent(w) case Err(e) => Failed(e))
    case Decode(d, raw) =>
      var (c', r) := Decoding(cipher, c, d, raw);
      (c', match r case Ok(f) => Received(f) case Err(e) => Failed(e))
  }

  /** The context after a list of calls, failed ones included. */
  ghost function Run(cipher: Cipher, c: Context, calls: seq<Call>): Context {
    if calls == [] then c
    else After(cipher, Run(cipher, c, calls[..|calls| - 1]), calls[|calls| - 1]).0
  }

  ghost function OutcomeOf(cipher: Cipher, c: Context, calls: seq<Call>, i: nat): Outcome
    requires i < |calls|
  {
    After(cipher, Run(cipher, c, calls[..i]), calls[i]).1
  }

  /** An encrypted frame that fills the bytes exactly and has at least one byte of ciphertext. */
  ghost predicate EncryptedShape(raw: Octets) {
    && |raw| > HEADER_LEN + TAG_LEN
    && raw[0] == BAP_MAGIC && raw[1] == KIND_ENCRYPTED
    && HEADER_LEN + FromU32Be(raw[2..6]) == |raw|
  }

  ghost predicate UsesNonce(call: Call, d: Direction) {
    call.direction == d && (call.Decode? ==> EncryptedShape(call.raw))
  }

  ghost function Uses(calls: seq<Call>, d: Direction): nat {
    if calls == [] then 0
    else Uses(calls[..|calls| - 1], d) + if UsesNonce(calls[|calls| - 1], d) then 1 else 0
  }

  /** A call moves a direction on exactly when it encrypts, or decodes an encrypted shape, in it. */
  lemma CallAdvances(cipher: Cipher, c: Context, call: Call)
    ensures After(cipher, c, call).0 == if UsesNonce(call, call.direction) then Advance(c, call.direction) else c
  {
  }

  /** The counter law. Whatever is called and however often it fails, a direction has moved on once
      for every frame encrypted and every complete encrypted frame decoded in it; its counter is
      that number, saturating at 2^64 - 1, and its nonce is the base incremented that many times. */
  lemma {:induction false} CounterLaw(cipher: Cipher, key: Key, session: Nonce, calls: seq<Call>, d: Direction)
    ensures Run(cipher, Fresh(key, session), calls).Of(d) ==
            DirectionState(NonceAt(Base(session, d), Uses(calls, d)), Saturate(Uses(calls, d)))
    ensures Run(cipher, Fresh(key, session), calls).key == key
  {
    hide EncryptedShape, After, Increment, Base;
    if calls == [] {
    } else {
      var before := calls[..|calls| - 1];
      CounterLaw(cipher, key, session, before, d);
      CallAdvances(cipher, Run(cipher, Fresh(key, session), before), calls[|calls| - 1]);
    }
  }

  lemma {:induction false} UsesMonotone(calls: seq<Call>, i: nat, d: Direction)
    requires i < |calls|
    ensures Uses(calls[..i], d) + (if UsesNonce(calls[i], d) then 1 else 0) <= Uses(calls, d)
  {
    hide UsesNonce;
    var n := |calls| - 1;
    if i == n {
    } else {
      UsesMonotone(calls[..n], i, d);
      assert calls[..n][..i] == calls[..i];
    }
  }

  /** No nonce is ever used twice in a session, in one direction or across both, as long as no
      direction is used more than 2^88 times. */
  lemma SessionNoncesUnique(cipher: Cipher, key: Key, session: Nonce, calls: seq<Call>, i: nat, j: nat)
    requires i < j < |calls|
    requires UsesNonce(calls[i], calls[i].direction) && UsesNonce(calls[j], calls[j].direction)
    requires forall d: Direction :: Uses(calls, d) <= TOP_BYTE
    ensures Run(cipher, Fresh(key, session), calls[..i]).Of(calls[i].direction).nonce
         != Run(cipher, Fresh(key, session), calls[..j]).Of(calls[j].direction).nonce
  {
    hide UsesNonce, Run, NonceAt, Base;
    var d, e := calls[i].direction, calls[j].direction;
    CounterLaw(cipher, key, session, calls[..i], d);
    CounterLaw(cipher, key, session, calls[..j], e);
    UsesMonotone(calls, i, d);
    UsesMonotone(calls, j, e);
    UsesMonotone(calls[..j], i, d);
    assert calls[..j][..i] == calls[..i];
    NoncesUnique(session, d, Uses(calls[..i], d), e, Uses(calls[..j], e));
  }

  /** Two lists of calls that use nonces alike leave the same context. */
  lemma {:induction false} SameUsesSameContext(cipher: Cipher, c: Context, xs: seq<Call>, ys: seq<Call>)
    requires |xs| == |ys|
    requires forall i, d: Direction | 0 <= i < |xs| :: UsesNonce(xs[i], d) == UsesNonce(ys[i], d)
    ensures Run(cipher, c, xs) == Run(cipher, c, ys)
  {
    hide EncryptedShape, After, Advance;
    if xs == [] {
    } else {
      var n := |xs| - 1;
      SameUsesSameContext(cipher, c, xs[..n], ys[..n]);
      CallAdvances(cipher, Run(cipher, c, xs[..n]), xs[n]);
      CallAdvances(cipher, Run(cipher, c, ys[..n]), ys[n]);
      assert UsesNonce(xs[n], xs[n].direction) == UsesNonce(ys[n], xs[n].direction);
      assert UsesNonce(xs[n], ys[n].direction) == UsesNonce(ys[n], ys[n].direction);
    }
  }

  /** Damage containment. Changing the body of one received frame in place, header and length kept,
      changes the outcome of that call at most: every other call, earlier or later, sees the same
      context and has the same outcome. */
  lemma DamageContained(cipher: Cipher, c: Context, calls: seq<Call>, k: nat, damaged: Octets, i: nat)
    requires k < |calls| && calls[k].Decode? && i < |calls| && i != k
    requires |damaged| == |calls[k].raw| && |damaged| >= HEADER_LEN
    requires damaged[..HEADER_LEN] == calls[k].raw[..HEADER_LEN]
    ensures var calls' := calls[k := calls[k].(raw := damaged)];
            && Run(cipher, c, calls'[..i]) == Run(cipher, c, calls[..i])
            && OutcomeOf(cipher, c, calls', i) == OutcomeOf(cipher, c, calls, i)
            && Run(cipher, c, calls') == Run(cipher, c, calls)
  {
    var raw := calls[k].raw;
    var calls' := calls[k := calls[k].(raw := damaged)];
    assert damaged[0] == damaged[..HEADER_LEN][0] && raw[0] == raw[..HEADER_LEN][0];
    assert damaged[1] == damaged[..HEADER_LEN][1] && raw[1] == raw[..HEADER_LEN][1];
    assert damaged[2..6] == damaged[..HEADER_LEN][2..6] == raw[..HEADER_LEN][2..6] == raw[2..6];
    SameUsesSameContext(cipher, c, calls', calls);
    SameUsesSameContext(cipher, c, calls'[..i], calls[..i]);
  }
}
