/** The compatibility client: requests out, a byte stream in, decoded frames handed over one at a
    time, and the handshake that uses both. */
module Client {
  import opened Bytes
  import opened Sockets
  import opened Aead
  import opened GcmNonce
  import opened SessionContext
  import opened Framing
  import opened StreamFraming
  import opened Session
  import opened MessageCodec
  import opened ResponsePolicy

  datatype ClientProtocolState =
    | Disconnected
    | Connected
    | ServiceHandshakeSent
    | ServiceHandshakeComplete
    | SessionLoginSent
    | SessionEstablished
    | EncryptedHandshakeSent
    | EncryptedChannelEstablished
    | Active
    | Closing
    | Closed

  datatype ClientError =
    | NotConnected
    | BadFraming(framing: StreamFramingError)
    | CryptoFailed(session: BapSessionError)
    | InvalidMessage
    | UnexpectedMessage(id: u16)
    | InvalidState
    | EndOfStream
    | ReadTimedOut
    | ReadFailed
    | WriteFailed

  /** What a read of the socket yields: some bytes, none at the end of the stream, or a failure. */
  datatype SocketRead = Got(bytes: Octets) | TimedOut | Lost

  /** The bytes that some reads deliver. */
  ghost function Delivered(items: seq<SocketRead>): Octets {
    if items == [] then []
    else (if items[0].Got? then items[0].bytes else []) + Delivered(items[1..])
  }

  /** The socket, seen from the client: the reads still to come, with the end of the stream after the
      last, and its writing half. */
  class ByteStream {
    var incoming: seq<SocketRead>
    var outgoing: Outlet

    constructor (incoming: seq<SocketRead>, outgoing: Outlet)
      ensures this.incoming == incoming && this.outgoing == outgoing
    {
      this.incoming, this.outgoing := incoming, outgoing;
    }

    method Read() returns (r: SocketRead)
      modifies this`incoming
      ensures old(incoming) == [] ==> r == Got([]) && incoming == []
      ensures old(incoming) != [] ==> r == old(incoming)[0] && incoming == old(incoming)[1..]
    {
      if incoming == [] {
        return Got([]);
      }
      r := incoming[0];
      incoming := incoming[1..];
    }

    method Write(bytes: Octets) returns (ok: bool)
      modifies this`outgoing
      ensures ok == old(outgoing).Takes(bytes) && outgoing == old(outgoing).Write(bytes)
    {
      ok := outgoing.Takes(bytes);
      outgoing := outgoing.Write(bytes);
    }
  }

  /** Frames of one direction, decoded up to the first failure, which loses them all. */
  ghost function DecodeAll(cipher: Cipher, c: Context, d: Direction, raws: seq<RawBapFrame>)
    : (Context, Result<seq<DecodedBapFrame>, ClientError>)
    decreases |raws|
  {
    if raws == [] then (c, Ok([]))
    else
      var (c', r) := Decoding(cipher, c, d, raws[0].rawBytes);
      match r
      case Err(e) => (c', Err(CryptoFailed(e)))
      case Ok(f) =>
        var (c'', rest) := DecodeAll(cipher, c', d, raws[1..]);
        (c'', Prepend([f], rest))
  }

  /** The receiving half of a client: undecoded bytes, nonces, frames decoded but not handed over
      (a stack, top last), and the reads to come. */
  datatype Inbox = Inbox(buf: Octets, crypto: Context, pending: seq<DecodedBapFrame>, incoming: seq<SocketRead>)

  ghost function Ingested(cipher: Cipher, i: Inbox, bytes: Octets): (Inbox, Result<seq<DecodedBapFrame>, ClientError>) {
    var v := Carve(i.buf + bytes, MAX_BODY_LEN);
    if v.error.Some? then (i.(buf := v.rest), Err(BadFraming(v.error.value)))
    else
      var (crypto, r) := DecodeAll(cipher, i.crypto, ServerToClient, v.frames);
      (i.(buf := v.rest, crypto := crypto), r)
  }

  /** Reads until some frame is complete; the first is the result and the others are stacked. */
  ghost function Awaited(cipher: Cipher, i: Inbox): (Inbox, Result<DecodedBapFrame, ClientError>)
    decreases |i.incoming|
  {
    if i.incoming == [] then (i, Err(EndOfStream))
    else
      var j := i.(incoming := i.incoming[1..]);
      match i.incoming[0]
      case TimedOut => (j, Err(ReadTimedOut))
      case Lost => (j, Err(ReadFailed))
      case Got(chunk) =>
        if chunk == [] then (j, Err(EndOfStream))
        else
          var (k, r) := Ingested(cipher, j, chunk);
          match r
          case Err(e) => (k, Err(e))
          case Ok(fs) =>
            if fs == [] then Awaited(cipher, k) else (k.(pending := k.pending + Reverse(fs[1..])), Ok(fs[0]))
  }

  ghost function NextFrame(cipher: Cipher, i: Inbox): (Inbox, Result<DecodedBapFrame, ClientError>) {
    var n := |i.pending|;
    if n > 0 then (i.(pending := i.pending[..n - 1]), Ok(i.pending[n - 1])) else Awaited(cipher, i)
  }

  function FrameMsgId(frame: DecodedBapFrame): Option<u16> {
    match frame
    case ClearFrame(id, _, _) => Some(id)
    case DecryptedFrame(id, _, _, _) => id
    case OpaqueFrame(_, _) => None
  }

  /** The checks on a reply: its id, then whether it came encrypted as it should. */
  function Expect(frame: DecodedBapFrame, expected: u16, encrypted: bool): Result<BapMessage, ClientError> {
    match FrameMsgId(frame)
    case None => Err(InvalidMessage)
    case Some(id) =>
      if id != expected then Err(UnexpectedMessage(id))
      else if if encrypted then !frame.DecryptedFrame? else !frame.ClearFrame? then Err(InvalidMessage)
      else match DecodeFromFrame(frame, ServerToClient)
        case Err(_) => Err(InvalidMessage)
        case Ok(m) => Ok(m)
  }

  const PAYLOAD_1E: Octets := SIM + [0x31, 0x45]
  const PAYLOAD_19: Octets := SIM + [0x31, 0x39]
  const PAYLOAD_79: Octets := SIM + [0x37, 0x39]
  const PAYLOAD_FA: Octets := SIM + [0x46, 0x41]
  const PAYLOAD_12E: Octets := SIM + [0x31, 0x32, 0x45]

  /** A request's body as the codec writes it: the payload itself. */
  function CodecBody(id: u16, payload: Octets): Result<Octets, ClientError> {
    match EncodeMessage(Unparsed(id, SIM_CONTEXT, ClientToServer, payload))
    case Ok(body) => Ok(body)
    case Err(_) => Err(InvalidMessage)
  }

  /** Nothing on the wire will fail to frame or to decrypt, and no read fails or is empty. */
  ghost predicate ErrorFree(cipher: Cipher, i: Inbox) {
    var v := Carve(i.buf + Delivered(i.incoming), MAX_BODY_LEN);
    && v.error.None? && DecodeAll(cipher, i.crypto, ServerToClient, v.frames).1.Ok?
    && Settled(i.buf, MAX_BODY_LEN)
    && forall r <- i.incoming :: r.Got? && r.bytes != []
  }

  /** The frames an inbox will hand over: those stacked, top first, then those on the wire. */
  ghost function Due(cipher: Cipher, i: Inbox): seq<DecodedBapFrame>
    requires ErrorFree(cipher, i)
  {
    Reverse(i.pending) +
    DecodeAll(cipher, i.crypto, ServerToClient, Carve(i.buf + Delivered(i.incoming), MAX_BODY_LEN).frames).1.value
  }

  lemma {:induction false} DecodeAllAppend(cipher: Cipher, c: Context, d: Direction, xs: seq<RawBapFrame>,
      ys: seq<RawBapFrame>)
    ensures var (c', r) := DecodeAll(cipher, c, d, xs);
            DecodeAll(cipher, c, d, xs + ys) ==
              if r.Err? then (c', r)
              else var (c'', s) := DecodeAll(cipher, c', d, ys); (c'', Prepend(r.value, s))
    decreases |xs|
  {
    hide Decoding;
    if xs == [] {
      assert xs + ys == ys;
      var s := DecodeAll(cipher, c, d, ys).1;
      if s.Ok? {
        assert [] + s.value == s.value;
      }
    } else {
      assert (xs + ys)[0] == xs[0] && (xs + ys)[1..] == xs[1..] + ys;
      var (c', f) := Decoding(cipher, c, d, xs[0].rawBytes);
      if f.Ok? {
        DecodeAllAppend(cipher, c', d, xs[1..], ys);
        var (c'', r) := DecodeAll(cipher, c', d, xs[1..]);
        if r.Ok? {
          var s := DecodeAll(cipher, c'', d, ys).1;
          if s.Ok? {
            assert [f.value] + (r.value + s.value) == [f.value] + r.value + s.value;
          }
        }
      }
    }
  }

  lemma {:induction false} ReverseTwice<T>(xs: seq<T>)
    ensures Reverse(Reverse(xs)) == xs
  {
    if xs == [] {
    } else {
      ReverseTwice(xs[1..]);
      ReverseAppend(Reverse(xs[1..]), xs[0]);
    }
  }

  /** One read splits what is due into the frames it completes and the rest. */
  lemma ReadSplitsDue(cipher: Cipher, i: Inbox)
    requires ErrorFree(cipher, i) && i.incoming != []
    ensures i.incoming[0].Got?
    ensures var (k, r) := Ingested(cipher, i.(incoming := i.incoming[1..]), i.incoming[0].bytes);
            && r.Ok? && ErrorFree(cipher, k) && k.pending == i.pending && k.incoming == i.incoming[1..]
            && Due(cipher, i) == Reverse(i.pending) + (r.value + Due(cipher, k.(pending := [])))
  {
    hide Carve, DecodeAll, FrontOf, Reverse;
    assert i.incoming[0] in i.incoming;
    var chunk, more := i.incoming[0].bytes, Delivered(i.incoming[1..]);
    var v := Carve(i.buf + chunk, MAX_BODY_LEN);
    assert i.buf + Delivered(i.incoming) == i.buf + chunk + more;
    CarveAppend(i.buf + chunk, more, MAX_BODY_LEN);
    CarveSound(i.buf + chunk, MAX_BODY_LEN);
    DecodeAllAppend(cipher, i.crypto, ServerToClient, v.frames, Carve(v.rest + more, MAX_BODY_LEN).frames);
    EmptyReverse<DecodedBapFrame>();
    assert forall later <- i.incoming[1..] :: later in i.incoming;
    var k := Ingested(cipher, i.(incoming := i.incoming[1..]), chunk).0;
    assert Due(cipher, k.(pending := [])) ==
           DecodeAll(cipher, k.crypto, ServerToClient, Carve(k.buf + more, MAX_BODY_LEN).frames).1.value;
  }

  lemma EmptyReverse<T>()
    ensures Reverse<T>([]) == []
  {
  }

  lemma NothingDue(cipher: Cipher, i: Inbox)
    requires ErrorFree(cipher, i) && i.incoming == [] && i.pending == []
    ensures Due(cipher, i) == []
  {
    assert i.buf + Delivered(i.incoming) == i.buf;
  }

  lemma AwaitedOne(cipher: Cipher, i: Inbox)
    requires i.incoming != [] && i.incoming[0].Got? && i.incoming[0].bytes != []
    ensures var (k, r) := Ingested(cipher, i.(incoming := i.incoming[1..]), i.incoming[0].bytes);
            Awaited(cipher, i) ==
            match r
            case Err(e) => (k, Err(e))
            case Ok(fs) =>
              if fs == [] then Awaited(cipher, k) else (k.(pending := k.pending + Reverse(fs[1..])), Ok(fs[0]))
  {
    hide Ingested, Reverse;
  }

  lemma NoneAwaited(cipher: Cipher, i: Inbox)
    requires i.incoming == []
    ensures Awaited(cipher, i) == (i, Err(EndOfStream))
  {
  }

  /** Delivery is first in, first out. On an error-free stream, whatever the sizes of the reads, a
      read of a frame hands over the first frame due and leaves exactly the others due; it reports
      the end of the stream if and only if none is due. */
  lemma {:induction false} DeliveryIsFifo(cipher: Cipher, i: Inbox)
    requires ErrorFree(cipher, i)
    ensures var (j, r) := NextFrame(cipher, i);
            var due := Due(cipher, i);
            && ErrorFree(cipher, j)
            && (due == [] ==> r == Err(EndOfStream) && Due(cipher, j) == [])
            && (due != [] ==> r == Ok(due[0]) && Due(cipher, j) == due[1..])
    decreases |i.incoming|
  {
    hide Carve, DecodeAll, Reverse, FrontOf, Ingested, Awaited, Delivered;
    var n := |i.pending|;
    if n > 0 {
      var below, top := i.pending[..n - 1], i.pending[n - 1];
      ReverseAppend(below, top);
      assert i.pending == below + [top];
    } else if i.incoming == [] {
      NothingDue(cipher, i);
      NoneAwaited(cipher, i);
    } else {
      assert i.incoming[0] in i.incoming;
      AwaitedOne(cipher, i);
      ReadSplitsDue(cipher, i);
      EmptyReverse<DecodedBapFrame>();
      var (k, r) := Ingested(cipher, i.(incoming := i.incoming[1..]), i.incoming[0].bytes);
      var fs := r.value;
      var later := Due(cipher, k.(pending := []));
      assert k.pending == [] && k.(pending := []) == k;
      assert [] + (fs + later) == fs + later;
      assert Due(cipher, i) == fs + later;
      if fs == [] {
        assert fs + later == later;
        DeliveryIsFifo(cipher, k);
      } else {
        ReverseTwice(fs[1..]);
        assert k.pending + Reverse(fs[1..]) == Reverse(fs[1..]);
        var j := k.(pending := k.pending + Reverse(fs[1..]));
        assert ErrorFree(cipher, j) && NextFrame(cipher, i) == (j, Ok(fs[0]));
        assert [] + later == later;
        assert Due(cipher, j) == fs[1..] + later;
        assert (fs + later)[1..] == fs[1..] + later;
      }
    }
  }

  /** Sending encrypted frames moves the other direction only, and so changes nothing that is due. */
  lemma {:induction false} DecodeAllIgnoresSends(cipher: Cipher, c: Context, raws: seq<RawBapFrame>)
    ensures var (c', r) := DecodeAll(cipher, c, ServerToClient, raws);
            DecodeAll(cipher, Advance(c, ClientToServer), ServerToClient, raws) == (Advance(c', ClientToServer), r)
    decreases |raws|
  {
    hide Parse, Increment;
    if raws == [] {
    } else {
      var (c', r) := Decoding(cipher, c, ServerToClient, raws[0].rawBytes);
      if r.Ok? {
        DecodeAllIgnoresSends(cipher, c', raws[1..]);
      }
    }
  }

  lemma SendKeepsDue(cipher: Cipher, i: Inbox)
    requires ErrorFree(cipher, i)
    ensures var j := i.(crypto := Advance(i.crypto, ClientToServer));
            ErrorFree(cipher, j) && Due(cipher, j) == Due(cipher, i)
  {
    hide Carve, DecodeAll, Reverse, FrontOf;
    DecodeAllIgnoresSends(cipher, i.crypto, Carve(i.buf + Delivered(i.incoming), MAX_BODY_LEN).frames);
  }

  /** The value of a connected client. */
  datatype ClientValue = ClientValue(state: ClientProtocolState, inbox: Inbox, outgoing: Outlet, cryptoReady: bool)

  /** The three exchanges of the handshake. */
  const REQUEST_IDS: seq<u16> := [0x1E, 0x19, 0x79]
  const REQUEST_PAYLOADS: seq<Octets> := [PAYLOAD_1E, PAYLOAD_19, PAYLOAD_79]
  const REPLY_IDS: seq<u16> := [0x1F, 0x1A, 0x7A]
  const ASKING: seq<ClientProtocolState> := [ServiceHandshakeSent, SessionLoginSent, EncryptedHandshakeSent]
  const ANSWERED: seq<ClientProtocolState> := [ServiceHandshakeComplete, SessionEstablished, Active]

  /** Writes one frame. */
  ghost function Wrote(c: ClientValue, wire: Octets): (ClientValue, Result<(), ClientError>) {
    (c.(outgoing := c.outgoing.Write(wire)), if c.outgoing.Takes(wire) then Ok(()) else Err(WriteFailed))
  }

  /** Seals and writes one frame; the nonce is used even if writing fails. */
  ghost function WroteEncrypted(cipher: Cipher, c: ClientValue, id: u16, payload: Octets)
    : (ClientValue, Result<(), ClientError>)
  {
    var (crypto, sealed) := Encoding(cipher, c.inbox.crypto, ClientToServer, id, SIM_CONTEXT, payload);
    var c' := c.(inbox := c.inbox.(crypto := crypto));
    match sealed
    case Err(e) => (c', Err(CryptoFailed(e)))
    case Ok(wire) => Wrote(c', wire)
  }

  /** The state reached by a write that succeeds. */
  ghost function Reaching(sent: (ClientValue, Result<(), ClientError>), state: ClientProtocolState)
    : (ClientValue, Result<(), ClientError>)
  {
    (if sent.1.Ok? then sent.0.(state := state) else sent.0, sent.1)
  }

  /** Sends request k: 0x1E and 0x19 in the clear, 0x79 encrypted. */
  ghost function Asked(cipher: Cipher, c: ClientValue, k: nat): (ClientValue, Result<(), ClientError>)
    requires k < 3
  {
    Reaching(if k < 2 then Wrote(c, ClearRaw(REQUEST_IDS[k], SIM_CONTEXT, REQUEST_PAYLOADS[k]))
             else WroteEncrypted(cipher, c, 0x79, PAYLOAD_79), ASKING[k])
  }

  /** Sends a NAT probe. */
  ghost function Probed(cipher: Cipher, c: ClientValue): (ClientValue, Result<(), ClientError>) {
    Reaching(WroteEncrypted(cipher, c, 0x12E, PAYLOAD_12E), Active)
  }

  /** Sends a keepalive and waits for its reply. */
  ghost function Pinged(cipher: Cipher, c: ClientValue): (ClientValue, Result<DecodedBapFrame, ClientError>) {
    var (asked, sent) := KeptAlive(c);
    if sent.Err? then (asked, Err(sent.error))
    else
      var (inbox, got) := NextFrame(cipher, asked.inbox);
      var read := asked.(inbox := inbox);
      match got
      case Err(e) => (read, Err(e))
      case Ok(f) =>
        match Expect(f, 0xFB, false)
        case Err(e) => (read, Err(e))
        case Ok(_) => (read.(state := Active), Ok(f))
  }

  /** Sends a keepalive. */
  ghost function KeptAlive(c: ClientValue): (ClientValue, Result<(), ClientError>) {
    Wrote(c, ClearRaw(0xFA, SIM_CONTEXT, PAYLOAD_FA))
  }

  /** Waits for reply k and checks it. */
  ghost function Answered(cipher: Cipher, c: ClientValue, k: nat): (ClientValue, Result<(), ClientError>)
    requires k < 3
  {
    var (inbox, got) := NextFrame(cipher, c.inbox);
    var c' := c.(inbox := inbox);
    match got
    case Err(e) => (c', Err(e))
    case Ok(frame) =>
      match Expect(frame, REPLY_IDS[k], k == 2)
      case Err(e) => (c', Err(e))
      case Ok(_) => (c'.(state := ANSWERED[k], cryptoReady := c.cryptoReady || k >= 1), Ok(()))
  }

  /** Exchanges k, k+1, ... of the handshake. */
  ghost function Exchanged(cipher: Cipher, c: ClientValue, k: nat): (ClientValue, Result<(), ClientError>)
    requires k <= 3
    decreases 3 - k
  {
    if k == 3 then (c, Ok(()))
    else
      var (asking, sent) := Asked(cipher, c, k);
      if sent.Err? then (asking, sent)
      else
        var (answered, got) := Answered(cipher, asking, k);
        if got.Err? then (answered, got) else Exchanged(cipher, answered, k + 1)
  }

  class BapCompatibilityClient {
    const stream: ByteStream
    const session: BapSession
    var connected: bool
    var decoder: BapStreamDecoder
    var state: ClientProtocolState
    var pending: seq<DecodedBapFrame>
    var cryptoReady: bool

    ghost predicate Valid()
      reads this, session.Repr
    {
      && session.Valid() && this !in session.Repr && stream !in session.Repr && decoder !in session.Repr
      && decoder.maxBodyLen == MAX_BODY_LEN
      && (!connected ==> state == Disconnected || state == Closing || state == Closed)
    }

    ghost function Value(): ClientValue
      requires Valid()
      reads this, session.Repr, stream, decoder
    {
      ClientValue(state, Inbox(decoder.buf, session.Value(), pending, stream.incoming), stream.outgoing, cryptoReady)
    }

    /** A client just connected over a stream, with a session of its own. */
    constructor Connect(stream: ByteStream, session: BapSession)
      requires session.Valid() && stream !in session.Repr
      ensures Valid() && connected && this.stream == stream && this.session == session && fresh(decoder)
      ensures Value() == ClientValue(Connected, Inbox([], session.Value(), [], stream.incoming), stream.outgoing, false)
    {
      this.stream, this.session, connected := stream, session, true;
      decoder := new BapStreamDecoder();
      state, pending, cryptoReady := Connected, [], false;
    }

    method SendRaw(bytes: Octets) returns (r: Result<(), ClientError>)
      modifies stream`outgoing
      ensures connected ==>
                && r == (if old(stream.outgoing).Takes(bytes) then Ok(()) else Err(WriteFailed))
                && stream.outgoing == old(stream.outgoing).Write(bytes)
      ensures !connected ==> r == Err(NotConnected) && stream.outgoing == old(stream.outgoing)
    {
      if !connected {
        return Err(NotConnected);
      }
      var ok := stream.Write(bytes);
      return if ok then Ok(()) else Err(WriteFailed);
    }

    method SendClear(id: u16, payload: Octets) returns (r: Result<(), ClientError>)
      requires Valid() && CLEAR_HEADER_LEN + |payload| < U32_LIMIT
      modifies stream`outgoing
      ensures Valid()
      ensures connected ==> (Value(), r) == Wrote(old(Value()), ClearRaw(id, SIM_CONTEXT, payload))
      ensures !connected ==> r == Err(NotConnected) && Value() == old(Value())
    {
      var body := CodecBody(id, payload);
      match body {
        case Err(e) => return Err(e);
        case Ok(b) => r := SendRaw(BapSession.EncodeClear(id, SIM_CONTEXT, b));
      }
    }

    /** Refused before the session is established. */
    method SendEncrypted(id: u16, payload: Octets) returns (r: Result<(), ClientError>)
      requires Valid() && TAG_LEN + CLEAR_HEADER_LEN + |payload| < U32_LIMIT
      modifies stream`outgoing, session.Repr
      ensures Valid()
      ensures var allowed := cryptoReady || state in
                {SessionEstablished, EncryptedHandshakeSent, EncryptedChannelEstablished, Active};
              if !allowed then r == Err(InvalidState) && Value() == old(Value())
              else if !connected then r == Err(NotConnected) && Value() == old(Value())
              else (Value(), r) == WroteEncrypted(session.cipher, old(Value()), id, payload)
    {
      hide Encoding;
      if !cryptoReady && state != SessionEstablished && state != EncryptedHandshakeSent
         && state != EncryptedChannelEstablished && state != Active {
        return Err(InvalidState);
      }
      var body := CodecBody(id, payload);
      if !connected {
        return Err(NotConnected);
      }
      var sent := session.EncodeEncrypted(ClientToServer, id, SIM_CONTEXT, body.value);
      match sent {
        case Err(e) => return Err(CryptoFailed(e));
        case Ok(wire) => r := SendRaw(wire);
      }
    }

    method FeedBytes(bytes: Octets) returns (r: Result<seq<DecodedBapFrame>, ClientError>)
      requires Valid()
      modifies decoder, session.Repr
      ensures Valid()
      ensures connected ==> (Value().inbox, r) == Ingested(session.cipher, old(Value()).inbox, bytes)
      ensures !connected ==>
                var v := Carve(old(decoder.buf) + bytes, MAX_BODY_LEN);
                && Value().inbox == old(Value()).inbox.(buf := v.rest)
                && r == if v.error.Some? then Err(BadFraming(v.error.value))
                        else if v.frames == [] then Ok([]) else Err(NotConnected)
      ensures Value() == old(Value()).(inbox := Value().inbox)
    {
      hide Carve, Decoding;
      var pushed := decoder.Push(bytes);
      if pushed.Err? {
        return Err(BadFraming(pushed.error));
      }
      var frames := pushed.value;
      var out: seq<DecodedBapFrame> := [];
      ghost var whole := DecodeAll(session.cipher, session.Value(), ServerToClient, frames);
      ghost var buf := decoder.buf;
      assert forall fs: seq<DecodedBapFrame> :: out + fs == fs;
      for i := 0 to |frames|
        invariant Valid() && decoder.buf == buf && (connected || i == 0) &&
            (!connected ==> session.Value() == old(session.Value()))
        invariant var (c, rest) := DecodeAll(session.cipher, session.Value(), ServerToClient, frames[i..]);
                  whole == (c, Prepend(out, rest))
        invariant |out| == i
      {
        if !connected {
          return Err(NotConnected);
        }
        assert frames[i..][1..] == frames[i + 1..];
        ghost var rest := DecodeAll(session.cipher, session.Value(), ServerToClient, frames[i..]).1;
        var decoded := session.DecodeFrame(ServerToClient, frames[i].rawBytes);
        match decoded {
          case Err(e) => return Err(CryptoFailed(e));
          case Ok(f) =>
            PrependTwice(out, f, DecodeAll(session.cipher, session.Value(), ServerToClient, frames[i + 1..]).1);
            out := out + [f];
        }
      }
      assert out + [] == out;
      return Ok(out);
    }

    /** Hands over one frame, reading from the stream only when none is stacked. */
    method ReadFrame() returns (r: Result<DecodedBapFrame, ClientError>)
      requires Valid()
      modifies this`pending, decoder, session.Repr, stream`incoming
      ensures Valid()
      ensures connected || old(pending) != [] ==>
                (Value().inbox, r) == NextFrame(session.cipher, old(Value()).inbox)
      ensures !connected && old(pending) == [] ==> r == Err(NotConnected) && Value() == old(Value())
      ensures Value() == old(Value()).(inbox := Value().inbox)
    {
      hide Ingested;
      if pending != [] {
        var top := pending[|pending| - 1];
        pending := pending[..|pending| - 1];
        return Ok(top);
      }
      if !connected {
        return Err(NotConnected);
      }
      while true
        invariant Valid() && pending == []
        invariant Awaited(session.cipher, old(Value()).inbox) == Awaited(session.cipher, Value().inbox)
        invariant state == old(state) && cryptoReady == old(cryptoReady) && stream.outgoing == old(stream.outgoing)
        decreases |stream.incoming|
      {
        var got := stream.Read();
        if got.TimedOut? {
          return Err(ReadTimedOut);
        }
        if got.Lost? {
          return Err(ReadFailed);
        }
        if got.bytes == [] {
          return Err(EndOfStream);
        }
        var decoded := FeedBytes(got.bytes);
        if decoded.Err? {
          return Err(decoded.error);
        }
        if decoded.value != [] {
          pending := pending + Reverse(decoded.value[1..]);
          return Ok(decoded.value[0]);
        }
      }
    }

    method RunHandshake() returns (r: Result<(), ClientError>)
      requires Valid()
      modifies this`pending, this`state, this`cryptoReady, decoder, session.Repr, stream
      ensures Valid()
      ensures state == old(state) || old(state) == Connected
      ensures old(state) != Connected ==> r == Err(InvalidState) && Value() == old(Value())
      ensures old(state) == Connected ==> (Value(), r) == Exchanged(session.cipher, old(Value()), 0)
    {
      hide Encoding, NextFrame, DecodeFromFrame;
      if state != Connected {
        return Err(InvalidState);
      }
      ghost var c0 := Value();
      var sent := SendClear(0x1E, PAYLOAD_1E);
      if sent.Err? {
        return sent;
      }
      state := ServiceHandshakeSent;
      ghost var c1 := Value();
      assert Asked(session.cipher, c0, 0) == (c1, Ok(()));
      var f := ReadFrame();
      if f.Err? {
        return Err(f.error);
      }
      var m := Expect(f.value, 0x1F, false);
      if m.Err? {
        return Err(m.error);
      }
      state := ServiceHandshakeComplete;
      ghost var c2 := Value();
      assert Answered(session.cipher, c1, 0) == (c2, Ok(()));
      r := Login();
    }

    /** The handshake from 0x19 on. */
    method Login() returns (r: Result<(), ClientError>)
      requires Valid() && connected
      modifies this`pending, this`state, this`cryptoReady, decoder, session.Repr, stream
      ensures Valid() && (Value(), r) == Exchanged(session.cipher, old(Value()), 1)
    {
      hide Encoding, NextFrame, DecodeFromFrame;
      ghost var c0 := Value();
      var sent := SendClear(0x19, PAYLOAD_19);
      if sent.Err? {
        return sent;
      }
      state := SessionLoginSent;
      ghost var c1 := Value();
      assert Asked(session.cipher, c0, 1) == (c1, Ok(()));
      var f := ReadFrame();
      if f.Err? {
        return Err(f.error);
      }
      var m := Expect(f.value, 0x1A, false);
      if m.Err? {
        return Err(m.error);
      }
      state := SessionEstablished;
      cryptoReady := true;
      ghost var c2 := Value();
      assert Answered(session.cipher, c1, 1) == (c2, Ok(()));
      r := EncryptedHandshake();
    }

    /** The handshake from 0x79 on. */
    method EncryptedHandshake() returns (r: Result<(), ClientError>)
      requires Valid() && connected && cryptoReady
      modifies this`pending, this`state, decoder, session.Repr, stream
      ensures Valid() && (Value(), r) == Exchanged(session.cipher, old(Value()), 2)
    {
      hide Encoding, NextFrame, DecodeFromFrame;
      ghost var c0 := Value();
      var sent := SendEncrypted(0x79, PAYLOAD_79);
      if sent.Err? {
        return sent;
      }
      state := EncryptedHandshakeSent;
      ghost var c1 := Value();
      assert Asked(session.cipher, c0, 2) == (c1, Ok(()));
      var f := ReadFrame();
      if f.Err? {
        return Err(f.error);
      }
      var m := Expect(f.value, 0x7A, true);
      if m.Err? {
        return Err(m.error);
      }
      state := EncryptedChannelEstablished;
      state := Active;
      assert Answered(session.cipher, c1, 2) == (Value(), Ok(()));
      assert Exchanged(session.cipher, Value(), 3) == (Value(), Ok(()));
      return Ok(());
    }

    /** An encrypted 0x12E, to which no reply is expected. */
    method SendNatProbe() returns (r: Result<(), ClientError>)
      requires Valid()
      modifies this`state, session.Repr, stream`outgoing
      ensures Valid()
      ensures var ready := old(state) == EncryptedChannelEstablished || old(state) == Active;
              if !ready then r == Err(InvalidState) && Value() == old(Value())
              else (Value(), r) == Probed(session.cipher, old(Value()))
    {
      hide Encoding;
      if state != EncryptedChannelEstablished && state != Active {
        return Err(InvalidState);
      }
      r := SendEncrypted(0x12E, PAYLOAD_12E);
      if r.Ok? {
        state := Active;
      }
    }

    /** A clear 0xFA, answered by a clear 0xFB. */
    method SendKeepalive() returns (r: Result<DecodedBapFrame, ClientError>)
      requires Valid()
      modifies this`state, this`pending, decoder, session.Repr, stream
      ensures Valid()
      ensures var ready := old(state) == EncryptedChannelEstablished || old(state) == Active;
              if !ready then r == Err(InvalidState) && Value() == old(Value())
              else (Value(), r) == Pinged(session.cipher, old(Value()))
    {
      hide NextFrame, DecodeFromFrame;
      if state != Active && state != EncryptedChannelEstablished {
        return Err(InvalidState);
      }
      var sent := SendClear(0xFA, PAYLOAD_FA);
      if sent.Err? {
        return Err(sent.error);
      }
      var f := ReadFrame();
      if f.Err? {
        return f;
      }
      var m := Expect(f.value, 0xFB, false);
      if m.Err? {
        return Err(m.error);
      }
      state := Active;
      return f;
    }

    method Close()
      requires Valid()
      modifies this
      ensures Valid() && !connected && state == Closed && !cryptoReady && pending == []
      ensures fresh(decoder) && decoder.buf == []
    {
      state := Closing;
      connected := false;
      state := Closed;
      cryptoReady := false;
      pending := [];
      decoder := new BapStreamDecoder();
    }
  }

  /** The replies of the handshake: a clear 0x1F, a clear 0x1A, and an encrypted 0x7A with a context. */
  ghost predicate IsReply(frame: DecodedBapFrame, k: nat)
    requires k < 3
  {
    if k == 0 then frame.ClearFrame? && frame.msgId == 0x1F
    else if k == 1 then frame.ClearFrame? && frame.msgId == 0x1A
    else frame.DecryptedFrame? && frame.id == Some(0x7A) && frame.context.Some?
  }

  lemma ReplyExpectedIff(frame: DecodedBapFrame, k: nat)
    requires k < 3
    ensures Expect(frame, REPLY_IDS[k], k == 2).Ok? <==> IsReply(frame, k)
  {
    FrameMeans(frame, ServerToClient);
  }

  /** Are the frames due, from the first, the replies k, k+1, ... that the handshake awaits? */
  ghost predicate RepliesDue(due: seq<DecodedBapFrame>, k: nat)
    requires k <= 3
  {
    |due| >= 3 - k && forall j | 0 <= j < 3 - k :: IsReply(due[j], k + j)
  }

  /** The length of request k on the wire. */
  function RequestLen(k: nat): nat
    requires k < 3
  {
    if k < 2 then 18 else 34
  }

  /** Do the writes to come take the requests k, k+1, ... of the handshake? */
  ghost predicate RequestsTaken(room: seq<nat>, k: nat)
    requires k <= 3
  {
    forall j | k <= j < 3 && j - k < |room| :: RequestLen(j) <= room[j - k]
  }

  lemma AskingFailsIff(cipher: Cipher, c: ClientValue, k: nat)
    requires Lawful(cipher) && k < 3 && ErrorFree(cipher, c.inbox)
    ensures var (d, sent) := Asked(cipher, c, k);
            && (sent.Ok? <==> (c.outgoing.room != [] ==> RequestLen(k) <= c.outgoing.room[0]))
            && |d.outgoing.written| == |c.outgoing.written| + 1
            && d.outgoing.room == (if c.outgoing.room == [] then [] else c.outgoing.room[1..])
            && ErrorFree(cipher, d.inbox) && Due(cipher, d.inbox) == Due(cipher, c.inbox)
  {
    hide ErrorFree, Due;
    SendKeepsDue(cipher, c.inbox);
    FrameRoundTrip(cipher, c.inbox.crypto, c.inbox.crypto, ClientToServer, 0x79, SIM_CONTEXT, PAYLOAD_79);
  }

  /** Whether the handshake succeeds depends on the frames due and on the writes, not on how the frames
      arrive: on an error-free stream exchanges k and later succeed if and only if the next frames
      due are the replies awaited and no write fails. Success takes exactly those frames, sends one
      request for each, and leaves the client Active. */
  lemma {:induction false} HandshakeSucceedsIff(cipher: Cipher, c: ClientValue, k: nat)
    requires Lawful(cipher) && k <= 3 && ErrorFree(cipher, c.inbox)
    requires k == 3 ==> c.state == Active && c.cryptoReady
    ensures var (d, r) := Exchanged(cipher, c, k);
            var due := Due(cipher, c.inbox);
            && (r.Ok? <==> RepliesDue(due, k) && RequestsTaken(c.outgoing.room, k))
            && (r.Ok? ==>
                  && d.state == Active && d.cryptoReady && |d.outgoing.written| == |c.outgoing.written| + 3 - k
                  && ErrorFree(cipher, d.inbox) && Due(cipher, d.inbox) == due[3 - k..])
    decreases 3 - k
  {
    hide ErrorFree, Due, NextFrame, Asked, Expect, RequestLen, IsReply;
    var due, room := Due(cipher, c.inbox), c.outgoing.room;
    if k == 3 {
    } else {
      AskingFailsIff(cipher, c, k);
      TakenFirst(room, k);
      var (asking, sent) := Asked(cipher, c, k);
      DeliveryIsFifo(cipher, asking.inbox);
      var (answered, got) := Answered(cipher, asking, k);
      if due != [] {
        ReplyExpectedIff(due[0], k);
        assert RepliesDue(due, k) ==> IsReply(due[0], k + 0);
      }
      if sent.Ok? && got.Ok? {
        HandshakeSucceedsIff(cipher, answered, k + 1);
        FirstReply(due, k);
      }
    }
  }

  lemma FirstReply(due: seq<DecodedBapFrame>, k: nat)
    requires k < 3 && due != [] && IsReply(due[0], k)
    ensures RepliesDue(due, k) <==> RepliesDue(due[1..], k + 1)
  {
    hide IsReply;
    if RepliesDue(due, k) {
      forall j | 0 <= j < 2 - k ensures IsReply(due[1..][j], k + 1 + j) {
        assert IsReply(due[j + 1], k + (j + 1));
      }
    }
    if RepliesDue(due[1..], k + 1) {
      forall j | 0 <= j < 3 - k ensures IsReply(due[j], k + j) {
        assert j > 0 ==> IsReply(due[1..][j - 1], k + 1 + (j - 1));
      }
    }
  }

  lemma TakenFirst(room: seq<nat>, k: nat)
    requires k < 3
    ensures RequestsTaken(room, k) <==>
              && (room != [] ==> RequestLen(k) <= room[0])
              && RequestsTaken(if room == [] then [] else room[1..], k + 1)
  {
    hide RequestLen;
    if room != [] && RequestsTaken(room[1..], k + 1) && RequestLen(k) <= room[0] {
      forall j | k <= j < 3 && j - k < |room| ensures RequestLen(j) <= room[j - k] {
        assert j > k ==> room[1..][j - (k + 1)] == room[j - k];
      }
    }
    if room != [] && RequestsTaken(room, k) {
      forall j | k + 1 <= j < 3 && j - (k + 1) < |room[1..]| ensures RequestLen(j) <= room[1..][j - (k + 1)] {
        assert room[1..][j - (k + 1)] == room[j - k];
      }
      assert RequestLen(k) <= room[k - k];
    }
  }
}
