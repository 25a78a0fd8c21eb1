/** What the client does about every kind of reply and every failure: which error, which state, and what
    is left to read. */
module ClientVerdicts {
  import opened Bytes
  import opened Sockets
  import opened Aead
  import opened GcmNonce
  import opened SessionContext
  import opened Framing
  import opened StreamFraming
  import opened Session
  import opened MessageCodec
  import opened ResponsePolicy
  import opened Pipeline
  import opened Client

  /** The error for a frame that is not the reply awaited: an unexpected message if it has another id,
      and an invalid one if it has none, or comes clear where it should be encrypted or the other way
      round. */
  ghost predicate RefusedAs(frame: DecodedBapFrame, awaited: u16, error: ClientError) {
    match frame
    case ClearFrame(id, _, _) => error == if id != awaited then UnexpectedMessage(id) else InvalidMessage
    case DecryptedFrame(Some(id), _, _, _) => error == if id != awaited then UnexpectedMessage(id) else InvalidMessage
    case DecryptedFrame(None, _, _, _) => error == InvalidMessage
    case OpaqueFrame(_, _) => error == InvalidMessage
  }

  lemma ExpectMeans(frame: DecodedBapFrame, awaited: u16, encrypted: bool)
    ensures var r := Expect(frame, awaited, encrypted);
            && (r.Ok? <==>
                  if encrypted then frame.DecryptedFrame? && frame.id == Some(awaited) && frame.context.Some?
                  else frame.ClearFrame? && frame.msgId == awaited)
            && (r.Ok? ==> r.value.Id() == awaited && r.value.Direction() == ServerToClient)
            && (r.Err? ==> RefusedAs(frame, awaited, r.error))
  {
    FrameMeans(frame, ServerToClient);
  }

  /** The reply awaited in exchange k. */
  ghost function Awaits(k: nat): u16 { if k == 0 then 0x1F else if k == 1 then 0x1A else 0x7A }

  /** The state of a client that has sent request k, and of one that has the reply to it. */
  ghost function Asking(k: nat): ClientProtocolState {
    if k == 0 then ServiceHandshakeSent else if k == 1 then SessionLoginSent else EncryptedHandshakeSent
  }

  ghost function Answered(k: nat): ClientProtocolState {
    if k == 0 then ServiceHandshakeComplete else if k == 1 then SessionEstablished else Active
  }

  /** A client about to send request k, by its state. */
  ghost predicate Ready(c: ClientValue, k: nat) {
    && c.state == (if k == 0 then Connected else Answered(k - 1))
    && (k >= 2 ==> c.cryptoReady)
  }

  /** Where exchange j ends in failure: its write fails, or no frame comes, or the wrong one. */
  ghost predicate StoppedAt(
    cipher: Cipher, due: seq<DecodedBapFrame>, room: seq<nat>, j: nat, d: ClientValue, error: ClientError)
    requires j < 3
  {
    if room != [] && RequestLen(j) > room[0] then
      error == WriteFailed && Ready(d, j) && ErrorFree(cipher, d.inbox) && Due(cipher, d.inbox) == due
    else
      && d.state == Asking(j) && ErrorFree(cipher, d.inbox)
      && if due == [] then error == EndOfStream && Due(cipher, d.inbox) == []
         else !IsReply(due[0], j) && RefusedAs(due[0], Awaits(j), error) && Due(cipher, d.inbox) == due[1..]
  }

  /** One exchange of the handshake. */
  lemma ExchangeVerdict(cipher: Cipher, c: ClientValue, k: nat)
    requires Lawful(cipher) && k < 3 && ErrorFree(cipher, c.inbox) && Ready(c, k)
    ensures var due, room := Due(cipher, c.inbox), c.outgoing.room;
            var (d, r) := Exchanged(cipher, c, k);
            if (room != [] ==> RequestLen(k) <= room[0]) && due != [] && IsReply(due[0], k) then
              exists e: ClientValue ::
                && Ready(e, k + 1) && (k == 2 ==> e.cryptoReady) && ErrorFree(cipher, e.inbox)
                && Due(cipher, e.inbox) == due[1..] && e.outgoing.room == (if room == [] then [] else room[1..])
                && Exchanged(cipher, c, k) == Exchanged(cipher, e, k + 1)
            else r.Err? && StoppedAt(cipher, due, room, k, d, r.error)
  {
    hide ErrorFree, Due, NextFrame, Expect, RequestLen, IsReply, Asked, RefusedAs;
    var due, room := Due(cipher, c.inbox), c.outgoing.room;
    AskingFailsIff(cipher, c, k);
    AskedStates(cipher, c, k);
    var (asking, sent) := Asked(cipher, c, k);
    DeliveryIsFifo(cipher, asking.inbox);
    if due != [] {
      ReplyExpectedIff(due[0], k);
      ExpectMeans(due[0], REPLY_IDS[k], k == 2);
    }
    if sent.Ok? {
      var (answered, got) := Client.Answered(cipher, asking, k);
      if got.Ok? {
        assert Ready(answered, k + 1) && Exchanged(cipher, c, k) == Exchanged(cipher, answered, k + 1);
      }
    }
  }

  lemma AskedStates(cipher: Cipher, c: ClientValue, k: nat)
    requires k < 3
    ensures var (d, sent) := Asked(cipher, c, k);
            && d.state == (if sent.Ok? then Asking(k) else c.state) && d.cryptoReady == c.cryptoReady
            && (sent.Err? && k < 2 ==> sent.error == WriteFailed)
    ensures Lawful(cipher) && k == 2 && Asked(cipher, c, k).1.Err? ==> Asked(cipher, c, k).1.error == WriteFailed
  {
    hide Encoding, ClearRaw;
    if Lawful(cipher) {
      SealedLayout(cipher, c.inbox.crypto, ClientToServer, 0x79, SIM_CONTEXT, PAYLOAD_79);
    }
  }

  /** The first n replies from k on are due, and the socket takes the first n requests. */
  ghost predicate GoodFor(due: seq<DecodedBapFrame>, room: seq<nat>, k: nat, n: nat)
    requires k + n <= 3
  {
    && |due| >= n
    && (forall i | 0 <= i < n :: IsReply(due[i], k + i))
    && (forall i | 0 <= i < n && i < |room| :: RequestLen(k + i) <= room[i])
  }

  /** Exchange j, the n-th from here, cannot succeed. */
  ghost predicate Blocked(due: seq<DecodedBapFrame>, room: seq<nat>, n: nat, j: nat)
    requires j < 3
  {
    || (n < |room| && RequestLen(j) > room[n])
    || n >= |due| || !IsReply(due[n], j)
  }

  function From<T>(s: seq<T>, n: nat): seq<T> { if n <= |s| then s[n..] else [] }

  lemma GoodStep(due: seq<DecodedBapFrame>, room: seq<nat>, k: nat, n: nat)
    requires k + n < 3 && n > 0 && GoodFor(due, room, k, n) && Blocked(due, room, n, k + n)
    ensures due != [] && IsReply(due[0], k) && (room != [] ==> RequestLen(k) <= room[0])
    ensures GoodFor(due[1..], From(room, 1), k + 1, n - 1) && Blocked(due[1..], From(room, 1), n - 1, k + n)
    ensures From(due[1..], n - 1) == From(due, n) && From(From(room, 1), n - 1) == From(room, n)
  {
    hide IsReply, RequestLen;
    var more, left := due[1..], From(room, 1);
    assert IsReply(due[0], k + 0) && (room != [] ==> RequestLen(k + 0) <= room[0]);
    forall i | 0 <= i < n - 1 ensures IsReply(more[i], k + 1 + i) {
      assert IsReply(due[i + 1], k + (i + 1));
    }
    forall i | 0 <= i < n - 1 && i < |left| ensures RequestLen(k + 1 + i) <= left[i] {
      assert RequestLen(k + (i + 1)) <= room[i + 1];
    }
  }

  /** Every failing handshake, exactly. On an error-free stream, if n replies are due and as many requests
      are taken, and in the exchange after those the write fails, or nothing is due, or another frame
      than the reply, then the handshake ends there: with that error, in the state of that exchange,
      with exactly the frames looked at taken. */
  lemma {:induction false} HandshakeStops(cipher: Cipher, c: ClientValue, k: nat, n: nat)
    requires Lawful(cipher) && k + n < 3 && ErrorFree(cipher, c.inbox) && Ready(c, k)
    requires GoodFor(Due(cipher, c.inbox), c.outgoing.room, k, n)
    requires Blocked(Due(cipher, c.inbox), c.outgoing.room, n, k + n)
    ensures var (d, r) := Exchanged(cipher, c, k);
            && r.Err?
            && StoppedAt(cipher, From(Due(cipher, c.inbox), n), From(c.outgoing.room, n), k + n, d, r.error)
    decreases n
  {
    hide ErrorFree, Due, RequestLen, IsReply, Exchanged, StoppedAt, Ready, GoodFor, Blocked, From;
    var due, room := Due(cipher, c.inbox), c.outgoing.room;
    ExchangeVerdict(cipher, c, k);
    if n == 0 {
      FromStart(due, room, k);
    } else {
      GoodStep(due, room, k, n);
      FromOne(room);
      var e: ClientValue :|
        && Ready(e, k + 1) && ErrorFree(cipher, e.inbox) && Due(cipher, e.inbox) == due[1..]
        && e.outgoing.room == (if room == [] then [] else room[1..])
        && Exchanged(cipher, c, k) == Exchanged(cipher, e, k + 1);
      HandshakeStops(cipher, e, k + 1, n - 1);
    }
  }

  lemma FromStart(due: seq<DecodedBapFrame>, room: seq<nat>, j: nat)
    requires j < 3
    ensures From(due, 0) == due && From(room, 0) == room
    ensures Blocked(due, room, 0, j) <==>
              !((room != [] ==> RequestLen(j) <= room[0]) && due != [] && IsReply(due[0], j))
  {
  }

  lemma FromOne(room: seq<nat>)
    ensures From(room, 1) == if room == [] then [] else room[1..]
  {
  }

  /** A keepalive, exactly: it needs its write to succeed and the next frame due to be a clear 0xFB, and
      then hands that over and leaves the client Active; everything else fails with its own error and
      leaves the state as it was. */
  lemma KeepaliveVerdict(cipher: Cipher, c: ClientValue)
    requires ErrorFree(cipher, c.inbox)
    ensures var due, room := Due(cipher, c.inbox), c.outgoing.room;
            var (d, r) := Pinged(cipher, c);
            && ErrorFree(cipher, d.inbox)
            && if room != [] && room[0] < 18 then r == Err(WriteFailed) && d.state == c.state && d.inbox == c.inbox
               else if due == [] then r == Err(EndOfStream) && d.state == c.state
               else
                 && Due(cipher, d.inbox) == due[1..]
                 && if due[0].ClearFrame? && due[0].msgId == 0xFB then r == Ok(due[0]) && d.state == Active
                    else r.Err? && RefusedAs(due[0], 0xFB, r.error) && d.state == c.state
  {
    hide ErrorFree, Due, NextFrame, Expect, RefusedAs;
    var due := Due(cipher, c.inbox);
    DeliveryIsFifo(cipher, c.inbox);
    if due != [] {
      ExpectMeans(due[0], 0xFB, false);
    }
  }

  /** What a write leaves: the frame on the stream, or the part of it that went out, and the error. */
  ghost predicate Writes(c: ClientValue, sent: (ClientValue, Result<(), ClientError>), wire: Octets, reached:
      ClientProtocolState)
  {
    var (d, r) := sent;
    && d.outgoing == c.outgoing.Write(wire) && d.cryptoReady == c.cryptoReady
    && r == (if c.outgoing.Takes(wire) then Ok(()) else Err(WriteFailed))
    && d.state == if r.Ok? then reached else c.state
  }

  /** Every clear frame that the client sends is what a server reads, and nothing of its own session changes. */
  lemma ClearRequestsAreReadable(cipher: Cipher, c: ClientValue, server: Context)
      returns (w1E: Octets, w19: Octets, wFA: Octets)
    requires Lawful(cipher)
    ensures Writes(c, Asked(cipher, c, 0), w1E, ServiceHandshakeSent) && Asked(cipher, c, 0).0.inbox == c.inbox
    ensures Writes(c, Asked(cipher, c, 1), w19, SessionLoginSent) && Asked(cipher, c, 1).0.inbox == c.inbox
    ensures Writes(c, KeptAlive(c), wFA, c.state) && KeptAlive(c).0.inbox == c.inbox
    ensures Decoding(cipher, server, ClientToServer, w1E).1 == Ok(ClearFrame(0x1E, 1, SIM + [0x31, 0x45]))
    ensures Decoding(cipher, server, ClientToServer, w19).1 == Ok(ClearFrame(0x19, 1, SIM + [0x31, 0x39]))
    ensures Decoding(cipher, server, ClientToServer, wFA).1 == Ok(ClearFrame(0xFA, 1, SIM + [0x46, 0x41]))
  {
    hide Decoding, Encoding, ClearRaw;
    w1E, w19 := ClearRaw(0x1E, 1, SIM + [0x31, 0x45]), ClearRaw(0x19, 1, SIM + [0x31, 0x39]);
    wFA := ClearRaw(0xFA, 1, SIM + [0x46, 0x41]);
    FrameRoundTrip(cipher, server, server, ClientToServer, 0x1E, 1, SIM + [0x31, 0x45]);
    FrameRoundTrip(cipher, server, server, ClientToServer, 0x19, 1, SIM + [0x31, 0x39]);
    FrameRoundTrip(cipher, server, server, ClientToServer, 0xFA, 1, SIM + [0x46, 0x41]);
  }

  /** So is every encrypted one if key and nonce agree, and it uses a nonce, whether or not it gets through. */
  lemma SealedRequestsAreReadable(cipher: Cipher, c: ClientValue, server: Context)
      returns (w79: Octets, w12E: Octets)
    requires Lawful(cipher) && server.key == c.inbox.crypto.key && server.c2s.nonce == c.inbox.crypto.c2s.nonce
    ensures Writes(c, Asked(cipher, c, 2), w79, EncryptedHandshakeSent)
    ensures Writes(c, Probed(cipher, c), w12E, Active)
    ensures var sealed := c.inbox.(crypto := Advance(c.inbox.crypto, ClientToServer));
            Asked(cipher, c, 2).0.inbox == Probed(cipher, c).0.inbox == sealed
    ensures Decoding(cipher, server, ClientToServer, w79).1 ==
            Ok(DecryptedFrame(Some(0x79), Some(1), SIM + [0x37, 0x39], 12))
    ensures Decoding(cipher, server, ClientToServer, w12E).1 ==
            Ok(DecryptedFrame(Some(0x12E), Some(1), SIM + [0x31, 0x32, 0x45], 13))
  {
    hide Decoding, Encoding, ClearRaw;
    var crypto := c.inbox.crypto;
    FrameRoundTrip(cipher, crypto, server, ClientToServer, 0x79, 1, SIM + [0x37, 0x39]);
    FrameRoundTrip(cipher, crypto, server, ClientToServer, 0x12E, 1, SIM + [0x31, 0x32, 0x45]);
    SealedLayout(cipher, crypto, ClientToServer, 0x79, 1, SIM + [0x37, 0x39]);
    SealedLayout(cipher, crypto, ClientToServer, 0x12E, 1, SIM + [0x31, 0x32, 0x45]);
    w79 := Encoding(cipher, crypto, ClientToServer, 0x79, 1, SIM + [0x37, 0x39]).1.value;
    w12E := Encoding(cipher, crypto, ClientToServer, 0x12E, 1, SIM + [0x31, 0x32, 0x45]).1.value;
  }

  /** Reads that deliver these pieces. */
  ghost function Gots(pieces: seq<Octets>): seq<SocketRead> {
    if pieces == [] then [] else [Got(pieces[0])] + Gots(pieces[1..])
  }

  /** A read that fails, after any number of reads that completed no frame, each kind with its own error: a
      timeout, a failure, the end of the stream, a bad header, and a frame that the session does not
      decode, which loses the frames that the same read completed before it. Nothing is handed over
      or stacked, and what comes later is not read. */
  lemma {:induction false} ReadFails(cipher: Cipher, i: Inbox, pieces: seq<Octets>, last: SocketRead,
      later: seq<SocketRead>)
    requires i.pending == [] && i.incoming == Gots(pieces) + ([last] + later) && forall p <- pieces :: p != []
    requires Settled(i.buf, MAX_BODY_LEN) && Settled(i.buf + Concat(pieces), MAX_BODY_LEN)
    ensures var held := i.buf + Concat(pieces);
            var (j, r) := NextFrame(cipher, i);
            match last
            case TimedOut => r == Err(ReadTimedOut) && j == i.(buf := held, incoming := later)
            case Lost => r == Err(ReadFailed) && j == i.(buf := held, incoming := later)
            case Got(chunk) =>
              if chunk == [] then r == Err(EndOfStream) && j == i.(buf := held, incoming := later)
              else
                var v := Carve(held + chunk, MAX_BODY_LEN);
                var (crypto, fs) := DecodeAll(cipher, i.crypto, ServerToClient, v.frames);
                if v.error.Some? then
                  r == Err(BadFraming(v.error.value)) && j == i.(buf := v.rest, incoming := later)
                else if fs.Err? then
                  r == Err(fs.error) && j == i.(buf := v.rest, crypto := crypto, incoming := later)
                else fs.value != [] ==> r == Ok(fs.value[0])
    decreases |pieces|
  {
    hide Carve, DecodeAll, FrontOf;
    if pieces == [] {
      assert i.incoming == [last] + later && i.incoming[0] == last && i.incoming[1..] == later;
      assert i.buf + Concat(pieces) == i.buf;
    } else {
      var more := i.incoming[1..];
      assert i.incoming[0] == Got(pieces[0]) && more == Gots(pieces[1..]) + ([last] + later);
      assert pieces[0] in pieces && forall p <- pieces[1..] :: p in pieces;
      assert i.buf + Concat(pieces) == i.buf + pieces[0] + Concat(pieces[1..]);
      AwaitedOne(cipher, i);
      PartOfSettled(i.buf + pieces[0], Concat(pieces[1..]));
      SettledCarvesNothing(i.buf + pieces[0]);
      NothingToDecode(cipher, i.crypto);
      var next := i.(buf := i.buf + pieces[0], incoming := more);
      assert Ingested(cipher, i.(incoming := more), pieces[0]) == (next, Ok([]));
      ReadFails(cipher, next, pieces[1..], last, later);
    }
  }

  lemma PartOfSettled(buf: Octets, more: Octets)
    requires Settled(buf + more, MAX_BODY_LEN)
    ensures Settled(buf, MAX_BODY_LEN)
  {
    FrontStable(buf, more, MAX_BODY_LEN);
  }

  lemma SettledCarvesNothing(buf: Octets)
    requires Settled(buf, MAX_BODY_LEN)
    ensures Carve(buf, MAX_BODY_LEN) == Carving([], buf, None)
  {
  }

  lemma NothingToDecode(cipher: Cipher, c: Context)
    ensures DecodeAll(cipher, c, ServerToClient, []) == (c, Ok([]))
  {
  }

  /** A settled buffer, read off its bytes: no sound frame in front, and no header that would be refused. */
  lemma SettledIff(buf: Octets, max: nat)
    ensures Settled(buf, max) <==>
              && NoSoundFrame(buf, max)
              && (|buf| < 6 || (buf[0] == 1 && (buf[1] == 1 || buf[1] == 2) && BigEndian(buf[2..6]) <= max))
  {
    hide Carve, BigEndian, NoSoundFrame;
    NoSoundFrameMeans(buf, max);
    if NoSoundFrame(buf, max) {
      assert RawBytesOf([]) + buf == buf;
      HeaderRefusedIff([], buf, max);
      CarveStops(buf, max);
      CarveVerdict([], buf, max);
    }
  }

  /** In particular a frame that does not authenticate: its nonce is used up and the read fails. */
  lemma TamperedReply(cipher: Cipher, i: Inbox, tag: Tag, ciphertext: Octets, later: seq<SocketRead>)
    requires i.pending == [] && i.buf == [] && ciphertext != [] && TAG_LEN + |ciphertext| <= MAX_BODY_LEN
    requires i.incoming == [Got(EncryptedRaw(tag, ciphertext))] + later
    requires cipher.open(i.crypto.key, i.crypto.s2c.nonce, ciphertext, tag).None?
    ensures NextFrame(cipher, i) ==
            (i.(crypto := Advance(i.crypto, ServerToClient), incoming := later), Err(CryptoFailed(DecryptFailed)))
  {
    hide Carve, Decoding, Carved, EncryptedRaw, Advance, FrontOf, NextFrame;
    var wire := EncryptedRaw(tag, ciphertext);
    EncryptedIsCarved(tag, ciphertext);
    OpensIff(cipher, i.crypto, ServerToClient, tag, ciphertext);
    CarveFirst(RawFrom(wire), [], MAX_BODY_LEN);
    EmptySettled();
    SettledCarvesNothing([]);
    assert wire + [] == wire && [] + wire == wire && [RawFrom(wire)] + [] == [RawFrom(wire)];
    assert Gots([]) + ([Got(wire)] + later) == [Got(wire)] + later;
    assert i.buf + Concat<byte>([]) == [];
    ReadFails(cipher, i, [], Got(wire), later);
    assert DecodeAll(cipher, i.crypto, ServerToClient, [RawFrom(wire)]) ==
           (Advance(i.crypto, ServerToClient), Err(CryptoFailed(DecryptFailed)));
  }

  lemma EmptySettled()
    ensures Settled([], MAX_BODY_LEN)
  {
  }
}
