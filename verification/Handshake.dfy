/** Client and boundary server together, joined by two byte queues, every interleaving of their
    steps and every size of every read. After the handshake the client goes on with keepalives and
    NAT probes. */
module Handshake {
  import opened Bytes
  import opened Sockets
  import opened Aead
  import opened GcmNonce
  import opened SessionContext
  import opened StreamFraming
  import opened Session
  import opened Boundary
  import opened Pipeline
  import opened Client
  import opened Exchange
  import Protocol = ProtocolState
  import Policy = ResponsePolicy

  /** Both ends read at most this much at a time. */
  const MAX_READ := DEFAULT_MAX_READ_CHUNK

  /** Both ends and the bytes under way. `round` exchanges are complete; `waiting` tells whether the
      client has sent the next request; `unanswered` counts the frames it has sent since the last
      reply it read; `received` is what it has read so far, and its `outgoing` what it has written.
      A server that refuses shuts its socket, which ends the run. */
  datatype World = World(
    round: nat, waiting: bool, unanswered: nat, client: ClientValue, clientFailed: bool, received: seq<SocketRead>,
    server: Connection, refusal: Option<BoundaryError>, c2s: Octets, s2c: Octets)

  datatype Step = Ask | Probe | ClientReads(n: nat) | ServerReads(n: nat)

  /** The frames sent by the client that the server has not recovered yet. */
  ghost function UnderWay(w: World): nat { |Carve(w.server.buf + w.c2s, MAX_BODY_LEN).frames| }

  /** A client that sends at most `window` frames without a reply, which it can count by itself. A
      client that has used them up on probes can send no more. */
  ghost predicate Enabled(w: World, step: Step, window: nat) {
    && !w.clientFailed && w.refusal.None?
    && match step
       case Ask => !w.waiting && w.unanswered < window
       case Probe => !w.waiting && w.unanswered < window &&
           (w.client.state == EncryptedChannelEstablished || w.client.state == Active)
       case ClientReads(n) => w.waiting && 1 <= n <= |w.s2c| && n <= MAX_READ
       case ServerReads(n) => 1 <= n <= |w.c2s| && n <= MAX_READ
  }

  /** Sends the next request, exactly as the client's own code does. */
  ghost function AskNext(cipher: Cipher, w: World): World {
    Writes(w, if w.round < 3 then Client.Asked(cipher, w.client, w.round) else KeptAlive(w.client)).(waiting := true)
  }

  ghost function ProbeNext(cipher: Cipher, w: World): World { Writes(w, Probed(cipher, w.client)) }

  /** What the client writes goes on the wire. */
  ghost function Writes(w: World, sent: (ClientValue, Result<(), ClientError>)): World {
    w.(client := sent.0, clientFailed := sent.1.Err?, unanswered := w.unanswered + 1,
       c2s := w.c2s + WrittenSince(w.client.outgoing.written, sent.0.outgoing.written))
  }

  ghost function WrittenSince(before: seq<Octets>, after: seq<Octets>): Octets {
    if |before| <= |after| then Concat(after[|before|..]) else []
  }

  /** One read by the client, and the check of the reply if the read completes one. */
  ghost function ClientReadNext(cipher: Cipher, w: World, n: nat): World
    requires n <= |w.s2c|
  {
    var (inbox, r) := Ingested(cipher, w.client.inbox, w.s2c[..n]);
    var v := w.(client := w.client.(inbox := inbox), received := w.received + [Got(w.s2c[..n])], s2c := w.s2c[n..]);
    match r
    case Err(_) => v.(clientFailed := true)
    case Ok(fs) =>
      if fs == [] then v
      else if Expect(fs[0], ReplyId(w.round), w.round == 2).Err? then v.(clientFailed := true)
      else
        v.(round := w.round + 1, waiting := false, unanswered := 0,
           client := w.client.(inbox := inbox.(pending := inbox.pending + Reverse(fs[1..])),
                               state := if w.round < 3 then ANSWERED[w.round] else Active,
                               cryptoReady := w.client.cryptoReady || w.round >= 1))
  }

  /** One read by the server; its replies go on the wire. */
  ghost function ServerReadNext(cipher: Cipher, w: World, n: nat): World
    requires n <= |w.c2s|
  {
    var r := FeedEffect(cipher, w.server.core, w.server.buf, w.c2s[..n]).result;
    var server := Fed(cipher, w.server, w.c2s[..n]);
    w.(server := server.(core := server.core.(outbound := [])), refusal := if r.Err? then Some(r.error) else None,
       c2s := w.c2s[n..], s2c := w.s2c + Concat(server.core.outbound))
  }

  ghost function Next(cipher: Cipher, w: World, step: Step, window: nat): World
    requires Enabled(w, step, window)
  {
    match step
    case Ask => AskNext(cipher, w)
    case Probe => ProbeNext(cipher, w)
    case ClientReads(n) => ClientReadNext(cipher, w, n)
    case ServerReads(n) => ServerReadNext(cipher, w, n)
  }

  /** A client just connected, and the reads to come. */
  ghost function NewClient(key: Key, nonce: Nonce, incoming: seq<SocketRead>): ClientValue {
    ClientValue(Connected, Inbox([], Fresh(key, nonce), [], incoming), Outlet([], []), false)
  }

  /** Both ends just connected, with the same key and nonce. */
  ghost function Begin(id: u64, key: Key, nonce: Nonce): World {
    World(0, false, 0, NewClient(key, nonce, []), false, [], Initial(id, key, nonce), None, [], [])
  }

  /** The states reached by a schedule all of whose steps were possible. */
  ghost predicate Reaches(cipher: Cipher, window: nat, start: World, steps: seq<Step>, w: World)
    decreases |steps|
  {
    if steps == [] then w == start
    else
      var last := |steps| - 1;
      exists v ::
        && Reaches(cipher, window, start, steps[..last], v)
        && Enabled(v, steps[last], window) && w == Next(cipher, v, steps[last], window)
  }

  /** Bytes that carry some messages of one direction, from what their reader has not carved yet to
      what their sender wrote last; and the nonces of the two ends, apart by those messages. */
  ghost predicate Carries(
    cipher: Cipher, reader: Context, writer: Context, d: Direction, ms: seq<Message>, bytes: Octets)
  {
    var (c, wires) := SendAll(cipher, reader, ms);
    reader.key == writer.key && c.Of(d) == writer.Of(d) && bytes == Concat(wires)
  }

  /** The client has finished k exchanges, or is waiting in exchange k. */
  ghost predicate ClientAt(client: ClientValue, k: nat, waiting: bool) {
    && client.inbox.pending == [] && client.inbox.incoming == [] && client.outgoing.room == []
    && client.state == (if k >= 3 then Active else if waiting then ASKING[k]
                        else if k == 0 then Connected else ANSWERED[k - 1])
    && (k >= 2 ==> client.cryptoReady)
    && var n := k + if waiting then 1 else 0;
       if k < 3 then |client.outgoing.written| == n
       else |client.outgoing.written| >= n && |client.outgoing.written| >= 3
  }

  /** Where the messages are: `todo` on their way to the server, `back` on their way to the client.
      Together they hold exactly the reply the client waits for, if it does. */
  ghost predicate Consistent(cipher: Cipher, w: World, todo: seq<Message>, back: seq<Message>) {
    var core, stage := w.server.core, w.round + |back|;
    && !w.clientFailed && w.refusal.None?
    && ClientAt(w.client, w.round, w.waiting)
    && Serving(core, stage) && core.outbound == [] && |w.server.buf| < MAX_WIRE
    && Asks(stage, todo)
    && back + AnswersTo(stage, todo) == (if w.waiting then [Reply(w.round)] else [])
    && (w.round < 3 ==> |todo| + |back| <= 1)
    && Carries(cipher, core.server.crypto, w.client.inbox.crypto, ClientToServer, todo, w.server.buf + w.c2s)
    && Carries(cipher, w.client.inbox.crypto, core.server.crypto, ServerToClient, back, w.client.inbox.buf + w.s2c)
    && (todo != [] ==> w.c2s != []) && (back != [] ==> w.s2c != [])
  }

  lemma CarriesSame(cipher: Cipher, reader: Context, writer: Context, d: Direction, ms: seq<Message>, bytes: Octets,
      reader': Context, writer': Context)
    requires Carries(cipher, reader, writer, d, ms, bytes) && Along(d, ms)
    requires reader'.key == reader.key && reader'.Of(d) == reader.Of(d)
    requires writer'.key == writer.key && writer'.Of(d) == writer.Of(d)
    ensures Carries(cipher, reader', writer', d, ms, bytes)
  {
    hide SendAll;
    OtherSideIgnored(cipher, reader, reader', d, ms);
  }

  /** The writer sends more. */
  lemma CarriesMore(cipher: Cipher, reader: Context, writer: Context, d: Direction, ms: seq<Message>, bytes: Octets,
      more: seq<Message>, writer': Context)
    requires Carries(cipher, reader, writer, d, ms, bytes) && Along(d, ms) && Along(d, more)
    requires writer'.key == writer.key && writer'.Of(d) == SendAll(cipher, writer, more).0.Of(d)
    ensures Along(d, ms + more)
    ensures Carries(cipher, reader, writer', d, ms + more, bytes + Concat(SendAll(cipher, writer, more).1))
  {
    hide SendAll, Concat;
    var (c, wires) := SendAll(cipher, reader, ms);
    SendAllAppend(cipher, reader, ms, more);
    OtherSideIgnored(cipher, reader, reader, d, ms);
    OtherSideIgnored(cipher, c, writer, d, more);
    ConcatAppend(wires, SendAll(cipher, c, more).1);
  }

  /** The reader has carved and decoded the first k messages. */
  lemma CarriesRest(cipher: Cipher, reader: Context, writer: Context, d: Direction, ms: seq<Message>, k: nat,
      got: Octets, missing: Octets)
    requires k <= |ms| && Carries(cipher, reader, writer, d, ms, got + missing) && Along(d, ms)
    requires Arrived(cipher, reader, ms, k, got, missing)
    ensures Along(d, ms[..k]) && Along(d, ms[k..])
    ensures Carries(cipher, SendAll(cipher, reader, ms[..k]).0, writer, d, ms[k..],
                    Carve(got, MAX_BODY_LEN).rest + missing)
  {
    hide SendAll, Carve, FrontOf;
    assert ms[..k] + ms[k..] == ms;
    SendAllAppend(cipher, reader, ms[..k], ms[k..]);
    OtherSideIgnored(cipher, reader, reader, d, ms[..k]);
  }

  lemma WireWritten(wire: Octets, before: seq<Octets>)
    ensures WrittenSince(before, before + [wire]) == wire
  {
    assert (before + [wire])[|before|..] == [wire];
    assert Concat([wire]) == wire + Concat([wire][1..]) == wire;
  }

  /** What asking does to the world. */
  lemma AskWrites(cipher: Cipher, w: World)
    requires Lawful(cipher) && !w.clientFailed && w.client.outgoing.room == []
    ensures var (crypto, wire) := Send(cipher, w.client.inbox.crypto, Request(w.round));
            AskNext(cipher, w) ==
            w.(client := w.client.(inbox := w.client.inbox.(crypto := crypto),
                                   outgoing := Outlet(w.client.outgoing.written + [wire], []),
                                   state := if w.round < 3 then ASKING[w.round] else w.client.state),
               c2s := w.c2s + wire, waiting := true, unanswered := w.unanswered + 1)
  {
    hide Encoding, ClearRaw, WrittenSince;
    var c := w.client.inbox.crypto;
    FrameRoundTrip(cipher, c, c, ClientToServer, 0x79, Policy.SIM_CONTEXT, PAYLOAD_79);
    WireWritten(Send(cipher, c, Request(w.round)).1, w.client.outgoing.written);
  }

  lemma ProbeWrites(cipher: Cipher, w: World)
    requires Lawful(cipher) && !w.clientFailed && w.client.outgoing.room == []
    ensures var (crypto, wire) := Send(cipher, w.client.inbox.crypto, PROBE);
            ProbeNext(cipher, w) ==
            w.(client := w.client.(inbox := w.client.inbox.(crypto := crypto),
                                   outgoing := Outlet(w.client.outgoing.written + [wire], []),
                                   state := Active),
               c2s := w.c2s + wire, unanswered := w.unanswered + 1)
  {
    hide Encoding, ClearRaw, WrittenSince;
    var c := w.client.inbox.crypto;
    FrameRoundTrip(cipher, c, c, ClientToServer, 0x12E, Policy.SIM_CONTEXT, PAYLOAD_12E);
    WireWritten(Send(cipher, c, PROBE).1, w.client.outgoing.written);
  }

  /** One more message under way to the server. */
  lemma SentOneMore(cipher: Cipher, w: World, todo: seq<Message>, back: seq<Message>, m: Message)
    requires Lawful(cipher) && Consistent(cipher, w, todo, back) && m.direction == ClientToServer && |m.payload| <= 9
    ensures var (crypto, wire) := Send(cipher, w.client.inbox.crypto, m);
            && wire != []
            && Carries(cipher, w.server.core.server.crypto, crypto, ClientToServer, todo + [m],
                       w.server.buf + (w.c2s + wire))
            && Carries(cipher, crypto, w.server.core.server.crypto, ServerToClient, back, w.client.inbox.buf + w.s2c)
  {
    hide SendAll, Send, Concat, Asks, AnswersTo, Serving, Carries, ClientAt, Request, Reply, FrontOf, Carved,
      Message.Encodable, Message.Fits;
    var c, s, stage := w.client.inbox.crypto, w.server.core.server.crypto, w.round + |back|;
    var (crypto, wire) := Send(cipher, c, m);
    UnderWayAreShort(cipher, w, todo, back);
    ShortWire(cipher, c, m);
    SendAllOne(cipher, c, m);
    assert Along(ClientToServer, [m]);
    OtherSideIgnored(cipher, c, c, ClientToServer, [m]);
    CarriesMore(cipher, s, c, ClientToServer, todo, w.server.buf + w.c2s, [m], crypto);
    OneWire(wire);
    assert w.server.buf + w.c2s + wire == w.server.buf + (w.c2s + wire);
    CarriesSame(cipher, c, s, ServerToClient, back, w.client.inbox.buf + w.s2c, crypto, s);
  }

  lemma OneWire(wire: Octets)
    ensures Concat([wire]) == wire
  {
    assert Concat([wire]) == wire + Concat([wire][1..]) == wire;
  }

  lemma UnderWayAreShort(cipher: Cipher, w: World, todo: seq<Message>, back: seq<Message>)
    requires Consistent(cipher, w, todo, back)
    ensures Along(ClientToServer, todo) && Along(ServerToClient, back)
    ensures |back| <= 1 && (w.waiting <==> back + AnswersTo(w.round + |back|, todo) != [])
    ensures !w.waiting ==> back == [] && AnswersTo(w.round, todo) == []
    ensures back != [] ==> back == [Reply(w.round)] && AnswersTo(w.round + 1, todo) == []
  {
    hide Serving, Carries, ClientAt, Asks, AnswersTo;
    AsksAreShort(w.round + |back|, todo);
    var answers := AnswersTo(w.round + |back|, todo);
    if back != [] {
      assert (back + answers)[0] == back[0];
      assert |back + answers| == |back| + |answers| == 1;
    }
  }

  lemma AskStep(cipher: Cipher, w: World, todo: seq<Message>, back: seq<Message>)
    requires Lawful(cipher) && Consistent(cipher, w, todo, back) && !w.waiting
    ensures Consistent(cipher, AskNext(cipher, w), todo + [Request(w.round)], back)
  {
    hide Send, Carries, Serving, Asks, AnswersTo, Carve;
    var m := Request(w.round);
    UnderWayAreShort(cipher, w, todo, back);
    AskWrites(cipher, w);
    SentOneMore(cipher, w, todo, back, m);
    AsksAppend(w.round, todo, [m]);
    AsksOne(w.round, m);
    if w.round < 3 {
      EarlyClientHasNothingUnderWay(w.round, todo);
    }
  }

  /** Before the handshake is done there is nothing but the request waited for. */
  lemma EarlyClientHasNothingUnderWay(s: nat, todo: seq<Message>)
    requires Asks(s, todo) && AnswersTo(s, todo) == [] && s < 3
    ensures todo == []
  {
    hide Request, Reply;
  }

  lemma ProbeStep(cipher: Cipher, w: World, todo: seq<Message>, back: seq<Message>)
    requires Lawful(cipher) && Consistent(cipher, w, todo, back) && !w.waiting
    requires w.client.state == EncryptedChannelEstablished || w.client.state == Active
    ensures Consistent(cipher, ProbeNext(cipher, w), todo + [PROBE], back)
  {
    hide Send, Carries, Serving, Asks, AnswersTo, Carve;
    UnderWayAreShort(cipher, w, todo, back);
    assert w.round >= 3;
    ProbeWrites(cipher, w);
    SentOneMore(cipher, w, todo, back, PROBE);
    AsksAppend(w.round, todo, [PROBE]);
    AsksOne(w.round, PROBE);
  }

  /** What one read that completes at most 64 frames does to the server. */
  lemma FeedAnswers(cipher: Cipher, c: Connection, stage: nat, todo: seq<Message>, k: nat, chunk: Octets,
      missing: Octets)
    requires Lawful(cipher) && Serving(c.core, stage) && Asks(stage, todo) && k <= |todo|
    requires |c.buf| < MAX_WIRE && |chunk| <= MAX_READ
    requires Arrived(cipher, c.core.server.crypto, todo, k, c.buf + chunk, missing)
    requires k == |Carve(c.buf + chunk, MAX_BODY_LEN).frames|
    ensures var r := FeedEffect(cipher, c.core, c.buf, chunk).result;
            if k > DEFAULT_MAX_FRAMES_PER_ITER then
              r == Err(LimitExceeded(FramesPerIter)) && Fed(cipher, c, chunk).core.state == Boundary.Closed
            else
              && r == Ok(k) && Fed(cipher, c, chunk).buf == Carve(c.buf + chunk, MAX_BODY_LEN).rest
              && AnsweredAll(cipher, c.core, stage, todo[..k], Fed(cipher, c, chunk).core)
  {
    hide Carve, SendAll, EachEffect, Asks, AnswersTo, AtStage, FrontOf, RawsOf, Concat;
    AsksAppend(stage, todo[..k], todo[k..]);
    assert todo[..k] + todo[k..] == todo;
    if k <= DEFAULT_MAX_FRAMES_PER_ITER {
      ServerAnswers(cipher, Awake(c.core), stage, todo[..k]);
    }
  }

  lemma ServerReadStep(cipher: Cipher, w: World, todo: seq<Message>, back: seq<Message>, n: nat)
      returns (todo': seq<Message>, back': seq<Message>)
    requires Lawful(cipher) && Consistent(cipher, w, todo, back) && 1 <= n <= |w.c2s| && n <= MAX_READ
    ensures var v := ServerReadNext(cipher, w, n);
            var k := |Carve(w.server.buf + w.c2s[..n], MAX_BODY_LEN).frames|;
            && k <= |todo| && todo' == todo[k..] && (n == |w.c2s| ==> k == |todo|)
            && back' == back + AnswersTo(w.round + |back|, todo[..k])
            && if k <= DEFAULT_MAX_FRAMES_PER_ITER then
                 Consistent(cipher, v, todo', back') && (n == |w.c2s| ==> v.server.buf == [])
               else
                 v.refusal == Some(LimitExceeded(FramesPerIter)) && v.server.core.state == Boundary.Closed
  {
    hide Consistent, Carve, SendAll, Fed, FeedEffect, Asks, AnswersTo, Serving, ClientAt, FrontOf, RawsOf, Carries,
      Arrived, AnsweredAll, Request, Reply, Concat;
    var stage, crypto := w.round + |back|, w.server.core.server.crypto;
    var chunk, missing := w.c2s[..n], w.c2s[n..];
    var got := w.server.buf + chunk;
    UnderWayAreShort(cipher, w, todo, back);
    ServerIsReady(cipher, w, todo, back);
    assert w.server.buf + w.c2s == got + missing;
    CarriedBytes(cipher, w, todo, back);
    var k := MessagesArrive(cipher, crypto, ClientToServer, todo, got, missing);
    todo', back' := todo[k..], back + AnswersTo(stage, todo[..k]);
    ServingAsks(stage, todo, k);
    FeedAnswers(cipher, w.server, stage, todo, k, chunk, missing);
    ArrivedMeans(cipher, crypto, todo, k, got, missing);
    if k <= DEFAULT_MAX_FRAMES_PER_ITER {
      var fed := Fed(cipher, w.server, chunk);
      CarriesRest(cipher, crypto, w.client.inbox.crypto, ClientToServer, todo, k, got, missing);
      AnswersCarried(cipher, w, todo, back, k, fed.core, fed.buf + missing);
      AfterRead(cipher, w, todo, back, k, fed, missing);
    }
  }

  /** The world after a read that the server has answered. */
  lemma AfterRead(cipher: Cipher, w: World, todo: seq<Message>, back: seq<Message>, k: nat, fed: Connection,
      missing: Octets)
    requires Consistent(cipher, w, todo, back) && k <= |todo| && |fed.buf| < MAX_WIRE
    requires missing == [] ==> k == |todo|
    requires var stage, client, s2c := w.round + |back|, w.client.inbox, w.s2c + Concat(fed.core.outbound);
             var answers := AnswersTo(stage, todo[..k]);
             && Asks(stage + |answers|, todo[k..])
             && AnswersTo(stage, todo) == answers + AnswersTo(stage + |answers|, todo[k..])
             && Carries(cipher, fed.core.server.crypto, client.crypto, ClientToServer, todo[k..], fed.buf + missing)
             && Carries(cipher, client.crypto, fed.core.server.crypto, ServerToClient, back + answers, client.buf + s2c)
             && (answers != [] ==> Concat(fed.core.outbound) != [])
             && |answers| <= k && Serving(fed.core.(outbound := []), w.round + |back + answers|)
    ensures Consistent(cipher, w.(server := fed.(core := fed.core.(outbound := [])), c2s := missing,
                                  s2c := w.s2c + Concat(fed.core.outbound)),
                       todo[k..], back + AnswersTo(w.round + |back|, todo[..k]))
  {
    hide Asks, AnswersTo, Serving, Carries, ClientAt, Concat, Reply;
    var stage := w.round + |back|;
    var answers := AnswersTo(stage, todo[..k]);
    var later := AnswersTo(stage + |answers|, todo[k..]);
    assert back + (answers + later) == (back + answers) + later;
  }

  lemma ServingAsks(stage: nat, todo: seq<Message>, k: nat)
    requires Asks(stage, todo) && k <= |todo|
    ensures var t := stage + |AnswersTo(stage, todo[..k])|;
            Asks(stage, todo[..k]) && Asks(t, todo[k..])
            && AnswersTo(stage, todo) == AnswersTo(stage, todo[..k]) + AnswersTo(t, todo[k..])
  {
    hide Asks, AnswersTo;
    assert todo[..k] + todo[k..] == todo;
    AsksAppend(stage, todo[..k], todo[k..]);
  }

  lemma AnswersCarried(cipher: Cipher, w: World, todo: seq<Message>, back: seq<Message>, k: nat, fed: Core,
      bytes: Octets)
    requires Lawful(cipher) && Consistent(cipher, w, todo, back) && k <= |todo|
    requires Asks(w.round + |back|, todo[..k]) && Along(ClientToServer, todo[k..])
    requires AnsweredAll(cipher, w.server.core, w.round + |back|, todo[..k], fed)
    requires Carries(cipher, SendAll(cipher, w.server.core.server.crypto, todo[..k]).0, w.client.inbox.crypto,
                     ClientToServer, todo[k..], bytes)
    ensures var answers := AnswersTo(w.round + |back|, todo[..k]);
            && Carries(cipher, fed.server.crypto, w.client.inbox.crypto, ClientToServer, todo[k..], bytes)
            && Carries(cipher, w.client.inbox.crypto, fed.server.crypto, ServerToClient, back + answers,
                       w.client.inbox.buf + (w.s2c + Concat(fed.outbound)))
            && (answers != [] ==> Concat(fed.outbound) != [])
            && Serving(fed.(outbound := []), w.round + |back + answers|)
  {
    hide SendAll, Asks, AnswersTo, Serving, Carries, ClientAt, Concat, Request, Reply, RawsOf, RawBytesOf, Carve;
    var s, client := w.server.core.server.crypto, w.client.inbox.crypto;
    var stage := w.round + |back|;
    var answers := AnswersTo(stage, todo[..k]);
    UnderWayAreShort(cipher, w, todo, back);
    AsksAreShort(stage, todo[..k]);
    ServingAnyQueue(fed, stage + |answers|);
    CarriesOn(cipher, s, client, ClientToServer, todo, k, bytes, fed.server.crypto);
    CarriesMore(cipher, client, s, ServerToClient, back, w.client.inbox.buf + w.s2c, answers, fed.server.crypto);
    var wires := SendAll(cipher, s, answers).1;
    assert fed.outbound == wires;
    assert w.client.inbox.buf + w.s2c + Concat(wires) == w.client.inbox.buf + (w.s2c + Concat(wires));
    if answers != [] {
      FirstWireCounts(cipher, s, answers);
    }
  }

  /** The reader has read the first k messages and sent something the other way. */
  lemma CarriesOn(cipher: Cipher, reader: Context, writer: Context, d: Direction, ms: seq<Message>, k: nat,
      bytes: Octets, reader': Context)
    requires k <= |ms| && Along(d, ms[..k]) && Along(d, ms[k..])
    requires Carries(cipher, SendAll(cipher, reader, ms[..k]).0, writer, d, ms[k..], bytes)
    requires reader'.key == reader.key && reader'.Of(d) == SendAll(cipher, reader, ms[..k]).0.Of(d)
    ensures Carries(cipher, reader', writer, d, ms[k..], bytes)
  {
    hide SendAll, Carries;
    OtherSideIgnored(cipher, reader, reader, d, ms[..k]);
    CarriesSame(cipher, SendAll(cipher, reader, ms[..k]).0, writer, d, ms[k..], bytes, reader', writer);
  }

  lemma ServingAnyQueue(core: Core, s: nat)
    ensures Serving(core.(outbound := []), s) == Serving(core, s)
  {
  }

  lemma FirstWireCounts(cipher: Cipher, c: Context, ms: seq<Message>)
    requires Lawful(cipher) && Along(ServerToClient, ms) && ms != []
    ensures Concat(SendAll(cipher, c, ms).1) != []
  {
    hide Send, Carved, FrontOf, Message.Encodable, Message.Fits;
    ShortWire(cipher, c, ms[0]);
    var wires := SendAll(cipher, c, ms).1;
    assert Concat(wires) == wires[0] + Concat(wires[1..]);
  }

  lemma CarriedBytes(cipher: Cipher, w: World, todo: seq<Message>, back: seq<Message>)
    requires Consistent(cipher, w, todo, back)
    ensures w.server.buf + w.c2s == Concat(SendAll(cipher, w.server.core.server.crypto, todo).1)
    ensures w.client.inbox.buf + w.s2c == Concat(SendAll(cipher, w.client.inbox.crypto, back).1)
  {
    hide SendAll, Asks, AnswersTo, Serving, ClientAt, Concat;
  }

  lemma ServerIsReady(cipher: Cipher, w: World, todo: seq<Message>, back: seq<Message>)
    requires Consistent(cipher, w, todo, back)
    ensures Serving(w.server.core, w.round + |back|) && Asks(w.round + |back|, todo)
    ensures w.server.core.outbound == [] && |w.server.buf| < MAX_WIRE && w.refusal.None?
    ensures Carries(cipher, w.server.core.server.crypto, w.client.inbox.crypto, ClientToServer, todo,
                    w.server.buf + w.c2s)
  {
    hide Serving, Asks, Carries;
  }

  lemma ArrivedMeans(cipher: Cipher, c: Context, ms: seq<Message>, k: nat, got: Octets, missing: Octets)
    requires k <= |ms| && Arrived(cipher, c, ms, k, got, missing)
    ensures var v := Carve(got, MAX_BODY_LEN);
            && v.error == None && |v.rest| < MAX_WIRE && (missing == [] ==> k == |ms| && v.rest == [])
  {
    hide Carve, SendAll, RawsOf, FrontOf, Concat;
  }

  lemma ReplyAccepted(k: nat)
    ensures Expect(Reply(k).Received(), ReplyId(k), k == 2).Ok?
  {
  }

  /** What a read of the client completes. */
  lemma ReadDecodes(cipher: Cipher, inbox: Inbox, back: seq<Message>, k: nat, chunk: Octets, missing: Octets)
    requires Lawful(cipher) && k <= |back| && Along(ServerToClient, back)
    requires Arrived(cipher, inbox.crypto, back, k, inbox.buf + chunk, missing)
    ensures Ingested(cipher, inbox, chunk) ==
            (inbox.(buf := Carve(inbox.buf + chunk, MAX_BODY_LEN).rest,
                    crypto := SendAll(cipher, inbox.crypto, back[..k]).0),
             Ok(ReceivedOf(back[..k])))
  {
    hide Carve, SendAll, DecodeAll, RawsOf, FrontOf, Concat, ReceivedOf;
    assert Along(ServerToClient, back[..k]);
    SentIsDecoded(cipher, inbox.crypto, back[..k]);
  }

  lemma ClientReadStep(cipher: Cipher, w: World, todo: seq<Message>, back: seq<Message>, n: nat)
      returns (back': seq<Message>)
    requires Lawful(cipher) && Consistent(cipher, w, todo, back) && w.waiting && 1 <= n <= |w.s2c|
    ensures var v := ClientReadNext(cipher, w, n);
            && back != [] && Consistent(cipher, v, todo, back') && v.s2c == w.s2c[n..]
            && (if back' == [] then v.round == w.round + 1 else v.round == w.round && v.waiting)
            && (n == |w.s2c| ==> back' == [])
  {
    hide Carve, SendAll, Ingested, Asks, AnswersTo, Serving, FrontOf, Carries, Arrived, Expect, Request, Reply, Concat,
      Message.Received;
    var crypto, inbox := w.server.core.server.crypto, w.client.inbox;
    var chunk, missing := w.s2c[..n], w.s2c[n..];
    var got := inbox.buf + chunk;
    UnderWayAreShort(cipher, w, todo, back);
    CarriedBytes(cipher, w, todo, back);
    assert inbox.buf + w.s2c == got + missing;
    var k := MessagesArrive(cipher, inbox.crypto, ServerToClient, back, got, missing);
    if back == [] {
      NothingCarried(cipher, inbox.crypto);
      assert false;
    }
    back' := back[k..];
    ArrivedMeans(cipher, inbox.crypto, back, k, got, missing);
    ReadDecodes(cipher, inbox, back, k, chunk, missing);
    CarriesRest(cipher, inbox.crypto, crypto, ServerToClient, back, k, got, missing);
    assert Along(ServerToClient, back[..k]);
    OtherSideIgnored(cipher, inbox.crypto, inbox.crypto, ServerToClient, back[..k]);
    var inbox' := Ingested(cipher, inbox, chunk).0;
    CarriesSame(cipher, crypto, inbox.crypto, ClientToServer, todo, w.server.buf + w.c2s, crypto, inbox'.crypto);
    if k == 1 {
      assert back[..k] == [Reply(w.round)];
      assert ReceivedOf([Reply(w.round)]) == [Reply(w.round).Received()];
      ReplyAccepted(w.round);
      assert inbox'.pending + Reverse([Reply(w.round).Received()][1..]) == [];
    } else {
      assert back[..k] == [] && back[k..] == back;
    }
  }

  lemma NothingCarried(cipher: Cipher, c: Context)
    ensures Concat(SendAll(cipher, c, []).1) == []
  {
  }

  /** What the client counts is at least what is under way: while it waits, a request is the last
      message that it sent, so that a reply to it was sent by a server with nothing left to read. */
  ghost predicate Counted(w: World, todo: seq<Message>) {
    && |todo| <= w.unanswered && (w.waiting && todo != [] ==> todo[|todo| - 1] != PROBE)
    && (w.round < 3 && !w.waiting ==> w.unanswered == 0)
  }

  lemma {:induction false} UnansweredEndsInProbe(s: nat, ms: seq<Message>)
    requires AnswersTo(s, ms) == []
    ensures ms != [] ==> ms[|ms| - 1] == PROBE
    decreases |ms|
  {
    if ms == [] {
    } else {
      UnansweredEndsInProbe(s, ms[1..]);
      assert |ms| > 1 ==> ms[|ms| - 1] == ms[1..][|ms| - 2];
    }
  }

  lemma StepKeepsCount(cipher: Cipher, w: World, step: Step, window: nat, todo: seq<Message>, back: seq<Message>,
      todo': seq<Message>)
    requires Lawful(cipher) && Consistent(cipher, w, todo, back) && Enabled(w, step, window) && Counted(w, todo)
    requires match step
             case Ask => todo' == todo + [Request(w.round)]
             case Probe => todo' == todo + [PROBE]
             case ClientReads(n) => todo' == todo && back != [] && !ClientReadNext(cipher, w, n).clientFailed
             case ServerReads(n) => exists k: nat | k <= |todo| :: todo' == todo[k..]
    ensures Counted(Next(cipher, w, step, window), todo')
  {
    hide Carries, Asks, AnswersTo, Serving, ClientAt, AskNext, ProbeNext, ServerReadNext, Ingested, Expect;
    NoWriteFails(cipher, w, todo, back);
    match step {
      case Ask => AskWrites(cipher, w);
      case Probe =>
        ProbingIsLate(cipher, w, todo, back);
        ProbeWrites(cipher, w);
      case ClientReads(n) =>
        UnderWayAreShort(cipher, w, todo, back);
        UnansweredEndsInProbe(w.round + 1, todo);
      case ServerReads(n) => ReadKeepsClient(cipher, w, n);
    }
  }

  lemma NoWriteFails(cipher: Cipher, w: World, todo: seq<Message>, back: seq<Message>)
    requires Consistent(cipher, w, todo, back)
    ensures w.client.outgoing.room == []
  {
    hide Carries, Asks, AnswersTo, Serving;
  }

  /** A schedule's next step, and the messages under way after it. */
  lemma StepKeepsConsistency(cipher: Cipher, w: World, step: Step, window: nat, todo: seq<Message>, back: seq<Message>)
      returns (todo': seq<Message>, back': seq<Message>)
    requires Lawful(cipher) && Consistent(cipher, w, todo, back) && Enabled(w, step, window)
    requires Counted(w, todo) && w.unanswered <= window
    ensures var v := Next(cipher, w, step, window);
            && !v.clientFailed
            && if v.refusal.None? then
                 Consistent(cipher, v, todo', back') && Counted(v, todo') && v.unanswered <= window
               else
                 v.refusal == Some(LimitExceeded(FramesPerIter)) && v.server.core.state == Boundary.Closed
                 && |todo| > DEFAULT_MAX_FRAMES_PER_ITER
  {
    hide Consistent, Counted, AskNext, ProbeNext, ClientReadNext, ServerReadNext, UnderWay;
    ConsistentRuns(cipher, w, todo, back);
    NoWriteFails(cipher, w, todo, back);
    match step {
      case Ask =>
        AskStep(cipher, w, todo, back);
        AskWrites(cipher, w);
        todo', back' := todo + [Request(w.round)], back;
        ConsistentRuns(cipher, AskNext(cipher, w), todo', back');
        StepKeepsCount(cipher, w, step, window, todo, back, todo');
      case Probe =>
        ProbeStep(cipher, w, todo, back);
        ProbeWrites(cipher, w);
        todo', back' := todo + [PROBE], back;
        ConsistentRuns(cipher, ProbeNext(cipher, w), todo', back');
        StepKeepsCount(cipher, w, step, window, todo, back, todo');
      case ClientReads(n) =>
        back' := ClientReadStep(cipher, w, todo, back, n);
        todo' := todo;
        ConsistentRuns(cipher, ClientReadNext(cipher, w, n), todo', back');
        StepKeepsCount(cipher, w, step, window, todo, back, todo');
        ReadNeverCounts(cipher, w, n);
      case ServerReads(n) =>
        todo', back' := ServerReadStep(cipher, w, todo, back, n);
        ReadKeepsClient(cipher, w, n);
        AtMostCounted(w, todo);
        if |Carve(w.server.buf + w.c2s[..n], MAX_BODY_LEN).frames| <= DEFAULT_MAX_FRAMES_PER_ITER {
          ConsistentRuns(cipher, ServerReadNext(cipher, w, n), todo', back');
          StepKeepsCount(cipher, w, step, window, todo, back, todo');
        }
    }
  }

  lemma ReadNeverCounts(cipher: Cipher, w: World, n: nat)
    requires n <= |w.s2c|
    ensures ClientReadNext(cipher, w, n).unanswered <= w.unanswered
  {
    hide Ingested, Expect;
  }

  lemma AtMostCounted(w: World, todo: seq<Message>)
    requires Counted(w, todo)
    ensures |todo| <= w.unanswered && (w.round < 3 && !w.waiting ==> w.unanswered == 0)
  {
  }

  lemma ReadKeepsClient(cipher: Cipher, w: World, n: nat)
    requires n <= |w.c2s|
    ensures var v := ServerReadNext(cipher, w, n);
            v.clientFailed == w.clientFailed && v.client == w.client && v.round == w.round && v.waiting == w.waiting
            && v.unanswered == w.unanswered && v.received == w.received && v.c2s == w.c2s[n..]
  {
    hide Fed, FeedEffect, Concat;
  }

  /** The list under way to the server is what its buffer and the wire hold, frame by frame. */
  lemma ConsistentRuns(cipher: Cipher, w: World, todo: seq<Message>, back: seq<Message>)
    requires Lawful(cipher) && Consistent(cipher, w, todo, back)
    ensures UnderWay(w) == |todo| && !w.clientFailed && w.refusal.None?
    ensures |w.c2s| <= MAX_WIRE * |todo| && |w.s2c| <= MAX_WIRE * |back|
  {
    hide Carve, SendAll, Asks, AnswersTo, Serving, Concat, ClientAt, RawsOf, RawBytesOf;
    UnderWayAreShort(cipher, w, todo, back);
    CarriedBytes(cipher, w, todo, back);
    WiresCarve(cipher, w.server.core.server.crypto, ClientToServer, todo);
    WiresCarve(cipher, w.client.inbox.crypto, ServerToClient, back);
  }

  lemma BeginConsistent(cipher: Cipher, id: u64, key: Key, nonce: Nonce)
    ensures Consistent(cipher, Begin(id, key, nonce), [], [])
  {
    NothingCarried(cipher, Fresh(key, nonce));
    assert SendAll(cipher, Fresh(key, nonce), []) == (Fresh(key, nonce), []);
  }

  /** Steps left before the handshake is done, at most: requests to send and bytes to move. */
  ghost function Fuel(w: World): int {
    if w.round >= 3 then 0
    else 1000 * (3 - w.round) - if !w.waiting then 0 else if w.c2s != [] then 500 - |w.c2s| else 900 - |w.s2c|
  }

  lemma ProbingIsLate(cipher: Cipher, w: World, todo: seq<Message>, back: seq<Message>)
    requires Consistent(cipher, w, todo, back)
    requires w.client.state == EncryptedChannelEstablished || w.client.state == Active
    ensures w.round >= 3
  {
    hide Carries, Asks, AnswersTo, Serving;
  }

  /** Every step before the client is Active uses up fuel, of which there is a bounded amount. */
  lemma StepBurnsFuel(cipher: Cipher, w: World, step: Step, window: nat, todo: seq<Message>, back: seq<Message>)
    requires Lawful(cipher) && Consistent(cipher, w, todo, back) && Enabled(w, step, window) && w.round < 3
    ensures 0 <= Fuel(Next(cipher, w, step, window)) < Fuel(w)
  {
    hide Carve, SendAll, Carries, Asks, AnswersTo, Serving, AskNext, ProbeNext, ClientReadNext, ServerReadNext,
        UnderWay,
      Request, Reply, ClientAt;
    var v := Next(cipher, w, step, window);
    ConsistentRuns(cipher, w, todo, back);
    UnderWayAreShort(cipher, w, todo, back);
    match step {
      case Ask =>
        NoWriteFails(cipher, w, todo, back);
        AskWrites(cipher, w);
        AskStep(cipher, w, todo, back);
        ConsistentRuns(cipher, v, todo + [Request(w.round)], back);
      case Probe => ProbingIsLate(cipher, w, todo, back);
      case ClientReads(n) =>
        assert back != [];
        assert todo == [] && w.c2s == [];
        var back' := ClientReadStep(cipher, w, todo, back, n);
        ConsistentRuns(cipher, v, todo, back');
      case ServerReads(n) =>
        assert todo != [];
        if !w.waiting {
          EarlyClientHasNothingUnderWay(w.round, todo);
        }
        var todo', back' := ServerReadStep(cipher, w, todo, back, n);
        ReadKeepsClient(cipher, w, n);
        ConsistentRuns(cipher, v, todo', back');
    }
  }

  /** How many of the frames in some bytes are encrypted. */
  ghost function EncryptedUnderWay(bytes: Octets): nat { EncryptedIn(Carve(bytes, MAX_BODY_LEN).frames) }

  /** In each direction the sender's counter is ahead of the receiver's by the encrypted frames under
      way, up to the largest value a counter takes. */
  ghost predicate CountersAgree(w: World) {
    var c, s := w.client.inbox.crypto, w.server.core.server.crypto;
    && c.c2s.counter == Saturate(s.c2s.counter + EncryptedUnderWay(w.server.buf + w.c2s))
    && s.s2c.counter == Saturate(c.s2c.counter + EncryptedUnderWay(w.client.inbox.buf + w.s2c))
  }

  lemma ConsistentCounters(cipher: Cipher, w: World, todo: seq<Message>, back: seq<Message>)
    requires Lawful(cipher) && Consistent(cipher, w, todo, back)
    ensures CountersAgree(w)
  {
    hide Carve, SendAll, Asks, AnswersTo, Serving, Concat, ClientAt, RawsOf, RawBytesOf, EncryptedIn, Saturate;
    var s, c := w.server.core.server.crypto, w.client.inbox.crypto;
    UnderWayAreShort(cipher, w, todo, back);
    CarriedBytes(cipher, w, todo, back);
    WiresCarve(cipher, s, ClientToServer, todo);
    WiresCarve(cipher, c, ServerToClient, back);
    CounterAhead(cipher, s, ClientToServer, todo);
    CounterAhead(cipher, c, ServerToClient, back);
  }

  ghost function Expecting(c: ClientValue, incoming: seq<SocketRead>): ClientValue {
    c.(inbox := c.inbox.(incoming := incoming))
  }

  /** What is left of the handshake of a client in exchange k. */
  ghost function Remaining(cipher: Cipher, c: ClientValue, k: nat, waiting: bool): (ClientValue, Result<(),
      ClientError>)
    requires k <= 3
  {
    if waiting && k < 3 then
      var (answered, got) := Client.Answered(cipher, c, k);
      if got.Err? then (answered, got) else Exchanged(cipher, answered, k + 1)
    else Exchanged(cipher, c, k)
  }

  /** The client of the world runs the handshake of the client's own code: whatever is read later,
      the handshake over all reads is what is left of it over the later ones. It is over with the
      third message written. */
  ghost predicate Follows(cipher: Cipher, start: ClientValue, w: World) {
    |w.client.outgoing.written| <= 3 ==>
      && w.round <= 3
      && forall more: seq<SocketRead> ::
           Exchanged(cipher, Expecting(start, w.received + more), 0) ==
           Remaining(cipher, Expecting(w.client, more), w.round, w.waiting)
  }

  lemma AskFollows(cipher: Cipher, start: ClientValue, w: World)
    requires Lawful(cipher) && Follows(cipher, start, w) && !w.waiting && !w.clientFailed
    requires w.client.outgoing.room == []
    requires w.round >= 3 ==> |w.client.outgoing.written| >= 3
    ensures Follows(cipher, start, AskNext(cipher, w))
  {
    hide Encoding, ClearRaw, NextFrame, Expect, Concat;
    var v := AskNext(cipher, w);
    if w.round < 3 {
      var c := w.client.inbox.crypto;
      FrameRoundTrip(cipher, c, c, ClientToServer, 0x79, Policy.SIM_CONTEXT, PAYLOAD_79);
      forall more: seq<SocketRead> ensures Remaining(cipher, Expecting(w.client, more), w.round, false) ==
          Remaining(cipher, Expecting(v.client, more), w.round, true)
      {
        assert Client.Asked(cipher, Expecting(w.client, more), w.round) == (Expecting(v.client, more), Ok(()));
      }
    }
  }

  lemma IngestedIgnoresLaterReads(cipher: Cipher, i: Inbox, later: seq<SocketRead>, chunk: Octets)
    ensures var (j, r) := Ingested(cipher, i, chunk);
            j.pending == i.pending && Ingested(cipher, i.(incoming := later), chunk) == (j.(incoming := later), r)
  {
    hide Carve, DecodeAll;
  }

  lemma FrameAwaited(cipher: Cipher, i: Inbox, chunk: Octets, more: seq<SocketRead>)
    requires i.pending == [] && chunk != []
    ensures var (j, r) := Ingested(cipher, i.(incoming := more), chunk);
            NextFrame(cipher, i.(incoming := [Got(chunk)] + more)) ==
            match r
            case Err(e) => (j, Err(e))
            case Ok(fs) =>
              if fs == [] then Awaited(cipher, j) else (j.(pending := j.pending + Reverse(fs[1..])), Ok(fs[0]))
  {
    hide Ingested, Awaited;
    AwaitedOne(cipher, i.(incoming := [Got(chunk)] + more));
    assert ([Got(chunk)] + more)[0] == Got(chunk) && ([Got(chunk)] + more)[1..] == more;
    assert i.(incoming := [Got(chunk)] + more).(incoming := more) == i.(incoming := more);
  }

  lemma ReadLeavesTheRest(cipher: Cipher, w: World, n: nat, more: seq<SocketRead>)
    requires w.waiting && 1 <= n <= |w.s2c| && w.round < 3 && w.client.inbox.pending == []
    requires !w.clientFailed && !ClientReadNext(cipher, w, n).clientFailed
    ensures var v := ClientReadNext(cipher, w, n);
            && v.round <= 3
            && Remaining(cipher, Expecting(w.client, [Got(w.s2c[..n])] + more), w.round, true) ==
               Remaining(cipher, Expecting(v.client, more), v.round, v.waiting)
  {
    hide Ingested, Expect, Exchanged, Awaited;
    var chunk, v := w.s2c[..n], ClientReadNext(cipher, w, n);
    var (j, r) := Ingested(cipher, w.client.inbox, chunk);
    IngestedIgnoresLaterReads(cipher, w.client.inbox, more, chunk);
    FrameAwaited(cipher, w.client.inbox, chunk, more);
    var before := Expecting(w.client, [Got(chunk)] + more);
    if r.value == [] {
      assert NextFrame(cipher, before.inbox) == NextFrame(cipher, Expecting(v.client, more).inbox);
    } else {
      assert Client.Answered(cipher, before, w.round) == (Expecting(v.client, more), Ok(()));
    }
  }

  lemma ClientReadFollows(cipher: Cipher, start: ClientValue, w: World, n: nat)
    requires Follows(cipher, start, w) && w.waiting && 1 <= n <= |w.s2c|
    requires |w.client.outgoing.written| <= 3 ==> w.round < 3
    requires w.client.inbox.pending == [] && !w.clientFailed && !ClientReadNext(cipher, w, n).clientFailed
    ensures Follows(cipher, start, ClientReadNext(cipher, w, n))
  {
    hide Ingested, Expect, Exchanged, Remaining;
    var chunk, v := w.s2c[..n], ClientReadNext(cipher, w, n);
    if |w.client.outgoing.written| <= 3 {
      forall more: seq<SocketRead> ensures v.round <= 3 &&
          Exchanged(cipher, Expecting(start, v.received + more), 0) ==
          Remaining(cipher, Expecting(v.client, more), v.round, v.waiting)
      {
        assert v.received + more == w.received + ([Got(chunk)] + more);
        ReadLeavesTheRest(cipher, w, n, more);
      }
    }
  }

  lemma StepFollows(cipher: Cipher, start: ClientValue, w: World, step: Step, window: nat, todo: seq<Message>,
      back: seq<Message>)
    requires Lawful(cipher) && Consistent(cipher, w, todo, back) && Enabled(w, step, window)
    requires Follows(cipher, start, w) && !Next(cipher, w, step, window).clientFailed
    ensures Follows(cipher, start, Next(cipher, w, step, window))
  {
    hide Carries, Asks, AnswersTo, Serving, Exchanged, Remaining, AskNext, ProbeNext, ClientReadNext, ServerReadNext;
    match step {
      case Ask => AskFollows(cipher, start, w);
      case Probe => ProbeWrites(cipher, w);
      case ClientReads(n) => ClientReadFollows(cipher, start, w, n);
      case ServerReads(n) => ReadKeepsClient(cipher, w, n);
    }
  }

  lemma BeginFollows(cipher: Cipher, id: u64, key: Key, nonce: Nonce)
    ensures Follows(cipher, NewClient(key, nonce, []), Begin(id, key, nonce))
  {
    hide Exchanged;
    forall more: seq<SocketRead> ensures [] + more == more {
    }
  }

  /** What every schedule keeps, as long as the server has not refused. */
  lemma {:induction false} ReachedIsConsistent(cipher: Cipher, window: nat, id: u64, key: Key, nonce: Nonce,
      steps: seq<Step>, w: World) returns (todo: seq<Message>, back: seq<Message>)
    requires Lawful(cipher) && Reaches(cipher, window, Begin(id, key, nonce), steps, w) && w.refusal.None?
    ensures Consistent(cipher, w, todo, back) && Counted(w, todo) && w.unanswered <= window
    ensures w.round >= 3 || Fuel(w) + |steps| <= 3000
    ensures Follows(cipher, NewClient(key, nonce, []), w)
    decreases |steps|
  {
    hide Consistent, Next, Fuel, Enabled, Follows, NewClient, Counted;
    var start := Begin(id, key, nonce);
    if steps == [] {
      todo, back := [], [];
      BeginConsistent(cipher, id, key, nonce);
      BeginCounted(id, key, nonce);
      BeginFollows(cipher, id, key, nonce);
      assert Fuel(start) == 3000 by { BeginFuel(id, key, nonce); }
    } else {
      var last := |steps| - 1;
      var v :|
        && Reaches(cipher, window, start, steps[..last], v)
        && Enabled(v, steps[last], window) && w == Next(cipher, v, steps[last], window);
      EnabledRuns(v, steps[last], window);
      var todo0, back0 := ReachedIsConsistent(cipher, window, id, key, nonce, steps[..last], v);
      todo, back := StepKeepsConsistency(cipher, v, steps[last], window, todo0, back0);
      StepFollows(cipher, NewClient(key, nonce, []), v, steps[last], window, todo0, back0);
      RoundsNeverFall(cipher, v, steps[last], window);
      if v.round < 3 {
        StepBurnsFuel(cipher, v, steps[last], window, todo0, back0);
      }
    }
  }

  lemma BeginCounted(id: u64, key: Key, nonce: Nonce)
    ensures Counted(Begin(id, key, nonce), []) && Begin(id, key, nonce).unanswered == 0
  {
  }

  lemma BeginFuel(id: u64, key: Key, nonce: Nonce)
    ensures Fuel(Begin(id, key, nonce)) == 3000
  {
  }

  lemma EnabledRuns(w: World, step: Step, window: nat)
    requires Enabled(w, step, window)
    ensures !w.clientFailed && w.refusal.None?
  {
  }

  lemma RoundsNeverFall(cipher: Cipher, w: World, step: Step, window: nat)
    requires Enabled(w, step, window)
    ensures w.round <= Next(cipher, w, step, window).round
  {
    hide Ingested, Expect, Fed, FeedEffect, Client.Asked, ClearRaw, Encoding, UnderWay, WrittenSince, Concat;
  }

  /** A run that ended in a refusal was stopped by the frame limit, and only a client that may send more
      than 64 frames without a reply can run into it. */
  lemma RefusedRun(cipher: Cipher, window: nat, id: u64, key: Key, nonce: Nonce, steps: seq<Step>, w: World)
    requires Lawful(cipher) && Reaches(cipher, window, Begin(id, key, nonce), steps, w) && w.refusal.Some?
    ensures w.refusal == Some(LimitExceeded(FramesPerIter)) && w.server.core.state == Boundary.Closed
    ensures window > DEFAULT_MAX_FRAMES_PER_ITER && !w.clientFailed && w.client.state == Active
  {
    hide Consistent, Fuel, Follows, NewClient, ServerReadNext, AskNext, ProbeNext, ClientReadNext, UnderWay;
    var last := |steps| - 1;
    var v :|
      && Reaches(cipher, window, Begin(id, key, nonce), steps[..last], v)
      && Enabled(v, steps[last], window) && w == Next(cipher, v, steps[last], window);
    var todo0, back0 := ReachedIsConsistent(cipher, window, id, key, nonce, steps[..last], v);
    var todo, back := StepKeepsConsistency(cipher, v, steps[last], window, todo0, back0);
    AtMostCounted(v, todo0);
    ManyUnderWay(cipher, v, todo0, back0);
    RefusingStep(cipher, v, steps[last], window);
  }

  lemma ManyUnderWay(cipher: Cipher, w: World, todo: seq<Message>, back: seq<Message>)
    requires Consistent(cipher, w, todo, back) && |todo| > 1
    ensures w.client.state == Active
  {
    hide Carries, Asks, AnswersTo, Serving;
  }

  lemma RefusingStep(cipher: Cipher, w: World, step: Step, window: nat)
    requires Lawful(cipher) && Enabled(w, step, window) && Next(cipher, w, step, window).refusal.Some?
    ensures step.ServerReads? && Next(cipher, w, step, window).client == w.client
  {
    hide Ingested, Expect, Fed, FeedEffect, Encoding, ClearRaw, Concat, UnderWay, Client.Asked;
    if step.ServerReads? {
      ReadKeepsClient(cipher, w, step.n);
    }
  }

  /** The handshake works under every schedule. Whatever the order of the steps and the sizes of the
      reads, the client never meets a frame it does not expect. As long as the server has not
      refused: a client that is Active has a server whose encrypted channel stands; in each
      direction the sender's counter is ahead of the receiver's by the encrypted frames under way;
      no more frames are under way than the client counts; and at its third exchange the client is
      where its own handshake method leaves it, given what it read. The one refusal there can be is
      of too many frames in one read, after the handshake. Until the client is Active some step is
      possible, so that no schedule runs 3000 steps without getting it there. */
  lemma HandshakeUnderEverySchedule(cipher: Cipher, window: nat, id: u64, key: Key, nonce: Nonce, steps: seq<Step>,
      w: World)
    requires Lawful(cipher) && Reaches(cipher, window, Begin(id, key, nonce), steps, w)
    ensures !w.clientFailed
    ensures w.refusal.Some? ==>
              && w.refusal == Some(LimitExceeded(FramesPerIter)) && w.server.core.state == Boundary.Closed
              && window > DEFAULT_MAX_FRAMES_PER_ITER && w.client.state == Active
    ensures var s := w.server.core.server.state;
            w.refusal.None? && w.client.state == Active ==>
              s == Protocol.EncryptedChannelEstablished || s == Protocol.Active
    ensures w.refusal.None? ==> CountersAgree(w) && UnderWay(w) <= w.unanswered <= window
    ensures w.refusal.None? && w.round == 3 && |w.client.outgoing.written| == 3 ==>
              Exchanged(cipher, NewClient(key, nonce, w.received), 0) == (w.client, Ok(()))
    ensures w.client.state != Active ==> |steps| < 3000 && (window > 0 ==> exists step :: Enabled(w, step, window))
  {
    hide Carries, Asks, AnswersTo, Reaches, CountersAgree, Begin, Carve, Exchanged, Follows, UnderWay, RawsOf, SendAll;
    if w.refusal.Some? {
      RefusedRun(cipher, window, id, key, nonce, steps, w);
    } else {
      var todo, back := ReachedIsConsistent(cipher, window, id, key, nonce, steps, w);
      ConsistentCounters(cipher, w, todo, back);
      HandshakeFollowed(cipher, key, nonce, w);
      ConsistentRuns(cipher, w, todo, back);
      AtMostCounted(w, todo);
      if w.client.state != Active {
        EarlyRound(cipher, w, todo, back);
        if window > 0 {
          SomeStep(cipher, w, todo, back, window);
        }
      }
    }
  }

  lemma HandshakeFollowed(cipher: Cipher, key: Key, nonce: Nonce, w: World)
    requires Follows(cipher, NewClient(key, nonce, []), w) && w.client.inbox.incoming == []
    ensures w.round == 3 && |w.client.outgoing.written| == 3 ==>
              Exchanged(cipher, NewClient(key, nonce, w.received), 0) == (w.client, Ok(()))
  {
    assert w.received + [] == w.received;
    assert Expecting(NewClient(key, nonce, []), w.received) == NewClient(key, nonce, w.received);
    assert Expecting(w.client, []) == w.client;
  }

  lemma SomeStep(cipher: Cipher, w: World, todo: seq<Message>, back: seq<Message>, window: nat)
    requires Lawful(cipher) && Consistent(cipher, w, todo, back) && (!w.waiting ==> w.unanswered == 0) && window > 0
    ensures exists step :: Enabled(w, step, window)
  {
    hide Carries, Asks, AnswersTo, Serving, UnderWay;
    ConsistentRuns(cipher, w, todo, back);
    var step := if !w.waiting then Ask else if w.c2s != [] then ServerReads(1) else ClientReads(1);
    assert w.waiting ==> todo != [] || back != [] by { UnderWayAreShort(cipher, w, todo, back); NoAnswers(w.round); }
    assert Enabled(w, step, window);
  }

  lemma EarlyRound(cipher: Cipher, w: World, todo: seq<Message>, back: seq<Message>)
    requires Consistent(cipher, w, todo, back) && w.client.state != Active
    ensures w.round < 3
  {
    hide Carries, Asks, AnswersTo, Serving;
  }

  lemma NoAnswers(s: nat)
    ensures AnswersTo(s, []) == []
  {
  }
}
