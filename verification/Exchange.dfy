/** Messages of one direction on their way: what a reader has after part of their bytes, what the
    counters at both ends say about them, and how the boundary server answers a list of requests,
    however many of them one read completes. */
module Exchange {
  import opened Bytes
  import opened Aead
  import opened GcmNonce
  import opened SessionContext
  import opened Framing
  import opened StreamFraming
  import opened Session
  import opened StatefulSession
  import opened Boundary
  import opened Pipeline
  import opened ConnectionRuns
  import opened Client
  import Codec = MessageCodec
  import Protocol = ProtocolState
  import Policy = ResponsePolicy

  /** Exchange k of a client: the handshake is exchanges 0, 1 and 2, keepalives follow. */
  function RequestId(k: nat): u16 { if k < 3 then REQUEST_IDS[k] else 0xFA }
  function ReplyId(k: nat): u16 { if k < 3 then REPLY_IDS[k] else 0xFB }

  function RequestPayload(k: nat): (p: Octets)
    ensures |p| == 6
  {
    if k < 3 then REQUEST_PAYLOADS[k] else PAYLOAD_FA
  }

  function ReplyPayload(k: nat): (p: Octets)
    ensures |p| == 6
  {
    if k == 0 then Policy.PAYLOAD_1F else if k == 1 then Policy.PAYLOAD_1A
    else if k == 2 then Policy.PAYLOAD_7A else Policy.PAYLOAD_FB
  }

  function Request(k: nat): Message {
    Message(ClientToServer, k == 2, RequestId(k), Policy.SIM_CONTEXT, RequestPayload(k))
  }

  function Reply(k: nat): Message {
    Message(ServerToClient, k == 2, ReplyId(k), Policy.SIM_CONTEXT, ReplyPayload(k))
  }

  /** A NAT probe, which has no reply. */
  const PROBE: Message := Message(ClientToServer, true, 0x12E, Policy.SIM_CONTEXT, PAYLOAD_12E)

  /** No wire form here is longer. */
  const MAX_WIRE := 60

  /** Short messages, all of one direction. */
  ghost predicate Along(d: Direction, ms: seq<Message>) {
    forall m <- ms :: m.direction == d && |m.payload| <= 9
  }

  function Opposite(d: Direction): Direction {
    match d case ClientToServer => ServerToClient case ServerToClient => ClientToServer
  }

  lemma {:induction false} SendAllAppend(cipher: Cipher, c: Context, xs: seq<Message>, ys: seq<Message>)
    ensures var (c', ws) := SendAll(cipher, c, xs);
            var (c'', vs) := SendAll(cipher, c', ys);
            SendAll(cipher, c, xs + ys) == (c'', ws + vs)
    decreases |xs|
  {
    hide Send;
    if xs == [] {
      assert xs + ys == ys;
      var vs := SendAll(cipher, c, ys).1;
      assert [] + vs == vs;
    } else {
      var (c', wire) := Send(cipher, c, xs[0]);
      assert (xs + ys)[0] == xs[0] && (xs + ys)[1..] == xs[1..] + ys;
      SendAllAppend(cipher, c', xs[1..], ys);
      var (mid, ws) := SendAll(cipher, c', xs[1..]);
      var vs := SendAll(cipher, mid, ys).1;
      assert [wire] + (ws + vs) == [wire] + ws + vs;
    }
  }

  lemma SendAllOne(cipher: Cipher, c: Context, m: Message)
    ensures SendAll(cipher, c, [m]) == (Send(cipher, c, m).0, [Send(cipher, c, m).1])
  {
    hide Send;
    var (c', wire) := Send(cipher, c, m);
    assert [m][1..] == [] && [wire] + [] == [wire];
    assert SendAll(cipher, c', []) == (c', []);
  }

  /** Sending along one direction looks at that direction alone and leaves the other as it was. */
  lemma {:induction false} OtherSideIgnored(cipher: Cipher, a: Context, b: Context, d: Direction, ms: seq<Message>)
    requires a.key == b.key && a.Of(d) == b.Of(d) && Along(d, ms)
    ensures var (a', ws) := SendAll(cipher, a, ms);
            var (b', vs) := SendAll(cipher, b, ms);
            ws == vs && a'.key == a.key && a'.Of(d) == b'.Of(d) && a'.Of(Opposite(d)) == a.Of(Opposite(d))
    decreases |ms|
  {
    hide Increment, ClearRaw;
    if ms == [] {
    } else {
      OtherSideIgnored(cipher, Send(cipher, a, ms[0]).0, Send(cipher, b, ms[0]).0, d, ms[1..]);
    }
  }

  lemma ShortWire(cipher: Cipher, c: Context, m: Message)
    requires Lawful(cipher) && |m.payload| <= 9
    ensures m.Encodable() && m.Fits()
    ensures var wire := Send(cipher, c, m).1;
            HEADER_LEN <= |wire| <= MAX_WIRE && wire[1] == m.Kind() && Carved(RawFrom(wire), MAX_BODY_LEN)
  {
    hide Send, Carved, FrontOf;
    SentHeader(cipher, c, m);
    SentShape(cipher, c, m);
    HeaderSplits(Send(cipher, c, m).1, []);
    assert Send(cipher, c, m).1 + [] == Send(cipher, c, m).1;
  }

  /** The wire forms of short messages, joined, carve into one frame for each. */
  lemma {:induction false} WiresCarve(cipher: Cipher, c: Context, d: Direction, ms: seq<Message>)
    requires Lawful(cipher) && Along(d, ms)
    ensures var wires := SendAll(cipher, c, ms).1;
            && |wires| == |ms| && (forall w <- wires :: HEADER_LEN <= |w|) && |RawsOf(wires)| == |ms|
            && RawBytesOf(RawsOf(wires)) == Concat(wires) && |Concat(wires)| <= MAX_WIRE * |ms|
            && Carve(Concat(wires), MAX_BODY_LEN) == Carving(RawsOf(wires), [], None)
    decreases |ms|
  {
    hide Send, Carved, FrontOf, Message.Encodable, Message.Fits;
    if ms == [] {
      EmptyCarve();
    } else {
      var (c', wire) := Send(cipher, c, ms[0]);
      var wires := SendAll(cipher, c', ms[1..]).1;
      ShortWire(cipher, c, ms[0]);
      WiresCarve(cipher, c', d, ms[1..]);
      assert ([wire] + wires)[1..] == wires;
      RawBytesCons(RawFrom(wire), RawsOf(wires));
      CarveFirst(RawFrom(wire), Concat(wires), MAX_BODY_LEN);
    }
  }

  lemma EmptyCarve()
    ensures Carve([], MAX_BODY_LEN) == Carving([], [], None)
  {
  }

  lemma {:induction false} RawsAppend(xs: seq<Octets>, ys: seq<Octets>)
    requires (forall w <- xs :: |w| >= HEADER_LEN) && forall w <- ys :: |w| >= HEADER_LEN
    ensures (forall w <- xs + ys :: |w| >= HEADER_LEN) && RawsOf(xs + ys) == RawsOf(xs) + RawsOf(ys)
  {
    if xs == [] {
      assert xs + ys == ys;
    } else {
      assert (xs + ys)[1..] == xs[1..] + ys;
      RawsAppend(xs[1..], ys);
    }
  }

  /** What a reader has when some bytes of a list of messages are still to come: it has carved the
      frames of the first k messages and holds less than one more frame. */
  ghost predicate Arrived(
    cipher: Cipher, c: Context, ms: seq<Message>, k: nat, got: Octets, missing: Octets)
    requires k <= |ms|
  {
    var (mid, wires) := SendAll(cipher, c, ms[..k]);
    var v := Carve(got, MAX_BODY_LEN);
    && (forall w <- wires :: |w| >= HEADER_LEN)
    && v.frames == RawsOf(wires) && v.error == None && Settled(v.rest, MAX_BODY_LEN) && |v.rest| < MAX_WIRE
    && v.rest + missing == Concat(SendAll(cipher, mid, ms[k..]).1)
    && (missing == [] ==> k == |ms| && v.rest == [])
  }

  /** Part of a frame is no frame yet. */
  lemma PartIsShort(frame: RawBapFrame, got: Octets, missing: Octets, more: Octets)
    requires Carved(frame, MAX_BODY_LEN) && |frame.rawBytes| <= MAX_WIRE
    requires Settled(got, MAX_BODY_LEN) && got + missing == frame.rawBytes + more
    ensures |got| < MAX_WIRE && missing != []
  {
    if |got| >= |frame.rawBytes| {
      var n := |frame.rawBytes|;
      assert got == (got + missing)[..n] + got[n..] == frame.rawBytes + got[n..];
      CarvedFront(frame, got[n..], MAX_BODY_LEN);
      assert false;
    }
  }

  lemma MessagesArrive(cipher: Cipher, c: Context, d: Direction, ms: seq<Message>, got: Octets, missing: Octets)
      returns (k: nat)
    requires Lawful(cipher) && Along(d, ms) && got + missing == Concat(SendAll(cipher, c, ms).1)
    ensures k <= |ms| && k == |Carve(got, MAX_BODY_LEN).frames|
    ensures Arrived(cipher, c, ms, k, got, missing)
  {
    hide Send, SendAll, Carve, Carved, FrontOf, RawsOf, RawBytesOf, Concat;
    var v := Carve(got, MAX_BODY_LEN);
    var w := Carve(v.rest + missing, MAX_BODY_LEN);
    WiresCarve(cipher, c, d, ms);
    CarveAppend(got, missing, MAX_BODY_LEN);
    CarveSound(got, MAX_BODY_LEN);
    k := |v.frames|;
    var xs, ys := ms[..k], ms[k..];
    assert xs + ys == ms;
    SendAllAppend(cipher, c, xs, ys);
    var (mid, first) := SendAll(cipher, c, xs);
    var second := SendAll(cipher, mid, ys).1;
    WiresCarve(cipher, c, d, xs);
    WiresCarve(cipher, mid, d, ys);
    RawsAppend(first, second);
    assert v.frames == (v.frames + w.frames)[..k] == (RawsOf(first) + RawsOf(second))[..k] == RawsOf(first);
    ConcatAppend(first, second);
    assert Concat(first) + (v.rest + missing) == got + missing == Concat(first) + Concat(second);
    SameRest(Concat(first), v.rest + missing, Concat(second));
    LastPiece(cipher, mid, d, ys, v.rest, missing);
  }

  lemma SameRest<T>(front: seq<T>, x: seq<T>, y: seq<T>)
    requires front + x == front + y
    ensures x == y
  {
    assert x == (front + x)[|front|..] && y == (front + y)[|front|..];
  }

  lemma LastPiece(cipher: Cipher, c: Context, d: Direction, ms: seq<Message>, got: Octets, missing: Octets)
    requires Lawful(cipher) && Along(d, ms) && Settled(got, MAX_BODY_LEN)
    requires got + missing == Concat(SendAll(cipher, c, ms).1)
    ensures |got| < MAX_WIRE && (missing == [] ==> ms == [] && got == [])
  {
    hide Send, Carved, FrontOf, Message.Encodable, Message.Fits;
    if ms != [] {
      var (c', wire) := Send(cipher, c, ms[0]);
      var wires := SendAll(cipher, c', ms[1..]).1;
      ShortWire(cipher, c, ms[0]);
      assert ([wire] + wires)[1..] == wires;
      PartIsShort(RawFrom(wire), got, missing, Concat(wires));
    }
  }

  /** How many of some frames are encrypted. */
  ghost function EncryptedIn(frames: seq<RawBapFrame>): nat {
    if frames == [] then 0 else (if frames[0].kind == KIND_ENCRYPTED then 1 else 0) + EncryptedIn(frames[1..])
  }

  lemma CounterStep(cipher: Cipher, c: Context, m: Message)
    ensures Send(cipher, c, m).0.Of(m.direction).counter ==
            Saturate(c.Of(m.direction).counter + if m.encrypted then 1 else 0)
  {
    hide ClearRaw, Increment;
  }

  /** A sender's counter is ahead of its receiver's by the encrypted frames sent and not decoded. */
  lemma {:induction false} CounterAhead(cipher: Cipher, c: Context, d: Direction, ms: seq<Message>)
    requires Lawful(cipher) && Along(d, ms)
    ensures var (c', wires) := SendAll(cipher, c, ms);
            && (forall w <- wires :: |w| >= HEADER_LEN)
            && c'.Of(d).counter == Saturate(c.Of(d).counter + EncryptedIn(RawsOf(wires)))
    decreases |ms|
  {
    hide Send, Carved, FrontOf, RawsOf, EncryptedIn, Message.Encodable, Message.Fits;
    if ms == [] {
      assert EncryptedIn(RawsOf([])) == 0 by { NoneEncrypted(); }
    } else {
      var (c', wire) := Send(cipher, c, ms[0]);
      var wires := SendAll(cipher, c', ms[1..]).1;
      ShortWire(cipher, c, ms[0]);
      CounterStep(cipher, c, ms[0]);
      CounterAhead(cipher, c', d, ms[1..]);
      EncryptedCons(wire, wires);
    }
  }

  lemma NoneEncrypted()
    ensures EncryptedIn(RawsOf([])) == 0
  {
  }

  lemma EncryptedCons(wire: Octets, wires: seq<Octets>)
    requires |wire| >= HEADER_LEN && forall w <- wires :: |w| >= HEADER_LEN
    ensures forall w <- [wire] + wires :: |w| >= HEADER_LEN
    ensures EncryptedIn(RawsOf([wire] + wires)) ==
            (if wire[1] == KIND_ENCRYPTED then 1 else 0) + EncryptedIn(RawsOf(wires))
  {
    assert ([wire] + wires)[1..] == wires;
    var raws := RawsOf([wire] + wires);
    assert raws[1..] == RawsOf(wires);
  }

  /** A client decodes what was sent to it. */
  lemma {:induction false} SentIsDecoded(cipher: Cipher, c: Context, ms: seq<Message>)
    requires Lawful(cipher) && Along(ServerToClient, ms)
    ensures var (c', wires) := SendAll(cipher, c, ms);
            && (forall w <- wires :: |w| >= HEADER_LEN)
            && DecodeAll(cipher, c, ServerToClient, RawsOf(wires)) == (c', Ok(ReceivedOf(ms)))
    decreases |ms|
  {
    hide Send, Decoding, Carved, FrontOf, Message.Encodable, Message.Fits, Message.Received;
    if ms == [] {
    } else {
      var (c', wire) := Send(cipher, c, ms[0]);
      var wires := SendAll(cipher, c', ms[1..]).1;
      ShortWire(cipher, c, ms[0]);
      SentDecodes(cipher, c, ms[0]);
      SentIsDecoded(cipher, c', ms[1..]);
      var raws := RawsOf([wire] + wires);
      assert ([wire] + wires)[1..] == wires && raws[1..] == RawsOf(wires) && raws[0] == RawFrom(wire);
    }
  }

  /** The states of a server that has answered s requests; from the third on its channel stands. */
  ghost predicate AtStage(state: Protocol.ProtocolState, s: nat) {
    if s < 3 then state == STAGES[s] else state == Protocol.EncryptedChannelEstablished || state == Protocol.Active
  }

  /** The requests a server that has answered s of them is ready for: the next one at any time, and
      probes once the channel stands. */
  ghost predicate Asks(s: nat, ms: seq<Message>)
    decreases |ms|
  {
    if ms == [] then true
    else if ms[0] == PROBE then s >= 3 && Asks(s, ms[1..])
    else ms[0] == Request(s) && Asks(s + 1, ms[1..])
  }

  /** What it answers: every request but the probes. */
  ghost function AnswersTo(s: nat, ms: seq<Message>): (answers: seq<Message>)
    ensures |answers| <= |ms|
    decreases |ms|
  {
    if ms == [] then []
    else if ms[0] == PROBE then AnswersTo(s, ms[1..])
    else [Reply(s)] + AnswersTo(s + 1, ms[1..])
  }

  lemma {:induction false} AsksAppend(s: nat, xs: seq<Message>, ys: seq<Message>)
    ensures var t := s + |AnswersTo(s, xs)|;
            && (Asks(s, xs + ys) <==> Asks(s, xs) && Asks(t, ys))
            && AnswersTo(s, xs + ys) == AnswersTo(s, xs) + AnswersTo(t, ys)
    decreases |xs|
  {
    hide Request, Reply;
    if xs == [] {
      assert xs + ys == ys;
    } else {
      assert (xs + ys)[0] == xs[0] && (xs + ys)[1..] == xs[1..] + ys;
      AsksAppend(if xs[0] == PROBE then s else s + 1, xs[1..], ys);
    }
  }

  lemma AsksOne(s: nat, m: Message)
    ensures m == PROBE ==> Asks(s, [m]) == (s >= 3) && AnswersTo(s, [m]) == []
    ensures m == Request(s) ==> Asks(s, [m]) && AnswersTo(s, [m]) == [Reply(s)]
  {
    assert [m][1..] == [];
    assert Request(s) != PROBE;
  }

  lemma AsksFirst(s: nat, ms: seq<Message>)
    requires ms != [] && Asks(s, ms)
    ensures if ms[0] == PROBE then s >= 3 else ms[0] == Request(s)
  {
  }

  lemma {:induction false} AsksAreShort(s: nat, ms: seq<Message>)
    requires Asks(s, ms)
    ensures Along(ClientToServer, ms) && Along(ServerToClient, AnswersTo(s, ms))
    decreases |ms|
  {
    if ms == [] {
    } else {
      AsksAreShort(if ms[0] == PROBE then s else s + 1, ms[1..]);
    }
  }

  /** A connection ready for request s, with no socket attached. */
  ghost predicate Serving(core: Core, s: nat) {
    && IsOpen(core) && core.stream == None
    && core.server.policy == Policy.DEFAULT_POLICY && AtStage(core.server.state, s)
  }

  function ReplyAction(k: nat): Policy.ResponseAction {
    if k == 2 then Policy.SendEncrypted(ReplyId(k), Policy.SIM_CONTEXT, ReplyPayload(k))
    else Policy.SendClear(ReplyId(k), Policy.SIM_CONTEXT, ReplyPayload(k))
  }

  /** The session's answer to request k. */
  lemma RequestHandled(s: Server, k: nat)
    requires AtStage(s.state, k) && s.policy == Policy.DEFAULT_POLICY
    ensures var m := Codec.Unparsed(RequestId(k), Policy.SIM_CONTEXT, ClientToServer, RequestPayload(k));
            var (s', r) := Handled(s, m);
            && AtStage(s'.state, k + 1) && s'.crypto == s.crypto && s'.policy == s.policy
            && r.Ok? && !r.value.transition.Rejected?
            && r.value.actions == [ReplyAction(k)]
  {
  }

  lemma ProbeHandled(s: Server, k: nat)
    requires AtStage(s.state, k) && k >= 3 && s.policy == Policy.DEFAULT_POLICY
    ensures var m := Codec.Unparsed(0x12E, Policy.SIM_CONTEXT, ClientToServer, PAYLOAD_12E);
            var (s', r) := Handled(s, m);
            && AtStage(s'.state, k) && s'.crypto == s.crypto && s'.policy == s.policy
            && r.Ok? && !r.value.transition.Rejected? && r.value.actions == [Policy.ObserveOnly]
  {
  }

  lemma RequestUnderstood(k: nat)
    ensures Codec.DecodeFromFrame(Request(k).Received(), ClientToServer) ==
            Ok(Codec.Unparsed(RequestId(k), Policy.SIM_CONTEXT, ClientToServer, RequestPayload(k)))
  {
  }

  /** What the server does with one request from its list. */
  ghost predicate AnsweredAll(cipher: Cipher, core: Core, s: nat, ms: seq<Message>, after: Core) {
    var answers := AnswersTo(s, ms);
    var sent := SendAll(cipher, core.server.crypto, answers);
    && Serving(after, s + |answers|) && Handling(after)
    && after.outbound == core.outbound + sent.1
    && after.server.crypto.key == core.server.crypto.key
    && after.server.crypto.c2s == SendAll(cipher, core.server.crypto, ms).0.c2s
    && after.server.crypto.s2c == sent.0.s2c
  }

  lemma ReplySent(cipher: Cipher, core: Core, k: nat)
    requires Lawful(cipher) && core.stream == None
    ensures var (c', wire) := Send(cipher, core.server.crypto, Reply(k));
            AppliedAll(cipher, core, [ReplyAction(k)]) ==
            Effect(core.(outbound := core.outbound + [wire], server := core.server.(crypto := c')), [], Ok(()))
  {
    hide Encoding, ClearRaw, ReplyId, ReplyPayload;
    ReplyEncodes(cipher, core.server.crypto, k);
    var e := Applied(cipher, core, ReplyAction(k));
    assert [ReplyAction(k)][1..] == [];
    assert e.events + [] == e.events;
  }

  lemma ReplyEncodes(cipher: Cipher, c: Context, k: nat)
    requires Lawful(cipher)
    ensures k == 2 ==> Encoding(cipher, c, ServerToClient, ReplyId(k), Policy.SIM_CONTEXT, ReplyPayload(k)).1.Ok?
  {
    FrameRoundTrip(cipher, c, c, ServerToClient, ReplyId(k), Policy.SIM_CONTEXT, ReplyPayload(k));
  }

  lemma RequestAnswered(cipher: Cipher, core: Core, s: nat)
    requires Lawful(cipher) && Serving(core, s) && Handling(core)
    ensures var wire := Send(cipher, core.server.crypto, Request(s)).1;
            && |wire| >= HEADER_LEN
            && RawEffect(cipher, core, RawFrom(wire)).result == Ok(())
            && AnsweredAll(cipher, core, s, [Request(s)], RawEffect(cipher, core, RawFrom(wire)).core)
  {
    hide Decoding, Handled, Codec.DecodeFromFrame, Codec.Unparsed, Send, RequestId, RequestPayload, ReplyId,
      ReplyPayload, Message.Received, AtStage, AppliedAll, ReplyAction, Carved, Message.Encodable, Message.Fits;
    var c := core.server.crypto;
    var m := Codec.Unparsed(RequestId(s), Policy.SIM_CONTEXT, ClientToServer, RequestPayload(s));
    var c' := Send(cipher, c, Request(s)).0;
    ShortWire(cipher, c, Request(s));
    SentDecodes(cipher, c, Request(s));
    RequestUnderstood(s);
    RequestHandled(core.server.(crypto := c'), s);
    var core' := core.(frameIndex := core.frameIndex + 1, server := Handled(core.server.(crypto := c'), m).0,
        state := ProtocolActive);
    ReplySent(cipher, core', s);
    AsksOne(s, Request(s));
    SendAllOne(cipher, c, Request(s));
    SendAllOne(cipher, c', Reply(s));
    OtherSideIgnored(cipher, c, c, ClientToServer, [Request(s)]);
    OtherSideIgnored(cipher, c, c', ServerToClient, [Reply(s)]);
    OtherSideIgnored(cipher, c', c, ServerToClient, [Reply(s)]);
  }

  lemma ProbeAnswered(cipher: Cipher, core: Core, s: nat)
    requires Lawful(cipher) && Serving(core, s) && Handling(core) && s >= 3
    ensures var wire := Send(cipher, core.server.crypto, PROBE).1;
            && |wire| >= HEADER_LEN
            && RawEffect(cipher, core, RawFrom(wire)).result == Ok(())
            && AnsweredAll(cipher, core, s, [PROBE], RawEffect(cipher, core, RawFrom(wire)).core)
  {
    hide Decoding, Handled, Codec.DecodeFromFrame, Codec.Unparsed, Send, Message.Received, AtStage, AppliedAll, Carved,
      Message.Encodable, Message.Fits;
    var c := core.server.crypto;
    var m := Codec.Unparsed(0x12E, Policy.SIM_CONTEXT, ClientToServer, PAYLOAD_12E);
    var c' := Send(cipher, c, PROBE).0;
    ShortWire(cipher, c, PROBE);
    SentDecodes(cipher, c, PROBE);
    assert Codec.DecodeFromFrame(PROBE.Received(), ClientToServer) == Ok(m) by { ProbeUnderstood(); }
    ProbeHandled(core.server.(crypto := c'), s);
    var core' := core.(frameIndex := core.frameIndex + 1, server := Handled(core.server.(crypto := c'), m).0,
        state := ProtocolActive);
    NothingSent(cipher, core');
    AsksOne(s, PROBE);
    SendAllOne(cipher, c, PROBE);
    OtherSideIgnored(cipher, c, c, ClientToServer, [PROBE]);
    assert SendAll(cipher, c, []) == (c, []) && core.outbound + [] == core.outbound;
  }

  lemma ProbeUnderstood()
    ensures Codec.DecodeFromFrame(PROBE.Received(), ClientToServer) ==
            Ok(Codec.Unparsed(0x12E, Policy.SIM_CONTEXT, ClientToServer, PAYLOAD_12E))
  {
  }

  lemma NothingSent(cipher: Cipher, core: Core)
    ensures AppliedAll(cipher, core, [Policy.ObserveOnly]) == Effect(core, [], Ok(()))
  {
    assert [Policy.ObserveOnly][1..] == [];
  }

  /** The server's answers to a list of requests that one read completes: every request gets its
      one reply and every probe none, and each side of the session moves with its own messages. */
  lemma {:induction false} ServerAnswers(cipher: Cipher, core: Core, s: nat, ms: seq<Message>)
    requires Lawful(cipher) && Serving(core, s) && Handling(core) && Asks(s, ms)
    ensures var wires := SendAll(cipher, core.server.crypto, ms).1;
            && (forall w <- wires :: |w| >= HEADER_LEN)
            && var e := EachEffect(cipher, core, RawsOf(wires));
               e.result == Ok(|ms|) && AnsweredAll(cipher, core, s, ms, e.core)
    decreases |ms|
  {
    hide RawEffect, EachEffect, RawsOf, Send, Serving, Request, Reply, AnsweredAll, AnswersTo, Asks;
    var c := core.server.crypto;
    if ms == [] {
      NothingAnswered(cipher, core, s);
    } else {
      var m, more := ms[0], ms[1..];
      assert [m] + more == ms;
      AsksAppend(s, [m], more);
      AsksFirst(s, ms);
      if m == PROBE {
        ProbeAnswered(cipher, core, s);
      } else {
        RequestAnswered(cipher, core, s);
      }
      var (c', wire) := Send(cipher, c, m);
      var mid := RawEffect(cipher, core, RawFrom(wire)).core;
      var t := s + |AnswersTo(s, [m])|;
      AnsweredServes(cipher, core, s, m, mid);
      ServerAnswers(cipher, mid, t, more);
      AsksAreShort(s, ms);
      OtherSideIgnored(cipher, mid.server.crypto, c', ClientToServer, more);
      var wires := SendAll(cipher, c', more).1;
      EachFirst(cipher, core, wire, wires);
      AnswersCompose(cipher, core, s, m, mid, more, EachEffect(cipher, mid, RawsOf(wires)).core);
    }
  }

  lemma NothingAnswered(cipher: Cipher, core: Core, s: nat)
    requires Serving(core, s) && Handling(core)
    ensures AnsweredAll(cipher, core, s, [], core)
    ensures var wires := SendAll(cipher, core.server.crypto, []).1;
            wires == [] && EachEffect(cipher, core, RawsOf(wires)) == Effect(core, [], Ok(0))
  {
    assert SendAll(cipher, core.server.crypto, []) == (core.server.crypto, []) && core.outbound + [] == core.outbound;
  }

  lemma AnsweredServes(cipher: Cipher, core: Core, s: nat, m: Message, mid: Core)
    requires AnsweredAll(cipher, core, s, [m], mid)
    ensures Serving(mid, s + |AnswersTo(s, [m])|) && Handling(mid)
    ensures var c', c'' := Send(cipher, core.server.crypto, m).0, mid.server.crypto;
            m.direction == ClientToServer ==> c'.key == c''.key && c'.Of(ClientToServer) == c''.Of(ClientToServer)
  {
    hide Serving, AnswersTo, ClearRaw, Increment;
    SendAllOne(cipher, core.server.crypto, m);
  }

  lemma EachFirst(cipher: Cipher, core: Core, wire: Octets, wires: seq<Octets>)
    requires |wire| >= HEADER_LEN && (forall w <- wires :: |w| >= HEADER_LEN)
    requires RawEffect(cipher, core, RawFrom(wire)).result.Ok?
    ensures forall w <- [wire] + wires :: |w| >= HEADER_LEN
    ensures var later := EachEffect(cipher, RawEffect(cipher, core, RawFrom(wire)).core, RawsOf(wires));
            var e := EachEffect(cipher, core, RawsOf([wire] + wires));
            && e.core == later.core
            && e.result == match later.result case Ok(n) => Ok(n + 1) case Err(error) => Err(error)
  {
    hide RawEffect;
    assert ([wire] + wires)[1..] == wires;
    var raws := RawsOf([wire] + wires);
    assert raws[0] == RawFrom(wire) && raws[1..] == RawsOf(wires);
  }

  lemma AnswersCompose(
    cipher: Cipher, core: Core, s: nat, m: Message, mid: Core, more: seq<Message>, last: Core)
    requires Asks(s, [m] + more)
    requires AnsweredAll(cipher, core, s, [m], mid) && AnsweredAll(cipher, mid, s + |AnswersTo(s, [m])|, more, last)
    ensures AnsweredAll(cipher, core, s, [m] + more, last)
  {
    hide SendAll, Serving, AnswersTo, Asks;
    var c := core.server.crypto;
    var t := s + |AnswersTo(s, [m])|;
    AsksAppend(s, [m], more);
    AsksAreShort(s, [m]);
    AsksAreShort(t, more);
    SendAllAppend(cipher, c, [m], more);
    SendAllAppend(cipher, c, AnswersTo(s, [m]), AnswersTo(t, more));
    OtherSideIgnored(cipher, c, c, ClientToServer, [m]);
    OtherSideIgnored(cipher, c, c, ServerToClient, AnswersTo(s, [m]));
    OtherSideIgnored(cipher, mid.server.crypto, SendAll(cipher, c, [m]).0, ClientToServer, more);
    OtherSideIgnored(cipher, mid.server.crypto, SendAll(cipher, c, AnswersTo(s, [m])).0, ServerToClient,
        AnswersTo(t, more));
    var xs := SendAll(cipher, c, AnswersTo(s, [m])).1;
    var ys := SendAll(cipher, mid.server.crypto, AnswersTo(t, more)).1;
    assert core.outbound + xs + ys == core.outbound + (xs + ys);
  }
}
