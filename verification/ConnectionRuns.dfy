/** What holds of a connection over all its calls: independence of how the bytes are cut, and the
    life cycle. */
module ConnectionRuns {
  import opened Bytes
  import opened Aead
  import opened GcmNonce
  import opened Framing
  import opened StreamFraming
  import opened Session
  import opened StatefulSession
  import opened Boundary
  import Codec = MessageCodec
  import Protocol = ProtocolState
  import Policy = ResponsePolicy

  ghost predicate IsOpen(core: Core) { core.state != Closing && core.state != Closed }

  ghost predicate Handling(core: Core) { core.state == Reading || core.state == ProtocolActive }

  /** An open connection between two calls. */
  ghost predicate BetweenCalls(c: Connection) { IsOpen(c.core) && Settled(c.buf, MAX_BODY_LEN) }

  /** Feeds the pieces in turn, up to the first failure. */
  ghost function FeedAll(cipher: Cipher, c: Connection, pieces: seq<Octets>): (Connection, Result<nat, BoundaryError>)
    decreases |pieces|
  {
    if pieces == [] then (c, Ok(0))
    else
      var c' := Fed(cipher, c, pieces[0]);
      match FeedEffect(cipher, c.core, c.buf, pieces[0]).result
      case Err(e) => (c', Err(e))
      case Ok(n) =>
        var (last, r) := FeedAll(cipher, c', pieces[1..]);
        (last, match r case Ok(m) => Ok(n + m) case Err(e) => Err(e))
  }

  /** The log without its record of how bytes arrived. */
  ghost function Erase(events: seq<Event>): seq<Event> {
    if events == [] then []
    else (if events[0].BytesReceived? then [] else [events[0]]) + Erase(events[1..])
  }

  lemma {:induction false} EraseAppend(xs: seq<Event>, ys: seq<Event>)
    ensures Erase(xs + ys) == Erase(xs) + Erase(ys)
  {
    if xs == [] {
      assert xs + ys == ys;
    } else {
      var head := if xs[0].BytesReceived? then [] else [xs[0]];
      assert (xs + ys)[1..] == xs[1..] + ys;
      EraseAppend(xs[1..], ys);
      var a, b := Erase(xs[1..]), Erase(ys);
      assert head + (a + b) == head + a + b;
    }
  }

  lemma {:induction false} EachKeepsHandling(cipher: Cipher, core: Core, raws: seq<RawBapFrame>)
    requires Handling(core)
    ensures EachEffect(cipher, core, raws).result.Ok? ==> Handling(EachEffect(cipher, core, raws).core)
    decreases |raws|
  {
    hide RawEffect;
    if raws == [] {
    } else {
      StaysOpen(cipher, core, raws[0]);
      var e := RawEffect(cipher, core, raws[0]);
      if e.result.Ok? {
        EachKeepsHandling(cipher, e.core, raws[1..]);
      }
    }
  }

  /** Handling more frames after some is going on from where those ended. */
  lemma {:induction false} EachAppend(cipher: Cipher, core: Core, xs: seq<RawBapFrame>, ys: seq<RawBapFrame>)
    ensures var e := EachEffect(cipher, core, xs);
            var whole := EachEffect(cipher, core, xs + ys);
            match e.result
            case Err(_) => whole == e
            case Ok(n) =>
              var later := EachEffect(cipher, e.core, ys);
              && whole.core == later.core && whole.events == e.events + later.events
              && whole.result == match later.result case Ok(m) => Ok(n + m) case Err(error) => Err(error)
    decreases |xs|
  {
    hide RawEffect;
    if xs == [] {
      assert xs + ys == ys;
    } else {
      assert (xs + ys)[0] == xs[0] && (xs + ys)[1..] == xs[1..] + ys;
      var e := RawEffect(cipher, core, xs[0]);
      if e.result.Ok? {
        EachAppend(cipher, e.core, xs[1..], ys);
      }
    }
  }

  /** A feed that succeeds has handled the frames it completed and logged what they did. */
  lemma FedOk(cipher: Cipher, c: Connection, bytes: Octets)
    requires BetweenCalls(c) && FeedEffect(cipher, c.core, c.buf, bytes).result.Ok?
    ensures var v := Carve(c.buf + bytes, MAX_BODY_LEN);
            var e := EachEffect(cipher, Awake(c.core), v.frames);
            && v.error.None? && e.result == FeedEffect(cipher, c.core, c.buf, bytes).result && Handling(e.core)
            && Fed(cipher, c, bytes) ==
                Connection(e.core, v.rest, c.events + ([BytesReceived(c.core.id, |bytes|)] + e.events))
            && BetweenCalls(Fed(cipher, c, bytes))
  {
    hide EachEffect, Carve;
    CarveSound(c.buf + bytes, MAX_BODY_LEN);
    EachKeepsHandling(cipher, Awake(c.core), Carve(c.buf + bytes, MAX_BODY_LEN).frames);
  }

  /** Feeding pieces without error is handling all frames of the joined stream in one go. */
  ghost predicate InOneGo(
    cipher: Cipher, c: Connection, bytes: Octets, last: Connection, r: Result<nat, BoundaryError>)
  {
    var v := Carve(c.buf + bytes, MAX_BODY_LEN);
    var e := EachEffect(cipher, Awake(c.core), v.frames);
    && v.error.None? && e.result == r && r.Ok?
    && Awake(last.core) == e.core && last.buf == v.rest
    && Erase(last.events) == Erase(c.events + e.events)
  }

  lemma InOneGoStep(cipher: Cipher, c: Connection, piece: Octets, more: Octets, c': Connection,
                    last: Connection, n: nat, r: Result<nat, BoundaryError>)
    requires BetweenCalls(c) && FeedEffect(cipher, c.core, c.buf, piece).result == Ok(n)
    requires c' == Fed(cipher, c, piece) && InOneGo(cipher, c', more, last, r)
    ensures InOneGo(cipher, c, piece + more, last, Ok(n + r.value))
  {
    hide EachEffect, Carve, Fed, FeedEffect, Erase;
    FedOk(cipher, c, piece);
    CarveAppend(c.buf + piece, more, MAX_BODY_LEN);
    assert c.buf + piece + more == c.buf + (piece + more);
    var v, w := Carve(c.buf + piece, MAX_BODY_LEN), Carve(c'.buf + more, MAX_BODY_LEN);
    EachAppend(cipher, Awake(c.core), v.frames, w.frames);
    var e, f := EachEffect(cipher, Awake(c.core), v.frames), EachEffect(cipher, Awake(c'.core), w.frames);
    ErasedArrival(c.events, BytesReceived(c.core.id, |piece|), e.events, f.events);
  }

  lemma ErasedArrival(events: seq<Event>, arrival: Event, first: seq<Event>, second: seq<Event>)
    requires arrival.BytesReceived?
    ensures Erase(events + ([arrival] + first) + second) == Erase(events + (first + second))
  {
    assert Erase([arrival]) == [];
    EraseThree(events, [arrival] + first, second);
    EraseThree(events, first, second);
    EraseAppend([arrival], first);
    assert [] + Erase(first) == Erase(first);
    assert events + first + second == events + (first + second);
  }

  lemma EraseThree(x: seq<Event>, y: seq<Event>, z: seq<Event>)
    ensures Erase(x + y + z) == Erase(x) + Erase(y) + Erase(z)
  {
    hide Erase;
    EraseAppend(x + y, z);
    EraseAppend(x, y);
  }

  lemma NothingFed(cipher: Cipher, c: Connection)
    requires BetweenCalls(c)
    ensures InOneGo(cipher, c, [], c, Ok(0))
  {
    assert c.buf + [] == c.buf && c.events + [] == c.events;
  }

  lemma {:induction false} FeedAllInOneGo(cipher: Cipher, c: Connection, pieces: seq<Octets>)
    requires BetweenCalls(c) && FeedAll(cipher, c, pieces).1.Ok?
    ensures InOneGo(cipher, c, Concat(pieces), FeedAll(cipher, c, pieces).0, FeedAll(cipher, c, pieces).1)
    decreases |pieces|
  {
    hide InOneGo, Fed, FeedEffect, EachEffect, Carve, Settled;
    if pieces == [] {
      NothingFed(cipher, c);
    } else {
      FedOk(cipher, c, pieces[0]);
      var c' := Fed(cipher, c, pieces[0]);
      FeedAllInOneGo(cipher, c', pieces[1..]);
      var (last, r) := FeedAll(cipher, c', pieces[1..]);
      InOneGoStep(cipher, c, pieces[0], Concat(pieces[1..]), c', last,
                  FeedEffect(cipher, c.core, c.buf, pieces[0]).result.value, r);
    }
  }

  /** Split independence. Two ways of cutting the same bytes, both fed without error, leave the same
      connection: state, protocol state, nonces and counters, frame index, outbound frames, buffer,
      and event log but for the record of arrivals. (A connection fed nothing at all has not
      noticed it is being read; `Awake` sets that aside.) */
  lemma SplitIndependence(cipher: Cipher, c: Connection, xs: seq<Octets>, ys: seq<Octets>)
    requires BetweenCalls(c) && Concat(xs) == Concat(ys)
    requires FeedAll(cipher, c, xs).1.Ok? && FeedAll(cipher, c, ys).1.Ok?
    ensures var (x, m) := FeedAll(cipher, c, xs);
            var (y, n) := FeedAll(cipher, c, ys);
            Awake(x.core) == Awake(y.core) && x.buf == y.buf && Erase(x.events) == Erase(y.events) && m == n
  {
    FeedAllInOneGo(cipher, c, xs);
    FeedAllInOneGo(cipher, c, ys);
  }

  /** The calls a connection's owner makes. */
  datatype ConnectionCall = Feed(bytes: Octets) | End(reason: Reason)

  ghost function CalledOn(cipher: Cipher, c: Connection, call: ConnectionCall): Connection {
    match call case Feed(bytes) => Fed(cipher, c, bytes) case End(reason) => Ended(c, reason)
  }

  ghost function RunConnection(cipher: Cipher, c: Connection, calls: seq<ConnectionCall>): Connection {
    if calls == [] then c
    else CalledOn(cipher, RunConnection(cipher, c, calls[..|calls| - 1]), calls[|calls| - 1])
  }

  ghost function FrameIndices(events: seq<Event>): seq<nat> {
    if events == [] then []
    else (if events[0].FrameRecovered? then [events[0].frameIndex] else []) + FrameIndices(events[1..])
  }

  ghost function Closings(events: seq<Event>): nat {
    if events == [] then 0 else (if events[0].ConnectionClosed? then 1 else 0) + Closings(events[1..])
  }

  ghost function Range(from: nat, to: nat): seq<nat>
    decreases to - from
  {
    if from >= to then [] else [from] + Range(from + 1, to)
  }

  lemma {:induction false} RangeAppend(a: nat, b: nat, c: nat)
    requires a <= b <= c
    ensures Range(a, b) + Range(b, c) == Range(a, c)
    decreases b - a
  {
    if a == b {
    } else {
      RangeAppend(a + 1, b, c);
    }
  }

  lemma {:induction false} IndicesAppend(xs: seq<Event>, ys: seq<Event>)
    ensures FrameIndices(xs + ys) == FrameIndices(xs) + FrameIndices(ys)
  {
    if xs == [] {
      assert xs + ys == ys;
    } else {
      var head: seq<nat> := if xs[0].FrameRecovered? then [xs[0].frameIndex] else [];
      assert (xs + ys)[1..] == xs[1..] + ys;
      IndicesAppend(xs[1..], ys);
      var a, b := FrameIndices(xs[1..]), FrameIndices(ys);
      assert head + (a + b) == head + a + b;
    }
  }

  lemma {:induction false} ClosingsAppend(xs: seq<Event>, ys: seq<Event>)
    ensures Closings(xs + ys) == Closings(xs) + Closings(ys)
  {
    if xs == [] {
      assert xs + ys == ys;
    } else {
      assert (xs + ys)[1..] == xs[1..] + ys;
      ClosingsAppend(xs[1..], ys);
    }
  }

  lemma LogAppend(xs: seq<Event>, ys: seq<Event>)
    ensures FrameIndices(xs + ys) == FrameIndices(xs) + FrameIndices(ys)
    ensures Closings(xs + ys) == Closings(xs) + Closings(ys)
  {
    IndicesAppend(xs, ys);
    ClosingsAppend(xs, ys);
  }

  ghost predicate SameOwner(id: u64, events: seq<Event>) { forall e <- events :: e.connectionId == id }

  /** The protocol session is closed together with the connection, not before. */
  ghost predicate InStep(core: Core) {
    && core.state != Closing && Sound(core.server)
    && (core.state == Closed ==> core.server.state == Protocol.Closed)
    && (core.state != Closed ==> core.server.state != Protocol.Closing && core.server.state != Protocol.Closed)
  }

  /** A step of an open connection: it logs the frame indices it uses up, and one closing exactly
      if it closes; a socket stays attached unless it closes. */
  ghost predicate Faithful<T>(core: Core, e: Effect<T>) {
    && e.core.id == core.id && InStep(e.core) && core.frameIndex <= e.core.frameIndex
    && FrameIndices(e.events) == Range(core.frameIndex, e.core.frameIndex)
    && Closings(e.events) == (if e.core.state == Closed then 1 else 0)
    && SameOwner(core.id, e.events)
    && (core.stream.Some? && e.core.state != Closed ==> e.core.stream.Some?)
  }

  lemma FaithfulAfter<T>(core: Core, mid: Core, events: seq<Event>, e: Effect<T>)
    requires mid.id == core.id && core.frameIndex <= mid.frameIndex && Faithful(mid, e)
    requires FrameIndices(events) == Range(core.frameIndex, mid.frameIndex) && Closings(events) == 0
    requires SameOwner(core.id, events) && (core.stream.Some? ==> mid.stream.Some?)
    ensures Faithful(core, Boundary.After(events, e))
  {
    LogAppend(events, e.events);
    RangeAppend(core.frameIndex, mid.frameIndex, e.core.frameIndex);
  }

  lemma ShutInStep(core: Core)
    requires InStep(core) && IsOpen(core)
    ensures InStep(Shut(core))
  {
    hide Sound;
    SoundIgnoresCrypto(core.server);
    CloseStep(core.server);
    FinishStep(ClosingBegun(core.server));
  }

  lemma SoundIgnoresCrypto(s: Server)
    ensures forall crypto :: Sound(s.(crypto := crypto)) == Sound(s)
  {
  }

  lemma RefusedFaithful<T>(core: Core, category: Category, detail: Detail, reason: Reason, error: BoundaryError)
    requires InStep(core) && IsOpen(core)
    ensures Faithful<T>(core, Refused(core, category, detail, reason, error))
  {
    hide InStep, ClosingBegun, ClosingFinished;
    ShutInStep(core);
    var a, b := FrameRejected(core.id, category, detail), ConnectionClosed(core.id, reason);
    LogAppend([a], [b]);
    assert [a] + [b] == [a, b];
  }

  lemma AppliedFaithful(cipher: Cipher, core: Core, action: Policy.ResponseAction)
    requires InStep(core) && IsOpen(core)
    ensures Faithful(core, Applied(cipher, core, action))
  {
    hide Encoding, Sound, ClosingBegun, ClosingFinished;
    SoundIgnoresCrypto(core.server);
    RefusedFaithful<()>(core, ProtocolCategory, PolicyReject, PolicyRejected, ProtocolError(PolicyReject));
  }

  lemma {:induction false} AppliedAllFaithful(cipher: Cipher, core: Core, actions: seq<Policy.ResponseAction>)
    requires InStep(core) && IsOpen(core)
    ensures Faithful(core, AppliedAll(cipher, core, actions))
    decreases |actions|
  {
    hide Applied, InStep, Range;
    if actions == [] {
      EmptyRange(core.frameIndex);
    } else {
      var e := Applied(cipher, core, actions[0]);
      AppliedFaithful(cipher, core, actions[0]);
      AppliedKeepsState(cipher, core, actions[0]);
      if e.result.Ok? {
        AppliedAllFaithful(cipher, e.core, actions[1..]);
        FaithfulAfter(core, e.core, e.events, AppliedAll(cipher, e.core, actions[1..]));
      }
    }
  }

  lemma EmptyRange(n: nat)
    ensures Range(n, n) == []
  {
  }

  /** Handling a message keeps an open session open. */
  lemma HandledInStep(core: Core, m: Codec.BapMessage)
    requires InStep(core) && IsOpen(core)
    ensures InStep(core.(server := Handled(core.server, m).0))
  {
    hide Sound;
    HandledStep(core.server, m);
  }

  lemma QuietEvent(e: Event)
    requires !e.FrameRecovered? && !e.ConnectionClosed?
    ensures FrameIndices([e]) == [] && Closings([e]) == 0
  {
  }

  lemma MessageFaithful(cipher: Cipher, core: Core, r: Result<HandleResult, Protocol.ProtocolStateError>)
    requires InStep(core) && IsOpen(core)
    ensures Faithful(core, MessageEffect(cipher, core, r))
  {
    hide AppliedAll, Sound, ClosingBegun, ClosingFinished;
    EmptyRange(core.frameIndex);
    QuietEvent(FrameRejected(core.id, ProtocolCategory, BadState));
    if r.Ok? {
      var h := r.value;
      if h.transition.Rejected? {
        ShutInStep(core);
        var a, b, d := FrameRejected(core.id, ProtocolCategory, OutOfSequence),
                       ProtocolNote(core.id, core.server.state, RejectedLabel),
                       ConnectionClosed(core.id, ProtocolReject);
        LogAppend([a], [b, d]);
        LogAppend([b], [d]);
        assert [a] + [b, d] == [a, b, d] && [b] + [d] == [b, d];
      } else {
        var core' := core.(state := if core.state == Reading then ProtocolActive else core.state);
        AppliedAllFaithful(cipher, core', h.actions);
        FaithfulAfter(core, core',
                      [ProtocolNote(core.id, core.server.state, MessageLabel(h.message.Id(), h.transition.Advanced?))],
                      AppliedAll(cipher, core', h.actions));
      }
    }
  }

  lemma FrameFaithful(cipher: Cipher, core: Core, frame: DecodedBapFrame)
    requires InStep(core) && IsOpen(core)
    ensures Faithful(core, FrameEffect(cipher, core, frame))
  {
    hide MessageEffect, Handled, Codec.DecodeFromFrame, InStep;
    EmptyRange(core.frameIndex);
    QuietEvent(FrameRejected(core.id, ProtocolCategory, BadMessage));
    var decoded := Codec.DecodeFromFrame(frame, ClientToServer);
    if decoded.Ok? {
      HandledInStep(core, decoded.value);
      var (server, r) := Handled(core.server, decoded.value);
      MessageFaithful(cipher, core.(server := server), r);
    }
  }

  lemma RawFaithful(cipher: Cipher, core: Core, raw: RawBapFrame)
    requires InStep(core) && IsOpen(core)
    ensures Faithful(core, RawEffect(cipher, core, raw))
  {
    hide Decoding, FrameEffect, Sound, Refused;
    var (crypto, decoded) := Decoding(cipher, core.server.crypto, ClientToServer, raw.rawBytes);
    var core' := core.(frameIndex := core.frameIndex + 1, server := core.server.(crypto := crypto));
    var recovered := [FrameRecovered(core.id, core.frameIndex, raw.kind, |raw.body|)];
    SoundIgnoresCrypto(core.server);
    OneRange(core.frameIndex);
    match decoded {
      case Ok(frame) =>
        FrameFaithful(cipher, core', frame);
        FaithfulAfter(core, core', recovered, FrameEffect(cipher, core', frame));
      case Err(e) =>
        var detail := if e == DecryptFailed then GcmDecryptFailed else AuthCrypto;
        RefusedFaithful<()>(core', CryptoCategory, detail, CryptoFailure, CryptoError(e));
        FaithfulAfter<()>(core, core', recovered,
            Refused(core', CryptoCategory, detail, CryptoFailure, CryptoError(e)));
    }
  }

  lemma OneRange(n: nat)
    ensures Range(n, n + 1) == [n]
  {
  }

  lemma {:induction false} EachFaithful(cipher: Cipher, core: Core, raws: seq<RawBapFrame>)
    requires InStep(core) && Handling(core)
    ensures Faithful(core, EachEffect(cipher, core, raws))
    decreases |raws|
  {
    hide RawEffect, InStep, Range;
    if raws == [] {
      EmptyRange(core.frameIndex);
    } else {
      var e := RawEffect(cipher, core, raws[0]);
      RawFaithful(cipher, core, raws[0]);
      StaysOpen(cipher, core, raws[0]);
      if e.result.Ok? {
        EachFaithful(cipher, e.core, raws[1..]);
        var later := EachEffect(cipher, e.core, raws[1..]);
        FaithfulAfter(core, e.core, e.events, later);
      }
    }
  }

  lemma FeedFaithful(cipher: Cipher, core: Core, buf: Octets, bytes: Octets)
    requires InStep(core) && IsOpen(core)
    ensures Faithful(core, FeedEffect(cipher, core, buf, bytes))
  {
    hide Carve, EachEffect, Refused, Sound;
    var c := Carve(buf + bytes, MAX_BODY_LEN);
    RefusedFaithful<nat>(core, LimitCategory, BufferedBytesExceeded, LimitReached,
        LimitExceeded(BufferedBytesExceeded));
    RefusedFaithful<nat>(Awake(core), LimitCategory, FramesPerIter, LimitReached, LimitExceeded(FramesPerIter));
    if c.error.Some? {
      var detail := FramingDetail(c.error.value);
      RefusedFaithful<nat>(Awake(core), FramingCategory, detail, FramingFailure, FramingError(detail));
    }
    EachFaithful(cipher, Awake(core), c.frames);
    EmptyRange(core.frameIndex);
    FaithfulAfter(core, Awake(core), [BytesReceived(core.id, |bytes|)], IngestEffect(cipher, Awake(core), c));
  }

  /** The life cycle of a connection, as its log tells it. */
  ghost predicate Coherent(c: Connection) {
    && InStep(c.core)
    && FrameIndices(c.events) == Range(0, c.core.frameIndex)
    && Closings(c.events) == (if c.core.state == Closed then 1 else 0)
    && SameOwner(c.core.id, c.events)
    && (if c.core.state == Closed then c.buf == [] else Settled(c.buf, MAX_BODY_LEN))
  }

  lemma CallKeepsCoherence(cipher: Cipher, c: Connection, call: ConnectionCall)
    requires Coherent(c)
    ensures Coherent(CalledOn(cipher, c, call))
    ensures c.events <= CalledOn(cipher, c, call).events
    ensures c.core.state == Closed ==> CalledOn(cipher, c, call) == c
    ensures var c' := CalledOn(cipher, c, call).core;
            c'.id == c.core.id && (c.core.stream.Some? && c'.state != Closed ==> c'.stream.Some?)
  {
    hide InStep, Range, FrameIndices, Closings, EachEffect, Carve;
    match call {
      case Feed(bytes) =>
        if c.core.state != Closed {
          assert IsOpen(c.core) by { InStepOpen(c.core); }
          FeedFaithful(cipher, c.core, c.buf, bytes);
          FeedSettles(cipher, c, bytes);
          var e := FeedEffect(cipher, c.core, c.buf, bytes);
          LogAppend(c.events, e.events);
          RangeAppend(0, c.core.frameIndex, e.core.frameIndex);
        } else {
          assert c.events + [] == c.events;
        }
      case End(reason) =>
        if c.core.state != Closed {
          assert IsOpen(c.core) by { InStepOpen(c.core); }
          ShutInStep(c.core);
          OneClosing(c.core.id, reason);
          LogAppend(c.events, [ConnectionClosed(c.core.id, reason)]);
        }
    }
  }

  lemma InStepOpen(core: Core)
    requires InStep(core) && core.state != Closed
    ensures IsOpen(core)
  {
  }

  lemma OneClosing(id: u64, reason: Reason)
    ensures FrameIndices([ConnectionClosed(id, reason)]) == [] && Closings([ConnectionClosed(id, reason)]) == 1
  {
  }

  /** Whatever a feed does, a connection left open has no whole frame in its buffer. */
  lemma FeedSettles(cipher: Cipher, c: Connection, bytes: Octets)
    requires IsOpen(c.core)
    ensures var c' := Fed(cipher, c, bytes);
            if c'.core.state == Closed then c'.buf == [] else Settled(c'.buf, MAX_BODY_LEN)
  {
    hide EachEffect, Carve, FrontOf;
    CarveSound(c.buf + bytes, MAX_BODY_LEN);
  }

  /** Every run of a connection, whatever is fed and whenever it is ended. The recovered frames are
      numbered 0, 1, 2, ... without gaps; the log holds one closing if the connection is closed and
      none otherwise; a closed connection has a closed protocol session and an empty buffer, and
      nothing changes it any more; an open one buffers less than one largest frame; its server is
      sound; and the log only grows. */
  lemma {:induction false} EveryRunIsCoherent(cipher: Cipher, id: u64, key: Key, nonce: Nonce,
      calls: seq<ConnectionCall>)
    ensures var c := RunConnection(cipher, Initial(id, key, nonce), calls);
            && Coherent(c) && |c.buf| <= MAX_BODY_LEN + HEADER_LEN - 1
            && forall more: ConnectionCall ::
                 && c.events <= CalledOn(cipher, c, more).events
                 && (c.core.state == Closed ==> CalledOn(cipher, c, more) == c)
  {
    hide CalledOn, InStep, Sound, FrontOf;
    var start := Initial(id, key, nonce);
    var c := RunConnection(cipher, start, calls);
    if calls == [] {
      StartCoherent(id, key, nonce);
    } else {
      var before := calls[..|calls| - 1];
      EveryRunIsCoherent(cipher, id, key, nonce, before);
      CallKeepsCoherence(cipher, RunConnection(cipher, start, before), calls[|calls| - 1]);
    }
    if c.core.state != Closed {
      SettledBound(c.buf, MAX_BODY_LEN);
    }
    forall more: ConnectionCall
      ensures c.events <= CalledOn(cipher, c, more).events &&
          (c.core.state == Closed ==> CalledOn(cipher, c, more) == c)
    {
      CallKeepsCoherence(cipher, c, more);
    }
  }

  lemma StartCoherent(id: u64, key: Key, nonce: Nonce)
    ensures Coherent(Initial(id, key, nonce))
  {
    EveryRunIsSound(id, key, nonce, [], 0);
  }
}
