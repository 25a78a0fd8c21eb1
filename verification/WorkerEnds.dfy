/** How the worker of a connection comes to its end, and what the log then says of it. */
module WorkerEnds {
  import opened Bytes
  import opened Sockets
  import opened Aead
  import opened GcmNonce
  import opened StreamFraming
  import opened Session
  import opened StatefulSession
  import opened Boundary
  import opened ConnectionRuns
  import opened Collector
  import Codec = MessageCodec
  import Verdicts

  /** An event that tells neither a failure nor the end. */
  ghost predicate Plain(e: Event) { !e.ConnectionFailed? && !e.ConnectionClosed? }

  ghost predicate AllPlain(events: seq<Event>) { forall e <- events :: Plain(e) }

  /** The failures that close a connection, each with its reason. */
  ghost predicate ClosedFor(error: BoundaryError, reason: Reason) {
    || (error.CryptoError? && reason == CryptoFailure)
    || (error == ProtocolError(OutOfSequence) && reason == ProtocolReject)
    || (error.LimitExceeded? && reason == LimitReached)
    || (error.FramingError? && reason == FramingFailure)
  }

  /** The failures that do not. */
  ghost predicate LeavesOpen(error: BoundaryError) {
    error == ProtocolError(BadMessage) || error == ProtocolError(BadState) || error == IoError
  }

  /** A step of an open connection that ends well leaves it open; one that fails closes it exactly for
      the failures that do, as the last thing it logs. */
  ghost predicate StepEnds<T>(id: u64, e: Effect<T>) {
    if e.result.Err? && e.core.state == Boundary.Closed then
         var n := |e.events| - 1;
         && n >= 0 && AllPlain(e.events[..n]) && e.events[n].ConnectionClosed? && e.events[n].connectionId == id
         && ClosedFor(e.result.error, e.events[n].reason)
       else
         && IsOpen(e.core) && AllPlain(e.events)
         && (e.result.Err? ==> LeavesOpen(e.result.error))
  }

  lemma PlainFirst<T>(id: u64, events: seq<Event>, e: Effect<T>)
    requires AllPlain(events) && StepEnds(id, e)
    ensures StepEnds(id, Boundary.After(events, e))
  {
    var n := |e.events| - 1;
    if n >= 0 {
      assert (events + e.events)[..|events| + n] == events + e.events[..n];
    }
  }

  lemma RawEnds(cipher: Cipher, core: Core, raw: RawBapFrame)
    requires Lawful(cipher) && Handling(core)
    ensures RawEffect(cipher, core, raw).core.id == core.id && StepEnds(core.id, RawEffect(cipher, core, raw))
  {
    hide Decoding, Codec.DecodeFromFrame, Handled, MessageEffect, Undecodable;
    var (crypto, decoded) := Decoding(cipher, core.server.crypto, ClientToServer, raw.rawBytes);
    Verdicts.FrameUndecodable(cipher, core, raw);
    Verdicts.FrameWithoutMessage(cipher, core, raw);
    if decoded.Ok? && Codec.DecodeFromFrame(decoded.value, ClientToServer).Ok? {
      var m := Codec.DecodeFromFrame(decoded.value, ClientToServer).value;
      var server := core.server.(crypto := crypto);
      HandledShape(server, m);
      var (server', r) := Handled(server, m);
      var core' := core.(frameIndex := core.frameIndex + 1, server := server');
      Verdicts.MessageVerdict(cipher, core', r, m, 0);
      PlainFirst(core.id, [FrameRecovered(core.id, core.frameIndex, raw.kind, |raw.body|)],
                 MessageEffect(cipher, core', r));
    }
  }

  lemma {:induction false} EachEnds(cipher: Cipher, core: Core, raws: seq<RawBapFrame>)
    requires Lawful(cipher) && Handling(core)
    ensures StepEnds(core.id, EachEffect(cipher, core, raws))
    decreases |raws|
  {
    hide RawEffect, ClosedFor, LeavesOpen;
    if raws == [] {
    } else {
      RawEnds(cipher, core, raws[0]);
      StaysOpen(cipher, core, raws[0]);
      var e := RawEffect(cipher, core, raws[0]);
      if e.result.Ok? {
        EachEnds(cipher, e.core, raws[1..]);
        PlainFirst(core.id, e.events, EachEffect(cipher, e.core, raws[1..]));
      }
    }
  }

  /** One read by an open connection. */
  lemma FeedEnds(cipher: Cipher, core: Core, buf: Octets, bytes: Octets)
    requires Lawful(cipher) && IsOpen(core)
    ensures StepEnds(core.id, FeedEffect(cipher, core, buf, bytes))
  {
    hide EachEffect, Carve;
    var c := Carve(buf + bytes, MAX_BODY_LEN);
    EachEnds(cipher, Awake(core), c.frames);
    PlainFirst(core.id, [BytesReceived(core.id, |bytes|)], IngestEffect(cipher, Awake(core), c));
  }

  /** The events of a connection whose worker is through, by its last read. An end of the stream, a timeout
      and a failing read close it, and the closing says so. Otherwise the bytes that came were not
      all handled, and that is noted once: after a closing for its own reason if the failure is one
      that closes, and before the closing of the worker if it is not. Nothing else tells
      a failure or an end. */
  ghost predicate Finished(id: u64, input: Input, events: seq<Event>) {
    var n := |events|;
    match input
    case EndOfStream => n > 0 && AllPlain(events[..n - 1]) && events[n - 1] == ConnectionClosed(id, Eof)
    case TimedOut => n > 0 && AllPlain(events[..n - 1]) && events[n - 1] == ConnectionClosed(id, Given("timeout"))
    case ReadFailed => n > 0 && AllPlain(events[..n - 1]) && events[n - 1] == ConnectionClosed(id, Given("io_error"))
    case Arrived(_) =>
      && n > 1 && AllPlain(events[..n - 2])
      && var x, y := events[n - 2], events[n - 1];
         || (x.ConnectionClosed? && y.ConnectionFailed? && x.connectionId == y.connectionId == id
             && y.category == OtherCategory && ClosedFor(y.error, x.reason))
         || (x.ConnectionFailed? && y == ConnectionClosed(id, Given("feed_error")) && x.connectionId == id
             && x.category == OtherCategory && LeavesOpen(x.error))
  }

  /** What a worker and its connection are in for at each place of the loop, after that last read. */
  ghost predicate OnCourse(id: u64, w: Worker, input: Option<Input>) {
    var events, n, open := w.conn.events, |w.conn.events|, IsOpen(w.conn.core);
    match w.at
    case FirstFlush | Top | Flushing => open && AllPlain(events)
    case Feeding(chunk) => open && AllPlain(events) && input == Some(Arrived(chunk))
    case Noting(error) =>
      && input.Some? && input.value.Arrived?
      && if open then AllPlain(events) && LeavesOpen(error)
         else
           && n > 0 && AllPlain(events[..n - 1]) && events[n - 1].ConnectionClosed?
           && events[n - 1].connectionId == id && ClosedFor(error, events[n - 1].reason)
    case Shutting =>
      && input.Some? && input.value.Arrived?
      && if open then
           && n > 0 && AllPlain(events[..n - 1]) && events[n - 1].ConnectionFailed? && LeavesOpen(events[n - 1].error)
           && events[n - 1].connectionId == id && events[n - 1].category == OtherCategory
         else Finished(id, input.value, events)
    case LastFlush | Left | Gone => input.Some? && Finished(id, input.value, events)
  }

  lemma EndedEvents(c: Connection, reason: Reason)
    ensures Ended(c, reason).events ==
            c.events + if c.core.state == Boundary.Closed then [] else [ConnectionClosed(c.core.id, reason)]
  {
    assert c.events + [] == c.events;
  }

  lemma FeedOnCourse(cipher: Cipher, id: u64, w: Worker)
    requires Lawful(cipher) && w.conn.core.id == id && w.at.Feeding? && IsOpen(w.conn.core) && AllPlain(w.conn.events)
    ensures OnCourse(id, Moved(cipher, w, Move.Feed), Some(Arrived(w.at.chunk)))
  {
    hide FeedEffect, Carve, ClosedFor, LeavesOpen;
    FeedEnds(cipher, w.conn.core, w.conn.buf, w.at.chunk);
    var e, events := FeedEffect(cipher, w.conn.core, w.conn.buf, w.at.chunk), w.conn.events;
    PlainFirst(id, events, e);
    assert Moved(cipher, w, Move.Feed).conn.events == events + e.events;
  }

  lemma NoteOnCourse(cipher: Cipher, id: u64, w: Worker, input: Option<Input>)
    requires w.conn.core.id == id && w.at.Noting? && OnCourse(id, w, input)
    ensures OnCourse(id, Moved(cipher, w, Note), input)
  {
    hide ClosedFor, LeavesOpen;
    var events, n := w.conn.events, |w.conn.events|;
    var v := Moved(cipher, w, Note);
    assert v.conn.events == events + [ConnectionFailed(id, OtherCategory, w.at.error)];
    assert v.conn.events[..n] == events && (n > 0 ==> v.conn.events[..n - 1] == events[..n - 1]);
  }

  lemma ShutOnCourse(cipher: Cipher, id: u64, w: Worker, input: Option<Input>)
    requires w.conn.core.id == id && w.at.Shutting? && OnCourse(id, w, input) && w.conn.core.state != Boundary.Closing
    ensures OnCourse(id, Moved(cipher, w, Shut), input)
  {
    hide ClosedFor, LeavesOpen;
    var events, n := w.conn.events, |w.conn.events|;
    EndedEvents(w.conn, Given("feed_error"));
    if IsOpen(w.conn.core) {
      var after := Moved(cipher, w, Shut).conn.events;
      assert after == events + [ConnectionClosed(id, Given("feed_error"))];
      assert after[..n - 1] == events[..n - 1];
    }
  }

  lemma ReadOnCourse(cipher: Cipher, id: u64, w: Worker, input: Input)
    requires CanMove(w, Read(input)) && w.conn.core.id == id && IsOpen(w.conn.core) && AllPlain(w.conn.events)
    ensures OnCourse(id, Moved(cipher, w, Read(input)), Some(input))
  {
    EndedEvents(w.conn, Eof);
    EndedEvents(w.conn, Given("timeout"));
    EndedEvents(w.conn, Given("io_error"));
  }

  lemma MoveOnCourse(cipher: Cipher, id: u64, w: Worker, move: Move, input: Option<Input>)
    requires Lawful(cipher) && Sane(id, w) && CanMove(w, move) && OnCourse(id, w, input)
    ensures OnCourse(id, Moved(cipher, w, move), if move.Read? then Some(move.input) else input)
  {
    hide Fed, FeedEffect, ClosedFor, LeavesOpen, Plain, Finished, Ended, AllPlain;
    match move {
      case Feed => FeedOnCourse(cipher, id, w);
      case Read(arrived) => ReadOnCourse(cipher, id, w, arrived);
      case Note => NoteOnCourse(cipher, id, w, input);
      case Shut => ShutOnCourse(cipher, id, w, input);
      case _ =>
    }
  }

  /** What a worker last read. */
  ghost function LastRead(steps: seq<Step>, id: u64): Option<Input> {
    if steps == [] then None
    else
      var last := steps[|steps| - 1];
      if last.Work? && last.id == id && last.move.Read? then Some(last.move.input)
      else LastRead(steps[..|steps| - 1], id)
  }

  lemma {:induction false} AllOnCourse(cipher: Cipher, key: Key, nonce: Nonce, max: nat, steps: seq<Step>, h: Harness)
    requires Lawful(cipher) && Reaches(cipher, key, nonce, Begin(max), steps, h)
    ensures forall id :: id in h.workers ==> OnCourse(id, h.workers[id], LastRead(steps, id))
    decreases |steps|
  {
    hide OnCourse, Moved, Flushed, Collector.Accepted, Own, Sane, CountInv, Collected, CanMove;
    if steps != [] {
      var last := |steps| - 1;
      var g :|
        && Reaches(cipher, key, nonce, Begin(max), steps[..last], g)
        && Enabled(g, steps[last]) && h == Next(cipher, key, nonce, g, steps[last]);
      AllOnCourse(cipher, key, nonce, max, steps[..last], g);
      ReachedInvariants(cipher, key, nonce, max, steps[..last], g);
      match steps[last] {
        case Work(id, move) => MoveOnCourse(cipher, id, g.workers[id], move, LastRead(steps[..last], id));
        case Spawn(socket) =>
          StartsOnCourse(g.nextId, key, nonce, socket, LastRead(steps, g.nextId));
        case _ =>
      }
    }
  }

  lemma StartsOnCourse(id: u64, key: Key, nonce: Nonce, socket: Outlet, input: Option<Input>)
    ensures OnCourse(id, Worker(Collector.Accepted(id, key, nonce, socket), FirstFlush), input)
  {
  }

  /** How every worker ends, under every schedule. As long as it may read again its connection is open and
      the log has no failure and no end of it, so the loop is only ever left after a read: its last one,
      which tells how what the log has of the connection ends. */
  lemma WorkersEnd(cipher: Cipher, key: Key, nonce: Nonce, max: nat, steps: seq<Step>, h: Harness, id: u64)
    requires Lawful(cipher) && Reaches(cipher, key, nonce, Begin(max), steps, h) && id in h.workers
    ensures h.workers[id].at == Top ==> IsOpen(h.workers[id].conn.core) && AllPlain(Own(h.log, id))
    ensures h.workers[id].at == Left || h.workers[id].at == Gone ==>
              LastRead(steps, id).Some? && Finished(id, LastRead(steps, id).value, Own(h.log, id))
  {
    hide Own, Reaches, LastRead, Finished, AllPlain, Range, FrameIndices, Closings;
    AllOnCourse(cipher, key, nonce, max, steps, h);
    ReachedInvariants(cipher, key, nonce, max, steps, h);
  }
}
