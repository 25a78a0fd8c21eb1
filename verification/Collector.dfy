/** The shared event log and the connection limit of the blocking harness: one accept thread, any
    number of workers, every interleaving of their atomic steps. */
module Collector {
  import opened Bytes
  import opened Sockets
  import opened Aead
  import opened Boundary
  import opened ConnectionRuns

  /** The events of one connection, in log order. */
  function Own(log: seq<Event>, id: u64): seq<Event> {
    if log == [] then []
    else (if log[0].connectionId == id then [log[0]] else []) + Own(log[1..], id)
  }

  /** The log after a flush: the connection's events that it does not have yet, counted off from
      the start, go to its end. */
  function Flushed(log: seq<Event>, id: u64, events: seq<Event>): seq<Event> {
    var already := |Own(log, id)|;
    if already <= |events| then log + events[already..] else log
  }

  /** The mutex-held log. */
  class EventLog {
    var events: seq<Event>

    constructor ()
      ensures events == []
    {
      events := [];
    }

    method FlushEvents(id: u64, own: seq<Event>)
      modifies this
      ensures events == Flushed(old(events), id, own)
    {
      hide Own;
      var already := 0;
      OwnEmpty([], id);
      assert events[..0] == [];
      for i := 0 to |events|
        invariant events == old(events) && already == |Own(events[..i], id)|
      {
        OwnAppend(events[..i], [events[i]], id);
        OwnOf([events[i]], events[i].connectionId, id);
        assert events[..i] + [events[i]] == events[..i + 1];
        if events[i].connectionId == id {
          already := already + 1;
        }
      }
      assert events[..|events|] == events;
      var i := already;
      while i < |own|
        invariant already <= i && (i <= |own| || i == already)
        invariant events == if i <= |own| then old(events) + own[already..i] else old(events)
      {
        assert own[already..i] + [own[i]] == own[already..i + 1];
        events := events + [own[i]];
        i := i + 1;
      }
      assert already <= |own| ==> own[already..i] == own[already..];
    }
  }

  lemma {:induction false} OwnAppend(xs: seq<Event>, ys: seq<Event>, id: u64)
    ensures Own(xs + ys, id) == Own(xs, id) + Own(ys, id)
  {
    if xs == [] {
      assert xs + ys == ys;
    } else {
      var head := if xs[0].connectionId == id then [xs[0]] else [];
      assert (xs + ys)[1..] == xs[1..] + ys;
      OwnAppend(xs[1..], ys, id);
      var a, b := Own(xs[1..], id), Own(ys, id);
      assert head + (a + b) == head + a + b;
    }
  }

  lemma {:induction false} OwnOf(xs: seq<Event>, owner: u64, id: u64)
    requires forall e <- xs :: e.connectionId == owner
    ensures Own(xs, id) == if id == owner then xs else []
  {
    if xs == [] {
    } else {
      OwnOf(xs[1..], owner, id);
      assert xs == [xs[0]] + xs[1..];
    }
  }

  /** Where a worker is in its loop. `Left`: the loop is over; `Gone`: the worker no longer counts. */
  datatype Place =
    | FirstFlush
    | Top
    | Feeding(chunk: Octets)
    | Noting(error: BoundaryError)
    | Shutting
    | Flushing
    | LastFlush
    | Left
    | Gone

  /** A worker and the connection it alone works on. */
  datatype Worker = Worker(conn: Connection, at: Place)

  /** The outcomes of a read from the socket. */
  datatype Input = Arrived(chunk: Octets) | EndOfStream | TimedOut | ReadFailed

  /** One step of a worker. All but the flush and the exit touch nothing that is shared. */
  datatype Move = Quit | Read(input: Input) | Feed | Note | Shut | Flush | Exit

  ghost predicate CanMove(w: Worker, move: Move) {
    match move
    case Quit => w.at.Top? && (w.conn.core.state == Closed || w.conn.core.stream.None?)
    case Read(input) =>
      && w.at.Top? && w.conn.core.state != Closed && w.conn.core.stream.Some?
      && (input.Arrived? ==> 0 < |input.chunk| <= DEFAULT_MAX_READ_CHUNK)
    case Feed => w.at.Feeding?
    case Note => w.at.Noting?
    case Shut => w.at.Shutting?
    case Flush => w.at.FirstFlush? || w.at.Flushing? || w.at.LastFlush?
    case Exit => w.at.Left?
  }

  /** The loop of a worker, step by step. A failed feed is noted in the log of the connection, which is
      then closed if the failure has not done so. */
  ghost function Moved(cipher: Cipher, w: Worker, move: Move): Worker
    requires CanMove(w, move)
  {
    match move
    case Quit => w.(at := Left)
    case Read(Arrived(chunk)) => w.(at := Feeding(chunk))
    case Read(EndOfStream) => Worker(Ended(w.conn, Eof), LastFlush)
    case Read(TimedOut) => Worker(Ended(w.conn, Given("timeout")), LastFlush)
    case Read(ReadFailed) => Worker(Ended(w.conn, Given("io_error")), LastFlush)
    case Feed =>
      var fed := Fed(cipher, w.conn, w.at.chunk);
      (match FeedEffect(cipher, w.conn.core, w.conn.buf, w.at.chunk).result
       case Ok(_) => Worker(fed, Flushing)
       case Err(e) => Worker(fed, Noting(e)))
    case Note =>
      var note := ConnectionFailed(w.conn.core.id, OtherCategory, w.at.error);
      Worker(w.conn.(events := w.conn.events + [note]), Shutting)
    case Shut => Worker(Ended(w.conn, Given("feed_error")), LastFlush)
    case Flush => w.(at := if w.at.LastFlush? then Left else Top)
    case Exit => w.(at := Gone)
  }

  /** The accept thread is idle, has seen room for one more connection, or has counted it. */
  datatype Acceptor = Idle | SawRoom | Counted

  datatype Harness = Harness(
    acceptor: Acceptor, active: nat, nextId: nat, workers: map<u64, Worker>, log: seq<Event>, max: nat)

  datatype Step = SeeRoom | Count | Spawn(socket: Outlet) | Work(id: u64, move: Move)

  ghost predicate Enabled(h: Harness, step: Step) {
    match step
    case SeeRoom => h.acceptor == Idle && h.active < h.max
    case Count => h.acceptor == SawRoom
    case Spawn(_) => h.acceptor == Counted && h.nextId <= 0xFFFF_FFFF_FFFF_FFFF
    case Work(id, move) => id in h.workers && CanMove(h.workers[id], move)
  }

  /** A connection as its worker gets it. */
  ghost function Accepted(id: u64, key: Key, nonce: Nonce, socket: Outlet): Connection {
    var c := Initial(id, key, nonce);
    c.(core := c.core.(stream := Some(socket)))
  }

  ghost function Next(cipher: Cipher, key: Key, nonce: Nonce, h: Harness, step: Step): Harness
    requires Enabled(h, step)
  {
    match step
    case SeeRoom => h.(acceptor := SawRoom)
    case Count => h.(acceptor := Counted, active := h.active + 1)
    case Spawn(socket) =>
      h.(acceptor := Idle, nextId := h.nextId + 1,
         workers := h.workers[h.nextId := Worker(Accepted(h.nextId, key, nonce, socket), FirstFlush)])
    case Work(id, move) =>
      var w := h.workers[id];
      h.(workers := h.workers[id := Moved(cipher, w, move)],
         log := if move.Flush? then Flushed(h.log, id, w.conn.events) else h.log,
         active := if move.Exit? && h.active > 0 then h.active - 1 else h.active)
  }

  /** Connection ids start at one. */
  ghost function Begin(max: nat): Harness { Harness(Idle, 0, 1, map[], [], max) }

  ghost predicate Reaches(cipher: Cipher, key: Key, nonce: Nonce, start: Harness, steps: seq<Step>, h: Harness)
    decreases |steps|
  {
    if steps == [] then h == start
    else
      var last := |steps| - 1;
      exists g ::
        && Reaches(cipher, key, nonce, start, steps[..last], g)
        && Enabled(g, steps[last]) && h == Next(cipher, key, nonce, g, steps[last])
  }

  ghost function Live(workers: map<u64, Worker>): set<u64> { set id | id in workers && workers[id].at != Gone }

  /** A worker's connection is coherent and keeps its socket while open. */
  ghost predicate Sane(id: u64, w: Worker) {
    && w.conn.core.id == id && Coherent(w.conn)
    && (w.conn.core.state != Closed ==> w.conn.core.stream.Some?)
    && (w.at.LastFlush? || w.at.Left? || w.at.Gone? ==> w.conn.core.state == Closed)
  }

  /** Has the worker flushed all that its connection logged? */
  ghost predicate Clean(w: Worker) { w.at.Top? || w.at.Feeding? || w.at.Left? || w.at.Gone? }

  /** What the log has of a worker's events: an initial piece, and all of them where it is clean. */
  ghost predicate Collected(log: seq<Event>, id: u64, w: Worker) {
    Own(log, id) <= w.conn.events && (Clean(w) ==> Own(log, id) == w.conn.events)
  }

  ghost predicate LogInv(h: Harness) {
    && (forall id :: id in h.workers ==>
          Sane(id, h.workers[id]) && Collected(h.log, id, h.workers[id]) && id < h.nextId)
    && (forall e <- h.log :: e.connectionId in h.workers)
  }

  ghost predicate CountInv(h: Harness) {
    && h.active == |Live(h.workers)| + (if h.acceptor == Counted then 1 else 0)
    && h.active <= h.max && (h.acceptor == SawRoom ==> h.active < h.max)
    && forall id :: id in h.workers ==> id < h.nextId
  }

  lemma {:induction false} OwnEmpty(log: seq<Event>, id: u64)
    requires forall e <- log :: e.connectionId != id
    ensures Own(log, id) == []
  {
    if log == [] {
    } else {
      OwnEmpty(log[1..], id);
    }
  }

  /** A flush brings the log up to date for its connection and leaves every other one alone. */
  lemma FlushCollects(log: seq<Event>, id: u64, events: seq<Event>, other: u64)
    requires Own(log, id) <= events && SameOwner(id, events)
    ensures var after := Flushed(log, id, events);
            && Own(after, id) == events && (other != id ==> Own(after, other) == Own(log, other))
            && forall e <- after :: e in log || e in events
  {
    hide Own;
    var n := |Own(log, id)|;
    var added := events[n..];
    assert forall e <- added :: e in events;
    OwnAppend(log, added, id);
    OwnAppend(log, added, other);
    OwnOf(added, id, id);
    OwnOf(added, id, other);
    assert Own(log, id) + added == events;
    assert Own(log, other) + [] == Own(log, other);
  }

  lemma AcceptedSane(id: u64, key: Key, nonce: Nonce, socket: Outlet)
    ensures Sane(id, Worker(Accepted(id, key, nonce, socket), FirstFlush))
  {
    StartCoherent(id, key, nonce);
  }

  lemma NoteCoherent(c: Connection, category: Category, error: BoundaryError)
    requires Coherent(c)
    ensures Coherent(c.(events := c.events + [ConnectionFailed(c.core.id, category, error)]))
  {
    hide InStep, FrameIndices, Closings, Range;
    QuietEvent(ConnectionFailed(c.core.id, category, error));
    LogAppend(c.events, [ConnectionFailed(c.core.id, category, error)]);
    assert FrameIndices(c.events) + [] == FrameIndices(c.events);
  }

  /** A step of a worker's own keeps its connection coherent and only adds to what it logged. */
  lemma MoveIsSane(cipher: Cipher, id: u64, w: Worker, move: Move)
    requires Sane(id, w) && CanMove(w, move)
    ensures var v := Moved(cipher, w, move);
            && Sane(id, v) && w.conn.events <= v.conn.events
            && (Clean(v) ==> v.conn.events == w.conn.events && (move.Flush? || Clean(w)))
  {
    hide Fed, FeedEffect, Coherent;
    match move {
      case Read(input) =>
        if input.Arrived? {
        } else {
          var reason :=
            if input.EndOfStream? then Eof else if input.TimedOut? then Given("timeout") else Given("io_error");
          CallKeepsCoherence(cipher, w.conn, End(reason));
          EndCloses(w.conn, reason);
        }
      case Feed => CallKeepsCoherence(cipher, w.conn, ConnectionRuns.Feed(w.at.chunk));
      case Note => NoteCoherent(w.conn, OtherCategory, w.at.error);
      case Shut =>
        CallKeepsCoherence(cipher, w.conn, End(Given("feed_error")));
        EndCloses(w.conn, Given("feed_error"));
      case _ =>
    }
  }

  lemma EndCloses(c: Connection, reason: Reason)
    ensures Ended(c, reason).core.state == Closed && Ended(c, reason).core.id == c.core.id
  {
  }

  lemma SaneOwner(id: u64, w: Worker)
    requires Sane(id, w)
    ensures SameOwner(id, w.conn.events)
  {
  }

  lemma StepKeepsLog(cipher: Cipher, key: Key, nonce: Nonce, h: Harness, step: Step)
    requires LogInv(h) && Enabled(h, step)
    ensures LogInv(Next(cipher, key, nonce, h, step))
  {
    hide Own, Sane, Moved, Flushed, Accepted;
    var g := Next(cipher, key, nonce, h, step);
    match step {
      case SeeRoom =>
      case Count =>
      case Spawn(socket) =>
        OwnEmpty(h.log, h.nextId);
        AcceptedSane(h.nextId, key, nonce, socket);
      case Work(id, move) =>
        var w := h.workers[id];
        MoveIsSane(cipher, id, w, move);
        SaneOwner(id, w);
        if move.Flush? {
          assert Moved(cipher, w, move).conn == w.conn by { FlushMoves(cipher, w); }
          forall other | other in g.workers ensures Collected(g.log, other, g.workers[other]) {
            FlushCollects(h.log, id, w.conn.events, other);
          }
          FlushCollects(h.log, id, w.conn.events, id);
        }
    }
  }

  lemma FlushMoves(cipher: Cipher, w: Worker)
    requires CanMove(w, Flush)
    ensures Moved(cipher, w, Flush).conn == w.conn && Clean(Moved(cipher, w, Flush))
  {
  }

  lemma OnlyExitLeaves(cipher: Cipher, w: Worker, move: Move)
    requires CanMove(w, move)
    ensures w.at != Gone && (Moved(cipher, w, move).at == Gone <==> move.Exit?)
  {
    hide Fed, FeedEffect, Ended;
  }

  lemma StepKeepsCount(cipher: Cipher, key: Key, nonce: Nonce, h: Harness, step: Step)
    requires CountInv(h) && Enabled(h, step)
    ensures CountInv(Next(cipher, key, nonce, h, step))
  {
    hide Flushed, Accepted, Moved, CanMove, Live;
    match step {
      case SeeRoom =>
      case Count =>
      case Spawn(socket) =>
        LiveAdded(h.workers, h.nextId, Worker(Accepted(h.nextId, key, nonce, socket), FirstFlush));
      case Work(id, move) =>
        OnlyExitLeaves(cipher, h.workers[id], move);
        LiveChanged(h.workers, id, Moved(cipher, h.workers[id], move));
    }
  }

  lemma LiveAdded(workers: map<u64, Worker>, id: u64, w: Worker)
    requires id !in workers && w.at != Gone
    ensures |Live(workers[id := w])| == |Live(workers)| + 1
  {
    assert Live(workers[id := w]) == Live(workers) + {id};
  }

  lemma LiveChanged(workers: map<u64, Worker>, id: u64, w: Worker)
    requires id in workers && workers[id].at != Gone
    ensures |Live(workers)| > 0
    ensures |Live(workers[id := w])| == |Live(workers)| - if w.at == Gone then 1 else 0
  {
    assert id in Live(workers);
    assert Live(workers[id := w]) == if w.at == Gone then Live(workers) - {id} else Live(workers);
  }

  lemma {:induction false} ReachedInvariants(cipher: Cipher, key: Key, nonce: Nonce, max: nat, steps: seq<Step>,
      h: Harness)
    requires Reaches(cipher, key, nonce, Begin(max), steps, h)
    ensures LogInv(h) && CountInv(h) && h.max == max
    decreases |steps|
  {
    hide LogInv, CountInv, Own, Moved, Accepted;
    if steps == [] {
      BeginInvariants(max);
    } else {
      var last := |steps| - 1;
      var g :|
        && Reaches(cipher, key, nonce, Begin(max), steps[..last], g)
        && Enabled(g, steps[last]) && h == Next(cipher, key, nonce, g, steps[last]);
      ReachedInvariants(cipher, key, nonce, max, steps[..last], g);
      StepKeepsLog(cipher, key, nonce, g, steps[last]);
      StepKeepsCount(cipher, key, nonce, g, steps[last]);
    }
  }

  lemma BeginInvariants(max: nat)
    ensures LogInv(Begin(max)) && CountInv(Begin(max))
  {
    assert Live(Begin(max).workers) == {};
  }

  /** An initial piece of a connection's events numbers frames from zero and has one closing at most. */
  lemma PieceIsNumbered(c: Connection, piece: seq<Event>)
    requires Coherent(c) && piece <= c.events
    ensures FrameIndices(piece) <= Range(0, c.core.frameIndex) && Closings(piece) <= 1
  {
    hide InStep, FrameIndices, Closings, Range;
    LogAppend(piece, c.events[|piece|..]);
    assert piece + c.events[|piece|..] == c.events;
  }

  lemma FlushIsClean(cipher: Cipher, key: Key, nonce: Nonce, max: nat, steps: seq<Step>, h: Harness, id: u64)
    requires Reaches(cipher, key, nonce, Begin(max), steps, h)
    requires steps != [] && steps[|steps| - 1] == Work(id, Flush) && id in h.workers
    ensures Clean(h.workers[id])
  {
    hide Own, Moved, Accepted, Flushed;
    var last := |steps| - 1;
    var g :|
      && Reaches(cipher, key, nonce, Begin(max), steps[..last], g)
      && Enabled(g, steps[last]) && h == Next(cipher, key, nonce, g, steps[last]);
    FlushMoves(cipher, g.workers[id]);
  }

  /** The harness under every schedule, whatever arrives at its sockets and however they fail. The part
      of the log that belongs to a connection is at all times an initial piece of that connection's
      events, so it numbers frames from zero and has one closing at most. Right after a flush and
      once its worker has left the loop it is all of them; and then the connection is closed, the
      log has its frames 0 to n - 1 without gaps and exactly one closing. The log holds nothing
      else. The active count is the number of live workers, plus one while the accept thread is
      between counting and starting a worker, and never exceeds the limit, although the check and
      the increment are separate steps. */
  lemma CollectorUnderEverySchedule(cipher: Cipher, key: Key, nonce: Nonce, max: nat, steps: seq<Step>, h: Harness)
    requires Reaches(cipher, key, nonce, Begin(max), steps, h)
    ensures forall id :: id in h.workers ==>
              && Own(h.log, id) <= h.workers[id].conn.events
              && FrameIndices(Own(h.log, id)) <= Range(0, h.workers[id].conn.core.frameIndex)
              && Closings(Own(h.log, id)) <= 1
    ensures forall id :: id in h.workers && (h.workers[id].at == Left || h.workers[id].at == Gone) ==>
              var c := h.workers[id].conn;
              && c.core.state == Closed && Own(h.log, id) == c.events
              && FrameIndices(Own(h.log, id)) == Range(0, c.core.frameIndex) && Closings(Own(h.log, id)) == 1
    ensures forall id :: id in h.workers && steps != [] && steps[|steps| - 1] == Work(id, Flush) ==>
              Own(h.log, id) == h.workers[id].conn.events
    ensures forall e <- h.log :: e.connectionId in h.workers
    ensures h.active == |Live(h.workers)| + (if h.acceptor == Counted then 1 else 0)
    ensures h.active <= max
  {
    hide Own, FrameIndices, Closings, Range, InStep, Reaches;
    ReachedInvariants(cipher, key, nonce, max, steps, h);
    forall id | id in h.workers
      ensures FrameIndices(Own(h.log, id)) <= Range(0, h.workers[id].conn.core.frameIndex) &&
          Closings(Own(h.log, id)) <= 1
    {
      PieceIsNumbered(h.workers[id].conn, Own(h.log, id));
    }
    forall id | id in h.workers && steps != [] && steps[|steps| - 1] == Work(id, Flush)
      ensures Own(h.log, id) == h.workers[id].conn.events
    {
      FlushIsClean(cipher, key, nonce, max, steps, h, id);
    }
  }
}
