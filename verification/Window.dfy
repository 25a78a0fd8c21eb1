/** How many frames a client may send without a reply. Probes have none, so nothing in the protocol
    holds a client back; the boundary refuses a read that completes more than 64 frames. */
module Window {
  import opened Bytes
  import opened Aead
  import opened StreamFraming
  import opened Pipeline
  import opened Boundary
  import opened Client
  import opened Exchange
  import opened Handshake

  /** Exactly which reads the server refuses, in any state a schedule reaches. */
  lemma ReadRefusedIff(cipher: Cipher, window: nat, id: u64, key: Key, nonce: Nonce, steps: seq<Step>, w: World, n: nat)
    requires Lawful(cipher) && Reaches(cipher, window, Begin(id, key, nonce), steps, w)
    requires Enabled(w, ServerReads(n), window)
    ensures Next(cipher, w, ServerReads(n), window).refusal.Some? <==>
            |Carve(w.server.buf + w.c2s[..n], MAX_BODY_LEN).frames| > DEFAULT_MAX_FRAMES_PER_ITER
  {
    hide Reaches, Begin, Carve, Fed, FeedEffect, Consistent, UnderWay, ServerReadNext;
    var todo, back := ReachedIsConsistent(cipher, window, id, key, nonce, steps, w);
    var todo', back' := ServerReadStep(cipher, w, todo, back, n);
    if |Carve(w.server.buf + w.c2s[..n], MAX_BODY_LEN).frames| <= DEFAULT_MAX_FRAMES_PER_ITER {
      ConsistentRuns(cipher, ServerReadNext(cipher, w, n), todo', back');
    }
  }

  lemma OneStepMore(cipher: Cipher, window: nat, start: World, steps: seq<Step>, w: World, step: Step)
    requires Reaches(cipher, window, start, steps, w) && Enabled(w, step, window)
    ensures Reaches(cipher, window, start, steps + [step], Next(cipher, w, step, window))
  {
    hide Next, Enabled;
    assert (steps + [step])[..|steps + [step]| - 1] == steps;
  }

  /** A client between exchanges, and a server with a clean buffer. */
  ghost predicate AtRest(cipher: Cipher, w: World, round: nat, todo: seq<Message>) {
    Consistent(cipher, w, todo, []) && !w.waiting && w.round == round && w.server.buf == []
    && w.unanswered == |todo|
  }

  /** Asks, lets the server read it all, and reads all of the reply. */
  lemma OneExchange(cipher: Cipher, window: nat, start: World, steps: seq<Step>, w: World)
      returns (steps': seq<Step>, w': World)
    requires Lawful(cipher) && window > 0 && Reaches(cipher, window, start, steps, w)
    requires w.round < 3 && AtRest(cipher, w, w.round, [])
    ensures |steps'| == |steps| + 3 && Reaches(cipher, window, start, steps', w')
    ensures AtRest(cipher, w', w.round + 1, [])
  {
    hide Reaches, Consistent, AskNext, ServerReadNext, ClientReadNext, UnderWay, Carve, Asks, AnswersTo, Request;
    ConsistentRuns(cipher, w, [], []);
    NoWriteFails(cipher, w, [], []);
    var w1 := Next(cipher, w, Ask, window);
    OneStepMore(cipher, window, start, steps, w, Ask);
    AskStep(cipher, w, [], []);
    assert [] + [Request(w.round)] == [Request(w.round)];
    Asked1(cipher, w);
    var n := |w1.c2s|;
    ConsistentRuns(cipher, w1, [Request(w.round)], []);
    var w2 := Next(cipher, w1, ServerReads(n), window);
    OneStepMore(cipher, window, start, steps + [Ask], w1, ServerReads(n));
    var todo2, back2 := ServerReadStep(cipher, w1, [Request(w.round)], [], n);
    ReadKeepsClient(cipher, w1, n);
    ConsistentRuns(cipher, w2, todo2, back2);
    var m := |w2.s2c|;
    ReplyIsBack(cipher, w2, back2);
    var w3 := Next(cipher, w2, ClientReads(m), window);
    OneStepMore(cipher, window, start, steps + [Ask] + [ServerReads(n)], w2, ClientReads(m));
    var back3 := ClientReadStep(cipher, w2, [], back2, m);
    ConsistentRuns(cipher, w3, [], back3);
    ClientReadKeepsServer(cipher, w2, m);
    steps', w' := steps + [Ask] + [ServerReads(n)] + [ClientReads(m)], w3;
  }

  lemma Asked1(cipher: Cipher, w: World)
    requires Lawful(cipher) && !w.clientFailed && w.client.outgoing.room == []
    requires Consistent(cipher, AskNext(cipher, w), [Request(w.round)], [])
    ensures var v := AskNext(cipher, w); v.waiting && v.round == w.round && v.server == w.server && v.c2s != []
  {
    hide Carries, Asks, AnswersTo, Serving, AskNext;
    AskWrites(cipher, w);
  }

  lemma ReplyIsBack(cipher: Cipher, w: World, back: seq<Message>)
    requires Consistent(cipher, w, [], back) && w.waiting
    ensures w.s2c != [] && |back| <= 1
  {
    hide Carries, Asks, Serving;
    UnderWayAreShort(cipher, w, [], back);
    assert AnswersTo(w.round + |back|, []) == [];
  }

  lemma ClientReadKeepsServer(cipher: Cipher, w: World, n: nat)
    requires n <= |w.s2c| && !ClientReadNext(cipher, w, n).clientFailed
    ensures var v := ClientReadNext(cipher, w, n);
            v.server == w.server && (v.round != w.round ==> !v.waiting && v.unanswered == 0)
  {
    hide Ingested, Expect;
  }

  lemma {:induction false} SendProbes(cipher: Cipher, window: nat, start: World, steps: seq<Step>, w: World,
      todo: seq<Message>, m: nat) returns (w': World, todo': seq<Message>)
    requires Lawful(cipher) && Reaches(cipher, window, start, steps, w)
    requires AtRest(cipher, w, 3, todo) && |todo| + m <= window
    ensures Reaches(cipher, window, start, steps + seq(m, _ => Probe), w')
    ensures AtRest(cipher, w', 3, todo') && |todo'| == |todo| + m
    decreases m
  {
    hide Reaches, Consistent, ProbeNext, UnderWay;
    if m == 0 {
      assert steps + seq(m, _ => Probe) == steps;
      w', todo' := w, todo;
    } else {
      ConsistentRuns(cipher, w, todo, []);
      NoWriteFails(cipher, w, todo, []);
      ActiveNow(cipher, w, todo);
      OneStepMore(cipher, window, start, steps, w, Probe);
      ProbeStep(cipher, w, todo, []);
      ProbeWrites(cipher, w);
      w', todo' := SendProbes(cipher, window, start, steps + [Probe], Next(cipher, w, Probe, window),
          todo + [PROBE], m - 1);
      assert steps + seq(m, _ => Probe) == steps + [Probe] + seq(m - 1, _ => Probe);
    }
  }

  lemma ActiveNow(cipher: Cipher, w: World, todo: seq<Message>)
    requires Consistent(cipher, w, todo, []) && w.round == 3
    ensures w.client.state == Active
  {
    hide Carries, Asks, AnswersTo, Serving;
  }

  /** Sixty-five probes. A client that sends that many frames without a reply has a schedule in which
      the server refuses it: the handshake, 65 probes, and one read of the server, which they fit. */
  lemma SixtyFiveProbes(cipher: Cipher, window: nat, id: u64, key: Key, nonce: Nonce)
      returns (handshake: seq<Step>, n: nat, w: World)
    requires Lawful(cipher) && window > DEFAULT_MAX_FRAMES_PER_ITER
    ensures |handshake| == 9 && n <= MAX_READ
    ensures Reaches(cipher, window, Begin(id, key, nonce), handshake + seq(65, _ => Probe) + [ServerReads(n)], w)
    ensures w.refusal == Some(LimitExceeded(FramesPerIter)) && w.server.core.state == Boundary.Closed
  {
    hide Reaches, Consistent, ServerReadNext, UnderWay, Carve, AnswersTo;
    var start := Begin(id, key, nonce);
    BeginConsistent(cipher, id, key, nonce);
    assert Reaches(cipher, window, start, [], start) by { NoSteps(cipher, window, start); }
    var s1, w1 := OneExchange(cipher, window, start, [], start);
    var s2, w2 := OneExchange(cipher, window, start, s1, w1);
    var s3, w3 := OneExchange(cipher, window, start, s2, w2);
    handshake := s3;
    var w4, todo := SendProbes(cipher, window, start, s3, w3, [], 65);
    ConsistentRuns(cipher, w4, todo, []);
    n := |w4.c2s|;
    BytesUnderWay(cipher, w4, todo);
    OneStepMore(cipher, window, start, s3 + seq(65, _ => Probe), w4, ServerReads(n));
    var todo', back' := ServerReadStep(cipher, w4, todo, [], n);
    w := Next(cipher, w4, ServerReads(n), window);
  }

  lemma NoSteps(cipher: Cipher, window: nat, start: World)
    ensures Reaches(cipher, window, start, [], start)
  {
  }

  lemma BytesUnderWay(cipher: Cipher, w: World, todo: seq<Message>)
    requires Consistent(cipher, w, todo, []) && todo != []
    ensures w.c2s != []
  {
  }

  /** The window. A client is safe under every schedule if and only if it sends at most 64 frames after
      the last reply it read, a number that it can keep itself. */
  lemma SafeWindowIff(cipher: Cipher, window: nat, id: u64, key: Key, nonce: Nonce)
    requires Lawful(cipher)
    ensures (forall steps, w :: Reaches(cipher, window, Begin(id, key, nonce), steps, w) ==> w.refusal.None?)
       <==> window <= DEFAULT_MAX_FRAMES_PER_ITER
  {
    hide Reaches, Begin;
    if window <= DEFAULT_MAX_FRAMES_PER_ITER {
      forall steps, w | Reaches(cipher, window, Begin(id, key, nonce), steps, w) ensures w.refusal.None? {
        if w.refusal.Some? {
          RefusedRun(cipher, window, id, key, nonce, steps, w);
        }
      }
    } else {
      var handshake, n, w := SixtyFiveProbes(cipher, window, id, key, nonce);
    }
  }
}
