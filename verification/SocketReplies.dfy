/** A connection with a socket attached does what it does without one, but for where its replies go:
    they are written to the socket instead of queued, up to the first write that fails. */
module SocketReplies {
  import opened Bytes
  import opened Sockets
  import opened Aead
  import opened GcmNonce
  import opened Framing
  import opened StreamFraming
  import opened Session
  import opened StatefulSession
  import opened Boundary
  import opened ConnectionRuns
  import opened Pipeline
  import opened Exchange
  import Codec = MessageCodec
  import Policy = ResponsePolicy
  import Protocol = ProtocolState

  /** The same connection without its socket and with nothing queued. */
  ghost function Unattached(core: Core): Core { core.(stream := None, outbound := []) }

  /** Two connections that differ in their socket and queue only; the first has no socket. */
  ghost predicate Twins(p: Core, c: Core) {
    p.stream == None && c.stream.Some? && p == c.(stream := None, outbound := p.outbound)
  }

  /** What a step leaves of a connection with a socket, told from what it leaves of its twin. */
  ghost function WithSocket(q: Core, c: Core, out: Outlet): Core {
    q.(outbound := c.outbound, stream := if q.state == Closed then None else Some(out))
  }

  /** One step of twins: the reply that the one queues, if it does, the other writes. */
  ghost predicate InParallel<T>(p: Core, c: Core, q: Effect<T>, e: Effect<T>)
    requires Twins(p, c)
  {
    var out, n := c.stream.value, |p.outbound|;
    && e.events == q.events
    && if q.core.outbound == p.outbound then e.result == q.result && e.core == WithSocket(q.core, c, out)
       else
         && |q.core.outbound| == n + 1 && q.core.outbound[..n] == p.outbound
         && q.result.Ok? && q.core.state != Closed && q.core.stream == None
         && var wire := q.core.outbound[n];
            e.core == WithSocket(q.core, c, out.Write(wire))
            && e.result == if out.Takes(wire) then q.result else Err(IoError)
  }

  lemma AppliedInParallel(cipher: Cipher, p: Core, c: Core, action: Policy.ResponseAction)
    requires Twins(p, c) && IsOpen(c)
    ensures InParallel(p, c, Applied(cipher, p, action), Applied(cipher, c, action))
  {
    hide Encoding, ClearRaw, ClosingBegun, ClosingFinished;
  }

  lemma MessageInParallel(cipher: Cipher, p: Core, c: Core, r: Result<HandleResult, Protocol.ProtocolStateError>)
    requires Twins(p, c) && IsOpen(c) && (r.Ok? ==> |r.value.actions| == 1)
    ensures InParallel(p, c, MessageEffect(cipher, p, r), MessageEffect(cipher, c, r))
  {
    hide Applied, ClosingBegun, ClosingFinished;
    if r.Ok? && !r.value.transition.Rejected? {
      var action := r.value.actions[0];
      assert r.value.actions[1..] == [];
      var state := if c.state == Reading then ProtocolActive else c.state;
      var p', c' := p.(state := state), c.(state := state);
      AppliedInParallel(cipher, p', c', action);
      OneAction(cipher, p', r.value.actions);
      OneAction(cipher, c', r.value.actions);
    }
  }

  lemma OneAction(cipher: Cipher, core: Core, actions: seq<Policy.ResponseAction>)
    requires |actions| == 1
    ensures AppliedAll(cipher, core, actions) == Applied(cipher, core, actions[0])
  {
    hide Applied;
    var e := Applied(cipher, core, actions[0]);
    assert actions[1..] == [] && e.events + [] == e.events;
    assert AppliedAll(cipher, e.core, []) == Effect(e.core, [], Ok(()));
    if e.result.Ok? {
      assert e.result.value == ();
    }
  }

  lemma RawInParallel(cipher: Cipher, p: Core, c: Core, raw: RawBapFrame)
    requires Twins(p, c) && IsOpen(c)
    ensures InParallel(p, c, RawEffect(cipher, p, raw), RawEffect(cipher, c, raw))
  {
    hide Decoding, MessageEffect, Handled, Codec.DecodeFromFrame, ClosingBegun, ClosingFinished;
    var (crypto, decoded) := Decoding(cipher, c.server.crypto, ClientToServer, raw.rawBytes);
    if decoded.Ok? {
      var m := Codec.DecodeFromFrame(decoded.value, ClientToServer);
      if m.Ok? {
        var server := c.server.(crypto := crypto);
        var (server', r) := Handled(server, m.value);
        HandledShape(server, m.value);
        var n := c.frameIndex + 1;
        MessageInParallel(cipher, p.(frameIndex := n, server := server'), c.(frameIndex := n, server := server'), r);
      }
    }
  }

  /** Does a socket take all these writes? */
  ghost predicate TakesAll(out: Outlet, wires: seq<Octets>) {
    forall k | 0 <= k < |wires| && k < |out.room| :: |wires[k]| <= out.room[k]
  }

  ghost function WriteAll(out: Outlet, wires: seq<Octets>): Outlet {
    Outlet(out.written + wires, if |wires| <= |out.room| then out.room[|wires|..] else [])
  }

  /** The j-th of these writes is the first that fails. */
  ghost predicate FailsFirst(out: Outlet, wires: seq<Octets>, j: nat) {
    j < |wires| && j < |out.room| && |wires[j]| > out.room[j] && TakesAll(out, wires[..j])
  }

  /** What the socket has after that: what it took before, and the part of that write that went out. */
  ghost function WrittenUpTo(out: Outlet, wires: seq<Octets>, j: nat): Outlet
    requires FailsFirst(out, wires, j)
  {
    Outlet(out.written + wires[..j] + [wires[j][..out.room[j]]], out.room[j + 1..])
  }

  /** A list of frames handled by twins. All replies that the one queues, the other writes; or else some
      write fails, and then it has handled the frames up to that reply and no more. */
  ghost predicate AllInParallel(
    cipher: Cipher, p: Core, c: Core, raws: seq<RawBapFrame>, wires: seq<Octets>, i: nat, j: nat)
    requires Twins(p, c)
  {
    var q, e, out := EachEffect(cipher, p, raws), EachEffect(cipher, c, raws), c.stream.value;
    && q.core.outbound == p.outbound + wires
    && if TakesAll(out, wires) then
         e.result == q.result && e.events == q.events && e.core == WithSocket(q.core, c, WriteAll(out, wires))
       else
         && FailsFirst(out, wires, j) && i <= |raws|
         && var before := EachEffect(cipher, p, raws[..i]);
            && before.core.outbound == p.outbound + wires[..j + 1] && before.core.state != Closed
            && e.result == Err(IoError) && e.events == before.events
            && e.core == WithSocket(before.core, c, WrittenUpTo(out, wires, j))
  }

  lemma NothingInParallel(cipher: Cipher, p: Core, c: Core)
    requires Twins(p, c) && c.state != Closed
    ensures AllInParallel(cipher, p, c, [], [], 0, 0)
  {
    assert p.outbound + [] == p.outbound && c.stream.value.written + [] == c.stream.value.written;
  }

  lemma EachOne(cipher: Cipher, core: Core, raw: RawBapFrame)
    ensures var r, e := RawEffect(cipher, core, raw), EachEffect(cipher, core, [raw]);
            && e.core == r.core && e.events == r.events
            && e.result == match r.result case Ok(_) => Ok(1) case Err(error) => Err(error)
  {
    hide RawEffect;
    assert [raw][1..] == [];
    var r := RawEffect(cipher, core, raw);
    assert r.events + [] == r.events;
  }

  /** The first of several frames, and all of them. */
  lemma EachStep(cipher: Cipher, core: Core, raws: seq<RawBapFrame>, i: nat)
    requires raws != [] && 0 < i <= |raws|
    ensures var r, e := RawEffect(cipher, core, raws[0]), EachEffect(cipher, core, raws[..i]);
            if r.result.Err? then e == Effect(r.core, r.events, Err(r.result.error))
            else
              var later := EachEffect(cipher, r.core, raws[1..][..i - 1]);
              && e.core == later.core && e.events == r.events + later.events
              && e.result == match later.result case Ok(n) => Ok(n + 1) case Err(error) => Err(error)
  {
    hide RawEffect;
    assert raws[..i][0] == raws[0] && raws[..i][1..] == raws[1..][..i - 1];
  }

  /** Writing one frame more first. */
  lemma OutletStep(out: Outlet, wire: Octets, more: seq<Octets>, j: nat)
    requires out.Takes(wire)
    ensures var next, all := out.Write(wire), [wire] + more;
            && (TakesAll(out, all) <==> TakesAll(next, more)) && WriteAll(out, all) == WriteAll(next, more)
            && (FailsFirst(next, more, j) ==>
                  FailsFirst(out, all, j + 1) && WrittenUpTo(out, all, j + 1) == WrittenUpTo(next, more, j))
  {
    hide TakesAll;
    var next, all := out.Write(wire), [wire] + more;
    TakesStep(out, wire, more);
    assert out.written + [wire] + more == out.written + all;
    if FailsFirst(next, more, j) {
      assert all[..j + 1] == [wire] + more[..j] && all[j + 1] == more[j];
      TakesStep(out, wire, more[..j]);
      assert out.written + [wire] + more[..j] == out.written + all[..j + 1];
      assert next.room[j] == out.room[j + 1] && next.room[j + 1..] == out.room[j + 2..];
    }
  }

  lemma TakesStep(out: Outlet, wire: Octets, more: seq<Octets>)
    requires out.Takes(wire)
    ensures TakesAll(out, [wire] + more) <==> TakesAll(out.Write(wire), more)
  {
    var next, all := out.Write(wire), [wire] + more;
    assert forall k | 0 <= k < |more| :: all[k + 1] == more[k];
    assert forall k | 0 <= k < |next.room| :: next.room[k] == out.room[k + 1];
    if TakesAll(out, all) {
      forall k | 0 <= k < |more| && k < |next.room| ensures |more[k]| <= next.room[k] {
        assert |all[k + 1]| <= out.room[k + 1];
      }
    }
    if TakesAll(next, more) {
      forall k | 0 <= k < |all| && k < |out.room| ensures |all[k]| <= out.room[k] {
        if k > 0 {
          assert |more[k - 1]| <= next.room[k - 1];
        }
      }
    }
  }

  /** A first frame that is answered with nothing. */
  lemma QuietFirst(cipher: Cipher, p: Core, c: Core, raws: seq<RawBapFrame>, more: seq<Octets>, i: nat, j: nat)
    requires Twins(p, c) && raws != []
    requires var q, e := RawEffect(cipher, p, raws[0]), RawEffect(cipher, c, raws[0]);
             && InParallel(p, c, q, e) && q.core.outbound == p.outbound && e.result.Ok? && q.core.state != Closed
             && Twins(q.core, e.core) && AllInParallel(cipher, q.core, e.core, raws[1..], more, i, j)
    ensures AllInParallel(cipher, p, c, raws, more, i + 1, j)
  {
    hide RawEffect, EachEffect, TakesAll, FailsFirst, WriteAll;
    EachStep(cipher, p, raws, |raws|);
    EachStep(cipher, c, raws, |raws|);
    assert raws[..|raws|] == raws && raws[1..][..|raws| - 1] == raws[1..];
    if !TakesAll(c.stream.value, more) {
      EachStep(cipher, p, raws, i + 1);
    }
  }

  /** A first frame whose reply the socket takes. */
  lemma WrittenFirst(cipher: Cipher, p: Core, c: Core, raws: seq<RawBapFrame>, more: seq<Octets>, i: nat, j: nat)
    requires Twins(p, c) && raws != []
    requires var q, e := RawEffect(cipher, p, raws[0]), RawEffect(cipher, c, raws[0]);
             && InParallel(p, c, q, e) && |q.core.outbound| == |p.outbound| + 1 && e.result.Ok?
             && Twins(q.core, e.core) && AllInParallel(cipher, q.core, e.core, raws[1..], more, i, j)
    ensures var wire := RawEffect(cipher, p, raws[0]).core.outbound[|p.outbound|];
            AllInParallel(cipher, p, c, raws, [wire] + more, i + 1, j + 1)
  {
    hide RawEffect, EachEffect, TakesAll, FailsFirst, WriteAll;
    var q := RawEffect(cipher, p, raws[0]);
    var out, wire := c.stream.value, q.core.outbound[|p.outbound|];
    assert q.core.outbound == p.outbound + [wire];
    assert p.outbound + [wire] + more == p.outbound + ([wire] + more);
    EachStep(cipher, p, raws, |raws|);
    EachStep(cipher, c, raws, |raws|);
    assert raws[..|raws|] == raws && raws[1..][..|raws| - 1] == raws[1..];
    OutletStep(out, wire, more, j);
    if !TakesAll(out, [wire] + more) {
      EachStep(cipher, p, raws, i + 1);
      assert FailsFirst(out.Write(wire), more, j) && j + 1 <= |more| by { FailsWithin(out.Write(wire), more, j); }
      assert ([wire] + more)[..j + 2] == [wire] + more[..j + 1];
      assert p.outbound + [wire] + more[..j + 1] == p.outbound + ([wire] + more[..j + 1]);
    }
  }

  lemma FailsWithin(out: Outlet, wires: seq<Octets>, j: nat)
    ensures FailsFirst(out, wires, j) ==> j < |wires|
  {
  }

  /** Without a socket the queue only grows. */
  lemma {:induction false} QueueGrows(cipher: Cipher, p: Core, raws: seq<RawBapFrame>)
    requires p.stream == None && Handling(p)
    ensures p.outbound <= EachEffect(cipher, p, raws).core.outbound
    decreases |raws|
  {
    hide RawEffect;
    if raws == [] {
    } else {
      var q := RawEffect(cipher, p, raws[0]);
      RawInParallel(cipher, p, p.(stream := Some(Outlet([], []))), raws[0]);
      StaysOpen(cipher, p, raws[0]);
      if q.result.Ok? {
        QueueKeepsNoSocket(cipher, p, raws[0]);
        QueueGrows(cipher, q.core, raws[1..]);
      }
    }
  }

  lemma QueueKeepsNoSocket(cipher: Cipher, p: Core, raw: RawBapFrame)
    requires p.stream == None && IsOpen(p)
    ensures RawEffect(cipher, p, raw).core.stream == None
  {
    hide Decoding, Encoding, Handled, Codec.DecodeFromFrame, ClosingBegun, ClosingFinished, AppliedAll;
    var (crypto, decoded) := Decoding(cipher, p.server.crypto, ClientToServer, raw.rawBytes);
    if decoded.Ok? {
      var m := Codec.DecodeFromFrame(decoded.value, ClientToServer);
      if m.Ok? {
        HandledShape(p.server.(crypto := crypto), m.value);
        var r := Handled(p.server.(crypto := crypto), m.value).1;
        if r.Ok? {
          forall core: Core | core.stream == None
            ensures AppliedAll(cipher, core, r.value.actions).core.stream == None
          {
            OneAction(cipher, core, r.value.actions);
          }
        }
      }
    }
  }

  /** A first frame that fails: by itself, or because its reply could not be written. */
  lemma StopsFirst(cipher: Cipher, p: Core, c: Core, raws: seq<RawBapFrame>)
    requires Twins(p, c) && raws != [] && Handling(c)
    requires var q, e := RawEffect(cipher, p, raws[0]), RawEffect(cipher, c, raws[0]);
             && InParallel(p, c, q, e) && e.result.Err? && (q.result.Ok? ==> Handling(q.core))
    ensures var all := EachEffect(cipher, p, raws).core.outbound;
            && p.outbound <= all
            && AllInParallel(cipher, p, c, raws, all[|p.outbound|..], 1, 0)
  {
    hide RawEffect, EachEffect;
    var q, n := RawEffect(cipher, p, raws[0]), |p.outbound|;
    QueueGrows(cipher, p, raws);
    var all := EachEffect(cipher, p, raws).core.outbound;
    var wires, out := all[n..], c.stream.value;
    assert p.outbound + wires == all;
    EachStep(cipher, p, raws, |raws|);
    EachStep(cipher, c, raws, |raws|);
    EachStep(cipher, p, raws, 1);
    assert raws[..|raws|] == raws && raws[1..][..|raws| - 1] == raws[1..] && raws[1..][..0] == [];
    if q.core.outbound == p.outbound {
      assert wires == [] && out.written + [] == out.written;
    } else {
      QueueGrows(cipher, q.core, raws[1..]);
      assert wires[0] == all[n] == q.core.outbound[n];
      assert q.core.outbound == p.outbound + [wires[0]] && wires[..1] == [wires[0]] && wires[..0] == [];
      NothingEach(cipher, q.core);
      assert out.written + [] == out.written && q.events + [] == q.events;
      assert FailsFirst(out, wires, 0);
    }
  }

  lemma NothingEach(cipher: Cipher, core: Core)
    ensures EachEffect(cipher, core, []) == Effect(core, [], Ok(0))
  {
  }

  lemma {:induction false} EachInParallel(cipher: Cipher, p: Core, c: Core, raws: seq<RawBapFrame>)
      returns (wires: seq<Octets>, i: nat, j: nat)
    requires Twins(p, c) && Handling(c)
    ensures AllInParallel(cipher, p, c, raws, wires, i, j)
    decreases |raws|
  {
    hide RawEffect, AllInParallel, FailsFirst;
    if raws == [] {
      wires, i, j := [], 0, 0;
      NothingInParallel(cipher, p, c);
    } else {
      RawInParallel(cipher, p, c, raws[0]);
      StaysOpen(cipher, p, raws[0]);
      StaysOpen(cipher, c, raws[0]);
      var q, e := RawEffect(cipher, p, raws[0]), RawEffect(cipher, c, raws[0]);
      if e.result.Ok? {
        QueueKeepsNoSocket(cipher, p, raws[0]);
        assert Twins(q.core, e.core);
        var more, i', j' := EachInParallel(cipher, q.core, e.core, raws[1..]);
        if q.core.outbound == p.outbound {
          wires, i, j := more, i' + 1, j';
          QuietFirst(cipher, p, c, raws, more, i', j');
        } else {
          wires, i, j := [q.core.outbound[|p.outbound|]] + more, i' + 1, j' + 1;
          WrittenFirst(cipher, p, c, raws, more, i', j');
        }
      } else {
        StopsFirst(cipher, p, c, raws);
        wires, i, j := EachEffect(cipher, p, raws).core.outbound[|p.outbound|..], 1, 0;
      }
    }
  }

  /** A read that is refused before any frame is handled. */
  lemma RefusedRead(cipher: Cipher, core: Core, buf: Octets, bytes: Octets)
    requires IsOpen(core) && core.stream.Some?
    ensures var q, e, v := FeedEffect(cipher, Unattached(core), buf, bytes), FeedEffect(cipher, core, buf, bytes),
                           Carve(buf + bytes, MAX_BODY_LEN);
            if |buf| + |bytes| > DEFAULT_MAX_BUFFERED || v.error.Some? || |v.frames| > DEFAULT_MAX_FRAMES_PER_ITER then
              && q.core.outbound == [] && q.core.state == Boundary.Closed
              && e.result == q.result && e.events == q.events
              && q.core.stream == None && e.core == q.core.(outbound := core.outbound)
            else
              && q == Boundary.After([BytesReceived(core.id, |bytes|)],
                                     EachEffect(cipher, Awake(Unattached(core)), v.frames))
              && e == Boundary.After([BytesReceived(core.id, |bytes|)], EachEffect(cipher, Awake(core), v.frames))
  {
    hide EachEffect, Carve, ClosingBegun, ClosingFinished;
  }

  /** Replies on a socket. A read by a connection with a socket is the read by the same connection without
      one, whose queue says what is written: if the socket takes all of it, that and nothing else is
      added to what was written, the queue stays as it was, and everything else is the same. If not,
      the read fails with the first write that does: the socket has the replies before it and the
      part of it that went out, and the session, nonces included, is where it was with that reply
      sealed; the connection stays open. */
  lemma SocketGetsReplies(cipher: Cipher, core: Core, buf: Octets, bytes: Octets)
      returns (raws: seq<RawBapFrame>, i: nat, j: nat)
    requires IsOpen(core) && core.stream.Some?
    ensures var q, e := FeedEffect(cipher, Unattached(core), buf, bytes), FeedEffect(cipher, core, buf, bytes);
            var out, wires := core.stream.value, q.core.outbound;
            if TakesAll(out, wires) then
              e.result == q.result && e.events == q.events && e.core == WithSocket(q.core, core, WriteAll(out, wires))
            else
              && FailsFirst(out, wires, j) && i <= |raws| && raws == Carve(buf + bytes, MAX_BODY_LEN).frames
              && var before := EachEffect(cipher, Awake(Unattached(core)), raws[..i]);
                 && before.core.outbound == wires[..j + 1] && before.core.state != Closed
                 && e.result == Err(IoError)
                 && e.events == [BytesReceived(core.id, |bytes|)] + before.events
                 && e.core == WithSocket(before.core, core, WrittenUpTo(out, wires, j))
  {
    hide EachEffect, Carve, FailsFirst, FeedEffect, TakesAll, WriteAll;
    var p, c := Awake(Unattached(core)), Awake(core);
    var v, out := Carve(buf + bytes, MAX_BODY_LEN), core.stream.value;
    raws := v.frames;
    RefusedRead(cipher, core, buf, bytes);
    NothingWritten(out);
    var wires;
    wires, i, j := EachInParallel(cipher, p, c, raws);
    assert [] + wires == wires;
    FailsWithin(out, wires, j);
    if FailsFirst(out, wires, j) {
      assert [] + wires[..j + 1] == wires[..j + 1];
    }
  }

  lemma NothingWritten(out: Outlet)
    ensures TakesAll(out, []) && WriteAll(out, []) == out
  {
  }

  /** So the requests that a read completes are answered on the socket, each by its one reply, in order,
      if its writes succeed. */
  lemma AnswersReachSocket(cipher: Cipher, core: Core, s: nat, ms: seq<Message>, written: seq<Octets>)
    requires Lawful(cipher) && core.stream == Some(Outlet(written, [])) && Handling(core)
    requires Serving(core.(stream := None), s) && Asks(s, ms)
    ensures var wires := SendAll(cipher, core.server.crypto, ms).1;
            && (forall w <- wires :: |w| >= HEADER_LEN)
            && var e := EachEffect(cipher, core, RawsOf(wires));
               && e.result == Ok(|ms|) && e.core.outbound == core.outbound
               && e.core.stream ==
                    Some(Outlet(written + SendAll(cipher, core.server.crypto, AnswersTo(s, ms)).1, []))
  {
    hide EachEffect, SendAll, RawsOf, Serving, Asks, AnswersTo, Send, Request, Reply;
    var p := core.(stream := None);
    ServerAnswers(cipher, p, s, ms);
    var raws := RawsOf(SendAll(cipher, core.server.crypto, ms).1);
    var wires, i, j := EachInParallel(cipher, p, core, raws);
    var answers := SendAll(cipher, core.server.crypto, AnswersTo(s, ms)).1;
    assert p.outbound + wires == p.outbound + answers;
    SameRest(p.outbound, wires, answers);
  }
}
