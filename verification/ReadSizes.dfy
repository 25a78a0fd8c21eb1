/** How the sizes of reads decide whether a connection takes a stream: its two limits, on buffered
    bytes and on frames in one read, are the only thing that looks at them. */
module ReadSizes {
  import opened Bytes
  import opened Aead
  import opened GcmNonce
  import opened Framing
  import opened StreamFraming
  import opened Session
  import opened StatefulSession
  import opened Boundary
  import opened Pipeline
  import opened ConnectionRuns
  import Codec = MessageCodec
  import Protocol = ProtocolState
  import Policy = ResponsePolicy

  /** Reads of at most n bytes. */
  ghost predicate Short(pieces: seq<Octets>, n: nat) {
    forall p <- pieces :: |p| <= n
  }

  ghost predicate Cuts(pieces: seq<Octets>, s: Octets, n: nat) {
    Concat(pieces) == s && Short(pieces, n)
  }

  /** What a stream does to a connection by its contents alone. */
  ghost function Contents(cipher: Cipher, c: Connection, s: Octets): Effect<nat> {
    EachEffect(cipher, Awake(c.core), Carve(c.buf + s, MAX_BODY_LEN).frames)
  }

  /** A stream without anything to refuse in it: sound frames, each handled without error. */
  ghost predicate Fine(cipher: Cipher, c: Connection, s: Octets) {
    Carve(c.buf + s, MAX_BODY_LEN).error.None? && Contents(cipher, c, s).result.Ok?
  }

  /** Would the read of bytes i to j be let in? It is added to what is left of the bytes before it,
      and must not complete more than 64 frames. */
  ghost predicate ReadFits(buf: Octets, s: Octets, i: nat, j: nat)
    requires i <= j <= |s|
  {
    var before, after := Carve(buf + s[..i], MAX_BODY_LEN), Carve(buf + s[..j], MAX_BODY_LEN);
    && |before.rest| + (j - i) <= DEFAULT_MAX_BUFFERED
    && |after.frames| <= |before.frames| + DEFAULT_MAX_FRAMES_PER_ITER
  }

  /** No stretch of at most n bytes of the stream hits a limit, wherever it begins. */
  ghost predicate WithinLimits(buf: Octets, s: Octets, n: nat) {
    forall i: nat, j: nat | i <= j <= |s| && j - i <= n :: ReadFits(buf, s, i, j)
  }

  /** The largest read that can hit neither the buffer limit nor the frame limit. */
  const SMALL_READ := 59

  lemma SmallReadsFitLimits(buf: Octets, bytes: Octets)
    requires Settled(buf, MAX_BODY_LEN) && |bytes| <= SMALL_READ
    ensures |buf| + |bytes| <= DEFAULT_MAX_BUFFERED
    ensures |Carve(buf + bytes, MAX_BODY_LEN).frames| <= DEFAULT_MAX_FRAMES_PER_ITER
  {
    hide Carve;
    SettledBound(buf, MAX_BODY_LEN);
    FramesPerPush(buf, bytes, MAX_BODY_LEN);
  }

  lemma SoundPrefix(buf: Octets, more: Octets)
    requires Carve(buf + more, MAX_BODY_LEN).error.None?
    ensures var v, w := Carve(buf, MAX_BODY_LEN), Carve(Carve(buf, MAX_BODY_LEN).rest + more, MAX_BODY_LEN);
            && v.error.None? && w.error.None? && Settled(v.rest, MAX_BODY_LEN)
            && Carve(buf + more, MAX_BODY_LEN) == w.(frames := v.frames + w.frames)
  {
    hide Carve, FrontOf;
    CarveAppend(buf, more, MAX_BODY_LEN);
    CarveSound(buf, MAX_BODY_LEN);
  }

  /** Reads of at most 59 bytes are within the limits of every sound stream. */
  lemma SmallReadsWithinLimits(buf: Octets, s: Octets, n: nat)
    requires Carve(buf + s, MAX_BODY_LEN).error.None? && n <= SMALL_READ
    ensures WithinLimits(buf, s, n)
  {
    hide Carve, Settled;
    forall i: nat, j: nat | i <= j <= |s| && j - i <= n ensures ReadFits(buf, s, i, j) {
      assert buf + s == buf + s[..j] + s[j..];
      SoundPrefix(buf + s[..j], s[j..]);
      assert buf + s[..j] == buf + s[..i] + s[i..j];
      SoundPrefix(buf + s[..i], s[i..j]);
      SmallReadsFitLimits(Carve(buf + s[..i], MAX_BODY_LEN).rest, s[i..j]);
    }
  }

  /** What is within the limits of a stream stays so once its first piece is taken in. */
  lemma LimitsShift(buf: Octets, piece: Octets, more: Octets, n: nat)
    requires Carve(buf + piece, MAX_BODY_LEN).error.None? && WithinLimits(buf, piece + more, n)
    ensures WithinLimits(Carve(buf + piece, MAX_BODY_LEN).rest, more, n)
  {
    hide Carve;
    var v, s, k := Carve(buf + piece, MAX_BODY_LEN), piece + more, |piece|;
    forall i: nat, j: nat | i <= j <= |more| && j - i <= n ensures ReadFits(v.rest, more, i, j) {
      assert ReadFits(buf, s, k + i, k + j);
      assert buf + s[..k + i] == buf + piece + more[..i] && buf + s[..k + j] == buf + piece + more[..j];
      CarveAppend(buf + piece, more[..i], MAX_BODY_LEN);
      CarveAppend(buf + piece, more[..j], MAX_BODY_LEN);
    }
  }

  /** The first read of a stream that is within the limits. */
  lemma FirstFits(buf: Octets, piece: Octets, more: Octets, n: nat)
    requires Settled(buf, MAX_BODY_LEN) && |piece| <= n && WithinLimits(buf, piece + more, n)
    ensures |buf| + |piece| <= DEFAULT_MAX_BUFFERED
    ensures |Carve(buf + piece, MAX_BODY_LEN).frames| <= DEFAULT_MAX_FRAMES_PER_ITER
  {
    var s := piece + more;
    assert ReadFits(buf, s, 0, |piece|);
    assert s[..0] == [] && buf + [] == buf && s[..|piece|] == piece;
  }

  /** A stream within the limits does by pieces what it does by its contents, failures included. */
  ghost predicate AsContents(cipher: Cipher, c: Connection, s: Octets, last: Connection,
      r: Result<nat, BoundaryError>)
  {
    var e := Contents(cipher, c, s);
    r == e.result && Awake(last.core) == Awake(e.core) && Erase(last.events) == Erase(c.events + e.events)
  }

  lemma FirstPiece(cipher: Cipher, c: Connection, piece: Octets)
    requires BetweenCalls(c) && Carve(c.buf + piece, MAX_BODY_LEN).error.None?
    requires |c.buf| + |piece| <= DEFAULT_MAX_BUFFERED
    requires |Carve(c.buf + piece, MAX_BODY_LEN).frames| <= DEFAULT_MAX_FRAMES_PER_ITER
    ensures var e := Contents(cipher, c, piece);
            && FeedEffect(cipher, c.core, c.buf, piece).result == e.result
            && Fed(cipher, c, piece).core == e.core
            && Fed(cipher, c, piece).events == c.events + ([BytesReceived(c.core.id, |piece|)] + e.events)
  {
    hide EachEffect, Carve, Settled;
  }

  lemma AsContentsStep(cipher: Cipher, c: Connection, piece: Octets, more: Octets, last: Connection,
      r: Result<nat, BoundaryError>)
    requires BetweenCalls(c) && Carve(c.buf + (piece + more), MAX_BODY_LEN).error.None?
    requires |c.buf| + |piece| <= DEFAULT_MAX_BUFFERED
    requires |Carve(c.buf + piece, MAX_BODY_LEN).frames| <= DEFAULT_MAX_FRAMES_PER_ITER
    requires var c' := Fed(cipher, c, piece);
             match FeedEffect(cipher, c.core, c.buf, piece).result
             case Err(e) => last == c' && r == Err(e)
             case Ok(n) =>
               exists q :: AsContents(cipher, c', more, last, q) &&
                           r == match q case Ok(m) => Ok(n + m) case Err(e) => Err(e)
    ensures AsContents(cipher, c, piece + more, last, r)
  {
    hide EachEffect, Carve, Fed, FeedEffect, Erase, Settled;
    var v := Carve(c.buf + piece, MAX_BODY_LEN);
    assert c.buf + piece + more == c.buf + (piece + more);
    SoundPrefix(c.buf + piece, more);
    FirstPiece(cipher, c, piece);
    EachAppend(cipher, Awake(c.core), v.frames, Carve(v.rest + more, MAX_BODY_LEN).frames);
    var e, arrival := Contents(cipher, c, piece), BytesReceived(c.core.id, |piece|);
    if e.result.Ok? {
      FedOk(cipher, c, piece);
      ErasedArrival(c.events, arrival, e.events, Contents(cipher, Fed(cipher, c, piece), more).events);
    } else {
      ErasedArrival(c.events, arrival, e.events, []);
      assert c.events + ([arrival] + e.events) + [] == c.events + ([arrival] + e.events);
      assert e.events + [] == e.events;
    }
  }

  lemma {:induction false} FedAsContents(cipher: Cipher, c: Connection, pieces: seq<Octets>, n: nat)
    requires BetweenCalls(c) && Short(pieces, n)
    requires Carve(c.buf + Concat(pieces), MAX_BODY_LEN).error.None? && WithinLimits(c.buf, Concat(pieces), n)
    ensures var (last, r) := FeedAll(cipher, c, pieces); AsContents(cipher, c, Concat(pieces), last, r)
    decreases |pieces|
  {
    hide AsContents, Fed, FeedEffect, Carve, EachEffect, WithinLimits, Settled;
    if pieces == [] {
      NothingDone(cipher, c);
    } else {
      var piece, more := pieces[0], Concat(pieces[1..]);
      assert c.buf + piece + more == c.buf + (piece + more);
      SoundPrefix(c.buf + piece, more);
      FirstFits(c.buf, piece, more, n);
      LimitsShift(c.buf, piece, more, n);
      if FeedEffect(cipher, c.core, c.buf, piece).result.Ok? {
        FedOk(cipher, c, piece);
        FedAsContents(cipher, Fed(cipher, c, piece), pieces[1..], n);
      }
      var (last, r) := FeedAll(cipher, c, pieces);
      AsContentsStep(cipher, c, piece, more, last, r);
    }
  }

  lemma NothingDone(cipher: Cipher, c: Connection)
    requires BetweenCalls(c)
    ensures AsContents(cipher, c, [], c, Ok(0))
  {
    assert c.buf + [] == c.buf && c.events + [] == c.events;
  }

  /** Two cuttings of a sound stream into reads of at most 59 bytes end alike, whether its frames are
      handled or one of them fails: same result, state, nonces, outbound frames and log but for the
      record of arrivals. */
  lemma SmallReadsAgree(cipher: Cipher, c: Connection, xs: seq<Octets>, ys: seq<Octets>)
    requires BetweenCalls(c) && Concat(xs) == Concat(ys) && Short(xs, SMALL_READ) && Short(ys, SMALL_READ)
    requires Carve(c.buf + Concat(xs), MAX_BODY_LEN).error.None?
    ensures var (x, q) := FeedAll(cipher, c, xs);
            var (y, r) := FeedAll(cipher, c, ys);
            q == r && Awake(x.core) == Awake(y.core) && Erase(x.events) == Erase(y.events)
  {
    hide FeedAll, Contents, WithinLimits, Short, Carve, Settled;
    SmallReadsWithinLimits(c.buf, Concat(xs), SMALL_READ);
    FedAsContents(cipher, c, xs, SMALL_READ);
    FedAsContents(cipher, c, ys, SMALL_READ);
  }

  /** One byte at a time. */
  ghost function Singles(s: Octets): seq<Octets> {
    if s == [] then [] else [[s[0]]] + Singles(s[1..])
  }

  lemma {:induction false} SinglesCut(s: Octets, n: nat)
    requires n > 0
    ensures Cuts(Singles(s), s, n)
  {
    if s == [] {
    } else {
      SinglesCut(s[1..], n);
      assert Singles(s)[1..] == Singles(s[1..]);
      assert s == [s[0]] + s[1..];
    }
  }

  /** Feeding pieces that end well is feeding some, and then the others. */
  lemma {:induction false} FeedSome(cipher: Cipher, c: Connection, xs: seq<Octets>, ys: seq<Octets>)
    requires BetweenCalls(c)
    ensures var (mid, r) := FeedAll(cipher, c, xs);
            && (r.Ok? ==> BetweenCalls(mid))
            && FeedAll(cipher, c, xs + ys) ==
               match r
               case Err(e) => (mid, Err(e))
               case Ok(n) =>
                 var (last, q) := FeedAll(cipher, mid, ys);
                 (last, match q case Ok(m) => Ok(n + m) case Err(e) => Err(e))
    decreases |xs|
  {
    hide Fed, FeedEffect, EachEffect, Settled, Carve;
    if xs == [] {
      assert xs + ys == ys;
    } else {
      assert (xs + ys)[0] == xs[0] && (xs + ys)[1..] == xs[1..] + ys;
      if FeedEffect(cipher, c.core, c.buf, xs[0]).result.Ok? {
        FedOk(cipher, c, xs[0]);
        FeedSome(cipher, Fed(cipher, c, xs[0]), xs[1..], ys);
      }
    }
  }

  lemma FeedOne(cipher: Cipher, c: Connection, piece: Octets)
    ensures FeedAll(cipher, c, [piece]).1 == FeedEffect(cipher, c.core, c.buf, piece).result
  {
    hide Fed, FeedEffect;
    assert [piece][1..] == [];
  }

  /** A cutting with the read from i to j in it, single bytes around it. */
  ghost function Around(s: Octets, i: nat, j: nat): seq<Octets>
    requires i <= j <= |s|
  {
    Singles(s[..i]) + [s[i..j]] + Singles(s[j..])
  }

  lemma AroundCuts(s: Octets, i: nat, j: nat, n: nat)
    requires i <= j <= |s| && j - i <= n && n > 0
    ensures Cuts(Around(s, i, j), s, n)
  {
    SinglesCut(s[..i], n);
    SinglesCut(s[j..], n);
    hide Concat;
    ConcatSnoc(Singles(s[..i]), s[i..j]);
    ConcatAppend(Singles(s[..i]) + [s[i..j]], Singles(s[j..]));
    assert s == s[..i] + s[i..j] + s[j..];
  }

  /** A read that a cutting gets away with fits. */
  lemma TakenReadFits(cipher: Cipher, c: Connection, s: Octets, i: nat, j: nat)
    requires BetweenCalls(c) && i <= j <= |s| && FeedAll(cipher, c, Around(s, i, j)).1.Ok?
    ensures ReadFits(c.buf, s, i, j)
  {
    hide FeedAll, Fed, EachEffect, Carve, Settled, Singles, Erase;
    var xs := Singles(s[..i]);
    FeedSome(cipher, c, xs + [s[i..j]], Singles(s[j..]));
    FeedSome(cipher, c, xs, [s[i..j]]);
    var mid := FeedAll(cipher, c, xs).0;
    FeedOne(cipher, mid, s[i..j]);
    SinglesCut(s[..i], 1);
    FeedAllInOneGo(cipher, c, xs);
    CarveAppend(c.buf + s[..i], s[i..j], MAX_BODY_LEN);
    assert c.buf + s[..i] + s[i..j] == c.buf + s[..j];
  }

  lemma CutMeansFine(cipher: Cipher, c: Connection, pieces: seq<Octets>)
    requires BetweenCalls(c) && FeedAll(cipher, c, pieces).1.Ok?
    ensures Fine(cipher, c, Concat(pieces))
  {
    hide FeedAll, EachEffect, Carve, Settled, Erase;
    FeedAllInOneGo(cipher, c, pieces);
  }

  lemma FineWithinLimits(cipher: Cipher, c: Connection, pieces: seq<Octets>, n: nat)
    requires BetweenCalls(c) && Short(pieces, n) && Fine(cipher, c, Concat(pieces)) &&
        WithinLimits(c.buf, Concat(pieces), n)
    ensures FeedAll(cipher, c, pieces).1.Ok?
  {
    hide FeedAll, Contents, WithinLimits, Carve, Settled, Erase;
    FedAsContents(cipher, c, pieces, n);
  }

  /** A stream that some cutting gets through is taken in small reads too, however they are cut, with
      the same connection at the end. */
  lemma SmallReadsSucceed(cipher: Cipher, c: Connection, xs: seq<Octets>, ys: seq<Octets>)
    requires BetweenCalls(c) && Concat(xs) == Concat(ys) && Short(ys, SMALL_READ)
    requires FeedAll(cipher, c, xs).1.Ok?
    ensures var (x, q) := FeedAll(cipher, c, xs);
            var (y, r) := FeedAll(cipher, c, ys);
            q == r && Awake(x.core) == Awake(y.core) && x.buf == y.buf && Erase(x.events) == Erase(y.events)
  {
    hide FeedAll, Contents, WithinLimits, Short, Carve, Settled, EachEffect, Erase;
    CutMeansFine(cipher, c, xs);
    SmallReadsWithinLimits(c.buf, Concat(xs), SMALL_READ);
    FineWithinLimits(cipher, c, ys, SMALL_READ);
    SplitIndependence(cipher, c, xs, ys);
  }

  /** Exactly which streams a connection takes however they arrive in reads of at most n bytes: those
      with nothing to refuse in them and no stretch of n bytes that hits a limit. */
  lemma EveryCuttingTakenIff(cipher: Cipher, c: Connection, s: Octets, n: nat)
    requires BetweenCalls(c) && n > 0
    ensures (forall pieces :: Cuts(pieces, s, n) ==> FeedAll(cipher, c, pieces).1.Ok?)
       <==> Fine(cipher, c, s) && WithinLimits(c.buf, s, n)
  {
    hide FeedAll, Fine, ReadFits, Concat, Short, Settled, Singles, Around;
    if forall pieces :: Cuts(pieces, s, n) ==> FeedAll(cipher, c, pieces).1.Ok? {
      SinglesCut(s, n);
      CutMeansFine(cipher, c, Singles(s));
      forall i: nat, j: nat | i <= j <= |s| && j - i <= n ensures ReadFits(c.buf, s, i, j) {
        AroundCuts(s, i, j, n);
        TakenReadFits(cipher, c, s, i, j);
      }
    }
    if Fine(cipher, c, s) && WithinLimits(c.buf, s, n) {
      forall pieces | Cuts(pieces, s, n) ensures FeedAll(cipher, c, pieces).1.Ok? {
        FineWithinLimits(cipher, c, pieces, n);
      }
    }
  }

  /** Exactly for which streams it does not matter how they are cut into reads of at most n bytes:
      all those with something to refuse in them, and those without that are within the limits. */
  lemma CuttingsAgreeIff(cipher: Cipher, c: Connection, s: Octets, n: nat)
    requires BetweenCalls(c) && n > 0
    ensures (forall xs, ys :: Cuts(xs, s, n) && Cuts(ys, s, n) ==>
               (FeedAll(cipher, c, xs).1.Ok? <==> FeedAll(cipher, c, ys).1.Ok?))
       <==> (Fine(cipher, c, s) ==> WithinLimits(c.buf, s, n))
  {
    hide FeedAll, WithinLimits, Concat, Short, Settled, Singles, Contents, Carve;
    EveryCuttingTakenIff(cipher, c, s, n);
    SinglesCut(s, n);
    if Fine(cipher, c, s) {
      SinglesCut(s, 1);
      SmallReadsWithinLimits(c.buf, s, 1);
      FineWithinLimits(cipher, c, Singles(s), 1);
    } else {
      forall pieces | Cuts(pieces, s, n) ensures FeedAll(cipher, c, pieces).1.Err? {
        if FeedAll(cipher, c, pieces).1.Ok? {
          CutMeansFine(cipher, c, pieces);
        }
      }
    }
  }

  /** A clear frame of an id the server does not know. */
  ghost function Quiet(size: nat): Message {
    Message(ClientToServer, false, 0, 0, seq(size, _ => 0))
  }

  lemma QuietHandled(s: Server, payload: Octets)
    requires s.state == Protocol.WaitingForServiceHandshake
    ensures var m := Codec.Unknown(0, 0, ClientToServer, payload);
            Codec.DecodeFromFrame(ClearFrame(0, 0, payload), ClientToServer) == Ok(m)
    ensures var (s', r) := Handled(s, Codec.Unknown(0, 0, ClientToServer, payload));
            && s'.state == s.state && r.Ok? && !r.value.transition.Rejected?
            && (r.value.actions == [Policy.NoAction] || r.value.actions == [Policy.ObserveOnly])
  {
  }

  lemma NothingApplied(cipher: Cipher, core: Core, action: Policy.ResponseAction)
    requires action == Policy.NoAction || action == Policy.ObserveOnly
    ensures AppliedAll(cipher, core, [action]) == Effect(core, [], Ok(()))
  {
    assert [action][1..] == [];
  }

  /** A server that waits for the handshake passes over such a frame. */
  lemma QuietFrame(cipher: Cipher, core: Core, size: nat)
    requires Lawful(cipher) && CLEAR_HEADER_LEN + size <= MAX_BODY_LEN
    requires Handling(core) && core.server.state == Protocol.WaitingForServiceHandshake
    ensures var wire := Send(cipher, core.server.crypto, Quiet(size)).1;
            && |wire| == HEADER_LEN + CLEAR_HEADER_LEN + size && Carved(RawFrom(wire), MAX_BODY_LEN)
            && var e := RawEffect(cipher, core, RawFrom(wire));
               e.result == Ok(()) && Handling(e.core) && e.core.server.state == core.server.state
               && e.core.server.crypto == core.server.crypto
  {
    hide Decoding, Handled, AppliedAll, Codec.DecodeFromFrame, Carved, FrontOf;
    var m := Quiet(size);
    SentShape(cipher, core.server.crypto, m);
    SentDecodes(cipher, core.server.crypto, m);
    var s := core.server;
    QuietHandled(s, m.payload);
    var (server, r) := Handled(s, Codec.Unknown(0, 0, ClientToServer, m.payload));
    HandledKeepsCrypto(s, Codec.Unknown(0, 0, ClientToServer, m.payload));
    var core' := core.(frameIndex := core.frameIndex + 1, server := server, state := ProtocolActive);
    NothingApplied(cipher, core', r.value.actions[0]);
    assert r.value.actions == [r.value.actions[0]];
  }

  lemma HandledKeepsCrypto(s: Server, m: Codec.BapMessage)
    ensures Handled(s, m).0.crypto == s.crypto
  {
  }

  /** A largest frame and 59 bytes more, all of which a new connection handles without error. */
  lemma LongStream(cipher: Cipher, id: u64, key: Key, nonce: Nonce) returns (s: Octets)
    requires Lawful(cipher)
    ensures |s| == MAX_BODY_LEN + HEADER_LEN + SMALL_READ
    ensures Fine(cipher, Initial(id, key, nonce), s)
    ensures Carve(s[..MAX_BODY_LEN + HEADER_LEN - 1], MAX_BODY_LEN) ==
            Carving([], s[..MAX_BODY_LEN + HEADER_LEN - 1], None)
  {
    hide Send, Carve, Carved, RawEffect, EachEffect, FrontOf, Started;
    var c := Initial(id, key, nonce);
    var core := Awake(c.core);
    var small := SMALL_READ - HEADER_LEN - CLEAR_HEADER_LEN;
    var big := MAX_BODY_LEN - CLEAR_HEADER_LEN;
    StartsWaiting(id, key, nonce);
    QuietFrame(cipher, core, big);
    var a := Send(cipher, core.server.crypto, Quiet(big)).1;
    var mid := RawEffect(cipher, core, RawFrom(a)).core;
    QuietFrame(cipher, mid, small);
    var b := Send(cipher, core.server.crypto, Quiet(small)).1;
    s := a + b;
    TwoFrames(cipher, core, a, b);
    assert [] + s == s;
    Unfinished(a, b);
  }

  lemma StartsWaiting(id: u64, key: Key, nonce: Nonce)
    ensures Started(id, key, nonce).state == Protocol.WaitingForServiceHandshake
  {
  }

  lemma TwoFrames(cipher: Cipher, core: Core, a: Octets, b: Octets)
    requires |a| >= HEADER_LEN && |b| >= HEADER_LEN
    requires Carved(RawFrom(a), MAX_BODY_LEN) && Carved(RawFrom(b), MAX_BODY_LEN)
    requires RawEffect(cipher, core, RawFrom(a)).result.Ok?
    requires RawEffect(cipher, RawEffect(cipher, core, RawFrom(a)).core, RawFrom(b)).result.Ok?
    ensures Carve(a + b, MAX_BODY_LEN) == Carving([RawFrom(a), RawFrom(b)], [], None)
    ensures EachEffect(cipher, core, [RawFrom(a), RawFrom(b)]).result.Ok?
  {
    hide RawEffect, Carved, FrontOf;
    CarveFirst(RawFrom(b), [], MAX_BODY_LEN);
    CarveFirst(RawFrom(a), b, MAX_BODY_LEN);
    assert b + [] == b && Carve([], MAX_BODY_LEN) == Carving([], [], None) by { NothingCarves(); }
    assert [RawFrom(a)] + [RawFrom(b)] == [RawFrom(a), RawFrom(b)] && [RawFrom(b)] + [] == [RawFrom(b)];
    assert [RawFrom(a), RawFrom(b)][1..] == [RawFrom(b)] && [RawFrom(b)][1..] == [];
    var mid := RawEffect(cipher, core, RawFrom(a)).core;
    assert EachEffect(cipher, RawEffect(cipher, mid, RawFrom(b)).core, []).result == Ok(0);
    assert EachEffect(cipher, mid, [RawFrom(b)]).result.Ok?;
  }

  lemma NothingCarves()
    ensures Carve([], MAX_BODY_LEN) == Carving([], [], None)
  {
  }

  /** A frame without its last byte. */
  lemma Unfinished(a: Octets, more: Octets)
    requires |a| > HEADER_LEN && Carved(RawFrom(a), MAX_BODY_LEN)
    ensures var part := (a + more)[..|a| - 1]; Carve(part, MAX_BODY_LEN) == Carving([], part, None)
  {
    var part := (a + more)[..|a| - 1];
    assert part == a[..|a| - 1] && part + a[|a| - 1..] == a && a + [] == a;
    CarvedFront(RawFrom(a), [], MAX_BODY_LEN);
    FrontStable(part, a[|a| - 1..], MAX_BODY_LEN);
  }

  /** Reads of 60 bytes are too long. One stream, and two ways a new connection may get it: by single
      bytes, which all goes well, and with one read of 60 bytes that meets a buffer waiting for the
      last byte of a largest frame, which closes the connection. */
  lemma SixtyByteRead(cipher: Cipher, id: u64, key: Key, nonce: Nonce) returns (xs: seq<Octets>, ys: seq<Octets>)
    requires Lawful(cipher)
    ensures Concat(xs) == Concat(ys) && Short(xs, 1) && Short(ys, SMALL_READ + 1)
    ensures FeedAll(cipher, Initial(id, key, nonce), xs).1.Ok?
    ensures FeedAll(cipher, Initial(id, key, nonce), ys).1 == Err(LimitExceeded(BufferedBytesExceeded))
  {
    hide FeedAll, Fine, Carve, WithinLimits, Singles, Started, Initial;
    var c := Initial(id, key, nonce);
    NewIsReady(id, key, nonce);
    var s := LongStream(cipher, id, key, nonce);
    var n := MAX_BODY_LEN + HEADER_LEN - 1;
    var part, tail := s[..n], s[n..];
    assert part + tail == s;
    SinglesCut(s, 1);
    SinglesCut(part, 1);
    xs, ys := Singles(s), Singles(part) + [tail];
    ConcatSnoc(Singles(part), tail);
    FineBySingles(cipher, c, s);
    FinePrefix(cipher, c, part, tail);
    FineBySingles(cipher, c, part);
    FeedSome(cipher, c, Singles(part), [tail]);
    FeedOne(cipher, FeedAll(cipher, c, Singles(part)).0, tail);
    TooMuch(cipher, FeedAll(cipher, c, Singles(part)).0, tail);
  }

  lemma NewIsReady(id: u64, key: Key, nonce: Nonce)
    ensures BetweenCalls(Initial(id, key, nonce)) && Initial(id, key, nonce).buf == []
  {
  }

  /** Fed by single bytes, a new connection takes all that is fine and holds what is not a frame yet. */
  lemma FineBySingles(cipher: Cipher, c: Connection, s: Octets)
    requires BetweenCalls(c) && c.buf == [] && Fine(cipher, c, s)
    ensures var (mid, r) := FeedAll(cipher, c, Singles(s));
            r.Ok? && mid.buf == Carve(s, MAX_BODY_LEN).rest && BetweenCalls(mid)
  {
    hide FeedAll, Carve, WithinLimits, Singles, Contents, Settled, EachEffect, Erase;
    assert [] + s == s;
    SinglesCut(s, 1);
    SmallReadsWithinLimits([], s, 1);
    FineWithinLimits(cipher, c, Singles(s), 1);
    FeedAllInOneGo(cipher, c, Singles(s));
    FeedSome(cipher, c, Singles(s), []);
  }

  lemma TooMuch(cipher: Cipher, c: Connection, bytes: Octets)
    requires BetweenCalls(c) && |c.buf| + |bytes| > DEFAULT_MAX_BUFFERED
    ensures FeedEffect(cipher, c.core, c.buf, bytes).result == Err(LimitExceeded(BufferedBytesExceeded))
  {
    hide Carve, Settled;
  }

  lemma FineIsSound(cipher: Cipher, c: Connection, s: Octets)
    requires Fine(cipher, c, s)
    ensures Carve(c.buf + s, MAX_BODY_LEN).error.None?
  {
  }

  lemma FinePrefix(cipher: Cipher, c: Connection, part: Octets, tail: Octets)
    requires Fine(cipher, c, part + tail)
    ensures Fine(cipher, c, part) && Carve(c.buf + part, MAX_BODY_LEN).error.None?
  {
    hide Carve, EachEffect, Settled;
    assert c.buf + (part + tail) == c.buf + part + tail;
    SoundPrefix(c.buf + part, tail);
    EachAppend(cipher, Awake(c.core), Carve(c.buf + part, MAX_BODY_LEN).frames,
               Carve(Carve(c.buf + part, MAX_BODY_LEN).rest + tail, MAX_BODY_LEN).frames);
  }

  /** The largest safe size of reads. Whether a new connection takes a stream is independent of how it
      is cut into reads of at most n bytes, for every stream, if and only if n is at most 59. */
  lemma SafeReadSizeIff(cipher: Cipher, id: u64, key: Key, nonce: Nonce, n: nat)
    requires Lawful(cipher)
    ensures var c := Initial(id, key, nonce);
            (forall s, xs, ys :: Cuts(xs, s, n) && Cuts(ys, s, n) ==>
               (FeedAll(cipher, c, xs).1.Ok? <==> FeedAll(cipher, c, ys).1.Ok?))
            <==> n <= SMALL_READ
  {
    hide FeedAll, Concat, Carve, Fine, Started;
    var c := Initial(id, key, nonce);
    if n <= SMALL_READ {
      forall s, xs, ys | Cuts(xs, s, n) && Cuts(ys, s, n)
        ensures FeedAll(cipher, c, xs).1.Ok? <==> FeedAll(cipher, c, ys).1.Ok?
      {
        if FeedAll(cipher, c, xs).1.Ok? || FeedAll(cipher, c, ys).1.Ok? {
          CutMeansFine(cipher, c, if FeedAll(cipher, c, xs).1.Ok? then xs else ys);
          FineIsSound(cipher, c, s);
          SmallReadsAgree(cipher, c, xs, ys);
        }
      }
    } else {
      var xs, ys := SixtyByteRead(cipher, id, key, nonce);
      assert Cuts(xs, Concat(xs), n) && Cuts(ys, Concat(xs), n);
    }
  }
}
