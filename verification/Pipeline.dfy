/** Byte source, stream decoder and session composed: bytes in, decoded frames out. */
module Pipeline {
  import opened Bytes
  import opened Aead
  import opened GcmNonce
  import opened SessionContext
  import opened Framing
  import opened StreamFraming
  import opened Session

  datatype ByteSourceError = SourceFailed(reason: string)

  type Read = Result<Octets, ByteSourceError>

  /** An in-memory queue of reads; reading past its end is a clean end of file. */
  class MockByteSource {
    var queue: seq<Read>

    constructor FromResults(items: seq<Read>)
      ensures queue == items
    {
      queue := items;
    }

    method Read() returns (r: Result<Option<Octets>, ByteSourceError>)
      modifies this
      ensures old(queue) == [] ==> queue == [] && r == Ok(None)
      ensures old(queue) != [] ==>
                && queue == old(queue)[1..]
                && r == match old(queue)[0] case Ok(b) => Ok(Some(b)) case Err(e) => Err(e)
    {
      if queue == [] {
        return Ok(None);
      }
      var head := queue[0];
      queue := queue[1..];
      match head {
        case Ok(b) => return Ok(Some(b));
        case Err(e) => return Err(e);
      }
    }
  }

  function PositiveSizes(sizes: seq<nat>): (r: seq<nat>)
    ensures forall k | 0 <= k < |r| :: r[k] > 0
  {
    if sizes == [] then []
    else if sizes[0] > 0 then [sizes[0]] + PositiveSizes(sizes[1..])
    else PositiveSizes(sizes[1..])
  }

  /** The positive sizes, all of them and in order. */
  lemma {:induction false} PositiveSizesAre(xs: seq<nat>, ys: seq<nat>, n: nat)
    ensures PositiveSizes([n]) == if n > 0 then [n] else []
    ensures PositiveSizes(xs + ys) == PositiveSizes(xs) + PositiveSizes(ys)
  {
    assert [n][1..] == [] && [n] + [] == [n];
    if xs == [] {
      assert xs + ys == ys;
    } else {
      assert (xs + ys)[1..] == xs[1..] + ys;
      PositiveSizesAre(xs[1..], ys, n);
      var a, b := PositiveSizes(xs[1..]), PositiveSizes(ys);
      assert [xs[0]] + (a + b) == [xs[0]] + a + b;
    }
  }

  /** The k-th size of a schedule taken round and round. */
  function SizeAt(cycle: seq<nat>, k: nat): nat
    requires cycle != []
  {
    cycle[k % |cycle|]
  }

  lemma SizeAtPositive(cycle: seq<nat>, k: nat)
    requires cycle != [] && forall i | 0 <= i < |cycle| :: cycle[i] > 0
    ensures SizeAt(cycle, k) > 0
  {
  }

  /** Non-empty pieces no longer than the schedule, the first `full` of them as long. */
  ghost predicate FollowsSchedule(pieces: seq<Octets>, cycle: seq<nat>, full: int)
    requires cycle != []
  {
    forall k | 0 <= k < |pieces| ::
      0 < |pieces[k]| <= cycle[k % |cycle|] && (k < full ==> |pieces[k]| == cycle[k % |cycle|])
  }

  /** Cuts a stream into pieces of the given sizes, taken round and round; zero sizes are skipped,
      and without any other size the pieces are single bytes. Only the last may be short. */
  method ChunkStream(stream: Octets, sizes: seq<nat>) returns (out: seq<Octets>)
    ensures Concat(out) == stream
    ensures FollowsSchedule(out, if PositiveSizes(sizes) == [] then [1] else PositiveSizes(sizes), |out| - 1)
  {
    hide Concat;
    var cycle := PositiveSizes(sizes);
    if cycle == [] {
      cycle := [1];
    }
    out := [];
    assert Concat(out) == [] by { EmptyConcat(); }
    var offset, i := 0, 0;
    while offset < |stream|
      invariant 0 <= offset <= |stream| && i == |out|
      invariant Concat(out) == stream[..offset]
      invariant FollowsSchedule(out, cycle, if offset < |stream| then |out| else |out| - 1)
    {
      var size := SizeAt(cycle, i);
      SizeAtPositive(cycle, i);
      var n := if size < |stream| - offset then size else |stream| - offset;
      i := i + 1;
      var piece := stream[offset..offset + n];
      ConcatSnoc(out, piece);
      assert stream[..offset] + piece == stream[..offset + n];
      out := out + [piece];
      offset := offset + n;
    }
    assert stream[..offset] == stream;
  }

  lemma EmptyConcat()
    ensures Concat<byte>([]) == []
  {
  }

  datatype PipelineError =
    | Source(source: ByteSourceError)
    | Stream(stream: StreamFramingError)
    | SessionFailed(session: BapSessionError)
    | DirectionCountMismatch(dirs: nat, frames: nat)

  /** The buffer, the unread queue and the frames after draining a source. */
  datatype Ingest = Ingest(buf: Octets, queue: seq<Read>, result: Result<seq<RawBapFrame>, PipelineError>)

  ghost function Collect(buf: Octets, queue: seq<Read>, max: nat): Ingest
    decreases |queue|
  {
    if queue == [] then Ingest(buf, [], if buf == [] then Ok([]) else Err(Stream(IncompleteAtEnd(|buf|))))
    else match queue[0]
      case Err(e) => Ingest(buf, queue[1..], Err(Source(e)))
      case Ok(chunk) =>
        var c := Carve(buf + chunk, max);
        if c.error.Some? then Ingest(c.rest, queue[1..], Err(Stream(c.error.value)))
        else
          var later := Collect(c.rest, queue[1..], max);
          later.(result := match later.result case Ok(fs) => Ok(c.frames + fs) case Err(e) => Err(e))
  }

  /** Decodes frame by frame and stops at the first failure. */
  ghost function DecodeEach(cipher: Cipher, c: Context, raws: seq<RawBapFrame>, dirs: seq<Direction>)
    : (Context, Result<seq<DecodedBapFrame>, PipelineError>)
    requires |raws| == |dirs|
    decreases |raws|
  {
    if raws == [] then (c, Ok([]))
    else
      var (c', r) := Decoding(cipher, c, dirs[0], raws[0].rawBytes);
      match r
      case Err(e) => (c', Err(SessionFailed(e)))
      case Ok(f) =>
        var (c'', rest) := DecodeEach(cipher, c', raws[1..], dirs[1..]);
        (c'', Prepend([f], rest))
  }

  lemma DecodeEachHead(cipher: Cipher, c: Context, raws: seq<RawBapFrame>, dirs: seq<Direction>, i: nat,
                       decoded: seq<DecodedBapFrame>)
    requires i < |raws| == |dirs|
    ensures var (c', r) := Decoding(cipher, c, dirs[i], raws[i].rawBytes);
            var (c'', rest) := DecodeEach(cipher, c, raws[i..], dirs[i..]);
            match r
            case Err(e) => c'' == c' && Prepend(decoded, rest) == Err(SessionFailed(e))
            case Ok(f) =>
              var (last, later) := DecodeEach(cipher, c', raws[i + 1..], dirs[i + 1..]);
              c'' == last && Prepend(decoded, rest) == Prepend(decoded + [f], later)
  {
    assert raws[i..][1..] == raws[i + 1..] && dirs[i..][1..] == dirs[i + 1..];
    var (c', r) := Decoding(cipher, c, dirs[i], raws[i].rawBytes);
    if r.Ok? {
      var later := DecodeEach(cipher, c', raws[i + 1..], dirs[i + 1..]).1;
      if later.Ok? {
        assert decoded + ([r.value] + later.value) == decoded + [r.value] + later.value;
      }
    }
  }

  ghost function Directed(cipher: Cipher, c: Context, buf: Octets, queue: seq<Read>, dirs: seq<Direction>, max: nat)
    : (Context, Ingest, Result<seq<DecodedBapFrame>, PipelineError>)
  {
    var ingest := Collect(buf, queue, max);
    match ingest.result
    case Err(e) => (c, ingest, Err(e))
    case Ok(raws) =>
      if |raws| != |dirs| then (c, ingest, Err(DirectionCountMismatch(|dirs|, |raws|)))
      else
        var (c', r) := DecodeEach(cipher, c, raws, dirs);
        (c', ingest, r)
  }

  class BapOfflinePipeline {
    const decoder: BapStreamDecoder
    const session: BapSession

    ghost predicate Valid()
      reads session.Repr
    {
      session.Valid() && decoder !in session.Repr
    }

    constructor Over(decoder: BapStreamDecoder, session: BapSession)
      requires session.Valid() && decoder !in session.Repr
      ensures Valid() && this.decoder == decoder && this.session == session
    {
      this.decoder, this.session := decoder, session;
    }

    method CollectRawFrames(source: MockByteSource) returns (r: Result<seq<RawBapFrame>, PipelineError>)
      requires source !in session.Repr
      modifies source, decoder
      ensures Ingest(decoder.buf, source.queue, r) == Collect(old(decoder.buf), old(source.queue), decoder.maxBodyLen)
    {
      hide Carve;
      var out: seq<RawBapFrame> := [];
      assert forall fs: seq<RawBapFrame> :: out + fs == fs;
      while true
        invariant var whole, now := Collect(old(decoder.buf), old(source.queue), decoder.maxBodyLen),
                                    Collect(decoder.buf, source.queue, decoder.maxBodyLen);
                  whole == now.(result := match now.result case Ok(fs) => Ok(out + fs) case Err(e) => Err(e))
        decreases |source.queue|
      {
        ghost var now := Collect(decoder.buf, source.queue, decoder.maxBodyLen);
        var got := source.Read();
        if got.Err? {
          return Err(Source(got.error));
        }
        if got.value.None? {
          break;
        }
        var pushed := decoder.Push(got.value.value);
        if pushed.Err? {
          return Err(Stream(pushed.error));
        }
        ghost var later := Collect(decoder.buf, source.queue, decoder.maxBodyLen);
        if later.result.Ok? {
          assert out + (pushed.value + later.result.value) == out + pushed.value + later.result.value;
        }
        out := out + pushed.value;
      }
      var finished := decoder.Finish();
      if finished.Err? {
        return Err(Stream(finished.error));
      }
      assert out + [] == out;
      return Ok(out);
    }

    method DecodeRaw(direction: Direction, raw: RawBapFrame) returns (r: Result<DecodedBapFrame, PipelineError>)
      requires Valid()
      modifies session.Repr
      ensures Valid()
      ensures var (c, d) := Decoding(session.cipher, old(session.Value()), direction, raw.rawBytes);
              session.Value() == c && r == match d case Ok(f) => Ok(f) case Err(e) => Err(SessionFailed(e))
    {
      var d := session.DecodeFrame(direction, raw.rawBytes);
      match d {
        case Ok(f) => return Ok(f);
        case Err(e) => return Err(SessionFailed(e));
      }
    }

    /** The i-th recovered frame travelled in `directions[i]`. */
    method RunDirected(source: MockByteSource, directions: seq<Direction>)
      returns (r: Result<seq<DecodedBapFrame>, PipelineError>)
      requires Valid() && source !in session.Repr
      modifies source, decoder, session.Repr
      ensures Valid()
      ensures var (c, ingest, result) := Directed(session.cipher, old(session.Value()), old(decoder.buf),
                                                  old(source.queue), directions, decoder.maxBodyLen);
              && session.Value() == c && decoder.buf == ingest.buf && source.queue == ingest.queue && r == result
    {
      var collected := CollectRawFrames(source);
      if collected.Err? {
        return Err(collected.error);
      }
      var raws := collected.value;
      if |raws| != |directions| {
        return Err(DirectionCountMismatch(|directions|, |raws|));
      }
      var decoded: seq<DecodedBapFrame> := [];
      ghost var whole := DecodeEach(session.cipher, session.Value(), raws, directions);
      ghost var buf, queue := decoder.buf, source.queue;
      assert forall fs: seq<DecodedBapFrame> :: decoded + fs == fs;
      for i := 0 to |raws|
        invariant Valid() && decoder.buf == buf && source.queue == queue
        invariant var (c, rest) := DecodeEach(session.cipher, session.Value(), raws[i..], directions[i..]);
                  whole == (c, Prepend(decoded, rest))
      {
        ghost var before := session.Value();
        var d := DecodeRaw(directions[i], raws[i]);
        DecodeEachHead(session.cipher, before, raws, directions, i, decoded);
        if d.Err? {
          return Err(d.error);
        }
        decoded := decoded + [d.value];
      }
      assert decoded + [] == decoded;
      return Ok(decoded);
    }
  }

  /** A logical message and how it travels. */
  datatype Message = Message(direction: Direction, encrypted: bool, msgId: u16, context: u32, payload: Octets)
  {
    ghost function BodyLen(): nat {
      CLEAR_HEADER_LEN + |payload| + if encrypted then TAG_LEN else 0
    }

    function Kind(): byte { if encrypted then KIND_ENCRYPTED else KIND_CLEAR }

    /** The encoder's own limit: the length field. */
    ghost predicate Encodable() { BodyLen() < U32_LIMIT }

    /** The decoder's limit. */
    ghost predicate Fits() { BodyLen() <= MAX_BODY_LEN }

    /** The message as a receiver sees it. */
    ghost function Received(): DecodedBapFrame {
      if encrypted then DecryptedFrame(Some(msgId), Some(context), payload, CLEAR_HEADER_LEN + |payload|)
      else ClearFrame(msgId, context, payload)
    }
  }

  ghost function DirectionsOf(ms: seq<Message>): (r: seq<Direction>)
    ensures |r| == |ms|
  {
    if ms == [] then [] else [ms[0].direction] + DirectionsOf(ms[1..])
  }

  ghost function ReceivedOf(ms: seq<Message>): (r: seq<DecodedBapFrame>)
    ensures |r| == |ms|
  {
    if ms == [] then [] else [ms[0].Received()] + ReceivedOf(ms[1..])
  }

  /** A source that delivers the pieces and never fails. */
  ghost function Reads(pieces: seq<Octets>): seq<Read> {
    if pieces == [] then [] else [Ok(pieces[0])] + Reads(pieces[1..])
  }

  ghost function Send(cipher: Cipher, c: Context, m: Message): (Context, Octets) {
    if m.encrypted then
      var (c', r) := Encoding(cipher, c, m.direction, m.msgId, m.context, m.payload);
      (c', match r case Ok(wire) => wire case Err(_) => [])
    else (c, ClearRaw(m.msgId, m.context, m.payload))
  }

  /** The sender's context after all messages, and their wire forms. */
  ghost function SendAll(cipher: Cipher, c: Context, ms: seq<Message>): (Context, seq<Octets>)
    decreases |ms|
  {
    if ms == [] then (c, [])
    else
      var (c', wire) := Send(cipher, c, ms[0]);
      var (c'', wires) := SendAll(cipher, c', ms[1..]);
      (c'', [wire] + wires)
  }

  lemma RawHeader(frame: BapFrame)
    requires |SerializeBody(frame.body)| < U32_LIMIT
    ensures var wire, n := Raw(frame), |SerializeBody(frame.body)|;
            |wire| == HEADER_LEN + n && wire[..HEADER_LEN] == [BAP_MAGIC, frame.kind.AsByte()] + U32Be(n)
  {
    hide SerializeBody, U32Be;
  }

  /** What a message puts on the wire: a header that announces its kind and body length. */
  lemma SentHeader(cipher: Cipher, c: Context, m: Message)
    requires Lawful(cipher) && m.Encodable()
    ensures var wire := Send(cipher, c, m).1;
            && |wire| == HEADER_LEN + m.BodyLen()
            && wire[..HEADER_LEN] == [BAP_MAGIC, m.Kind()] + U32Be(m.BodyLen())
  {
    hide Advance, Raw, U32Be;
    RawHeader(BapFrame(Clear, ClearBody(m.msgId, m.context, m.payload)));
    if m.encrypted {
      var sealed := cipher.seal(c.key, c.Of(m.direction).nonce, Plaintext(m.msgId, m.context, m.payload));
      RawHeader(BapFrame(Encrypted, EncryptedBody(sealed.value.tag, sealed.value.ciphertext)));
    }
  }

  lemma SentShape(cipher: Cipher, c: Context, m: Message)
    requires Lawful(cipher) && m.Encodable()
    ensures var wire := Send(cipher, c, m).1;
            && |wire| == HEADER_LEN + m.BodyLen()
            && (m.Fits() ==> Carved(RawFrom(wire), MAX_BODY_LEN))
            && (!m.Fits() ==> forall more :: FrontOf(wire + more, MAX_BODY_LEN) == Broken(FrameTooLarge(m.BodyLen())))
  {
    hide Send;
    var wire := Send(cipher, c, m).1;
    SentHeader(cipher, c, m);
    assert wire == wire[..HEADER_LEN] + wire[HEADER_LEN..];
    BigEndianRoundTrips(0, m.BodyLen(), [0, 0], U32Be(m.BodyLen()));
    forall more
      ensures !m.Fits() ==> FrontOf(wire + more, MAX_BODY_LEN) == Broken(FrameTooLarge(m.BodyLen()))
    {
      HeaderSplits(wire, more);
    }
    HeaderSplits(wire, []);
  }

  lemma HeaderSplits(wire: Octets, more: Octets)
    requires |wire| >= HEADER_LEN
    ensures (wire + more)[0] == wire[..HEADER_LEN][0] && (wire + more)[1] == wire[..HEADER_LEN][1]
    ensures (wire + more)[2..6] == wire[..HEADER_LEN][2..6]
  {
  }

  ghost function RawsOf(wires: seq<Octets>): seq<RawBapFrame>
    requires forall w <- wires :: |w| >= HEADER_LEN
  {
    if wires == [] then [] else [RawFrom(wires[0])] + RawsOf(wires[1..])
  }

  ghost predicate AllFit(ms: seq<Message>) {
    forall m <- ms :: m.Fits()
  }

  lemma {:induction false} SentLengths(cipher: Cipher, c: Context, ms: seq<Message>)
    requires Lawful(cipher) && forall m <- ms :: m.Encodable()
    ensures var wires := SendAll(cipher, c, ms).1;
            |wires| == |ms| && forall w <- wires :: |w| >= HEADER_LEN
    decreases |ms|
  {
    hide Send, FrontOf, Carved;
    if ms == [] {
    } else {
      SentShape(cipher, c, ms[0]);
      SentLengths(cipher, Send(cipher, c, ms[0]).0, ms[1..]);
    }
  }

  lemma SentFrontCarves(cipher: Cipher, c: Context, m: Message, more: Octets)
    requires Lawful(cipher) && m.Encodable()
    ensures var wire, rest := Send(cipher, c, m).1, Carve(more, MAX_BODY_LEN);
            && |wire| >= HEADER_LEN
            && if m.Fits() then Carve(wire + more, MAX_BODY_LEN) == rest.(frames := [RawFrom(wire)] + rest.frames)
               else Carve(wire + more, MAX_BODY_LEN).error.Some?
  {
    hide Send, Carved;
    SentShape(cipher, c, m);
    if m.Fits() {
      CarveFirst(RawFrom(Send(cipher, c, m).1), more, MAX_BODY_LEN);
    }
  }

  lemma AllFitFirst(ms: seq<Message>)
    requires ms != []
    ensures AllFit(ms) <==> ms[0].Fits() && AllFit(ms[1..])
  {
    assert ms == [ms[0]] + ms[1..];
  }

  /** The decoder recovers exactly the frames sent if all fit, and otherwise refuses the stream. */
  lemma {:induction false} SentStreamCarves(cipher: Cipher, c: Context, ms: seq<Message>)
    requires Lawful(cipher) && forall m <- ms :: m.Encodable()
    ensures var wires := SendAll(cipher, c, ms).1;
            && |wires| == |ms|
            && (forall w <- wires :: |w| >= HEADER_LEN)
            && if AllFit(ms) then Carve(Concat(wires), MAX_BODY_LEN) == Carving(RawsOf(wires), [], None)
               else Carve(Concat(wires), MAX_BODY_LEN).error.Some?
    decreases |ms|
  {
    SentLengths(cipher, c, ms);
    if ms == [] {
    } else {
      hide Send, FrontOf, AllFit;
      var (c', wire) := Send(cipher, c, ms[0]);
      var wires := SendAll(cipher, c', ms[1..]).1;
      SentStreamCarves(cipher, c', ms[1..]);
      AllFitFirst(ms);
      assert ([wire] + wires)[1..] == wires;
      SentFrontCarves(cipher, c, ms[0], Concat(wires));
    }
  }

  lemma SentDecodes(cipher: Cipher, c: Context, m: Message)
    requires Lawful(cipher) && m.Encodable()
    ensures var (c', wire) := Send(cipher, c, m);
            Decoding(cipher, c, m.direction, wire) == (c', Ok(m.Received()))
  {
    FrameRoundTrip(cipher, c, c, m.direction, m.msgId, m.context, m.payload);
  }

  lemma DecodeEachStep(cipher: Cipher, c: Context, raws: seq<RawBapFrame>, dirs: seq<Direction>,
                       f: DecodedBapFrame, c': Context, fs: seq<DecodedBapFrame>, c'': Context)
    requires |raws| == |dirs| > 0
    requires Decoding(cipher, c, dirs[0], raws[0].rawBytes) == (c', Ok(f))
    requires DecodeEach(cipher, c', raws[1..], dirs[1..]) == (c'', Ok(fs))
    ensures DecodeEach(cipher, c, raws, dirs) == (c'', Ok([f] + fs))
  {
  }

  lemma {:induction false} SentFramesDecode(cipher: Cipher, c: Context, ms: seq<Message>)
    requires Lawful(cipher) && forall m <- ms :: m.Encodable()
    ensures var (c', wires) := SendAll(cipher, c, ms);
            && (forall w <- wires :: |w| >= HEADER_LEN) && |RawsOf(wires)| == |ms|
            && DecodeEach(cipher, c, RawsOf(wires), DirectionsOf(ms)) == (c', Ok(ReceivedOf(ms)))
    decreases |ms|
  {
    SentStreamCarves(cipher, c, ms);
    if ms == [] {
    } else {
      var m := ms[0];
      var (c', wire) := Send(cipher, c, m);
      var (c'', wires) := SendAll(cipher, c', ms[1..]);
      SentDecodes(cipher, c, m);
      SentFramesDecode(cipher, c', ms[1..]);
      var raws, dirs := RawsOf([wire] + wires), DirectionsOf(ms);
      assert ([wire] + wires)[1..] == wires && raws[1..] == RawsOf(wires) && dirs[1..] == DirectionsOf(ms[1..]);
      DecodeEachStep(cipher, c, raws, dirs, m.Received(), c', ReceivedOf(ms[1..]), c'');
    }
  }

  /** Draining a source that never fails is pushing its pieces, and reads the source to its end. */
  lemma {:induction false} CollectIsPushAll(buf: Octets, pieces: seq<Octets>, max: nat)
    ensures var p := PushAll(buf, pieces, max);
            var g := Collect(buf, Reads(pieces), max);
            && g.buf == p.rest
            && g.result == (if p.error.Some? then Err(Stream(p.error.value))
                            else if p.rest == [] then Ok(p.frames)
                            else Err(Stream(IncompleteAtEnd(|p.rest|))))
            && (p.error.None? ==> g.queue == [])
    decreases |pieces|
  {
    if pieces == [] {
    } else {
      assert Reads(pieces)[1..] == Reads(pieces[1..]);
      var c := Carve(buf + pieces[0], max);
      if c.error.None? {
        CollectIsPushAll(c.rest, pieces[1..], max);
      }
    }
  }

  lemma {:induction false} CollectFirst(buf: Octets, pieces: seq<Octets>, later: seq<Read>, max: nat)
    ensures var p := PushAll(buf, pieces, max);
            var g := Collect(buf, Reads(pieces) + later, max);
            if p.error.Some? then g.result == Err(Stream(p.error.value)) && g.buf == p.rest
            else
              var h := Collect(p.rest, later, max);
              g == h.(result := Prepend(p.frames, h.result))
    decreases |pieces|
  {
    hide Carve;
    if pieces == [] {
      assert Reads(pieces) + later == later;
      var h := Collect(buf, later, max);
      assert h.result.Ok? ==> [] + h.result.value == h.result.value;
    } else {
      var queue := Reads(pieces) + later;
      assert queue[0] == Ok(pieces[0]) && queue[1..] == Reads(pieces[1..]) + later;
      var c := Carve(buf + pieces[0], max);
      if c.error.None? {
        CollectFirst(c.rest, pieces[1..], later, max);
        var p := PushAll(c.rest, pieces[1..], max);
        if p.error.None? {
          var h := Collect(p.rest, later, max);
          assert h.result.Ok? ==> c.frames + (p.frames + h.result.value) == c.frames + p.frames + h.result.value;
        }
      }
    }
  }

  /** A read that fails is reported: as itself if what was read before it is sound, and otherwise as
      what was wrong with that. What comes after it is not read. */
  lemma SourceFailureReported(buf: Octets, pieces: seq<Octets>, e: ByteSourceError, later: seq<Read>, max: nat)
    ensures var p := PushAll(buf, pieces, max);
            var g := Collect(buf, Reads(pieces) + ([Err(e)] + later), max);
            if p.error.None? then g == Ingest(p.rest, later, Err(Source(e)))
            else g.result == Err(Stream(p.error.value)) && g.buf == p.rest
  {
    hide PushAll;
    CollectFirst(buf, pieces, [Err(e)] + later, max);
    assert ([Err(e)] + later)[0] == Err(e) && ([Err(e)] + later)[1..] == later;
  }

  /** No source that fails is drained without an error. */
  lemma {:induction false} FailingSourceFails(buf: Octets, queue: seq<Read>, max: nat)
    requires exists r <- queue :: r.Err?
    ensures Collect(buf, queue, max).result.Err?
    decreases |queue|
  {
    hide Carve;
    if queue[0].Ok? {
      var r :| r in queue && r.Err?;
      assert queue == [queue[0]] + queue[1..];
      assert r in queue[1..];
      FailingSourceFails(Carve(buf + queue[0].value, max).rest, queue[1..], max);
    }
  }

  /** The verdict on a stream that is read to its end, whatever the pieces: its frames if nothing is left
      over; otherwise what is wrong with the first header that is, or that the stream ends early. */
  lemma CollectVerdict(pieces: seq<Octets>, frames: seq<RawBapFrame>, rest: Octets, max: nat)
    requires Concat(pieces) == RawBytesOf(frames) + rest
    requires (forall f <- frames :: Carved(f, max)) && NoSoundFrame(rest, max)
    ensures var r := Collect([], Reads(pieces), max).result;
            && (rest == [] ==> r == Ok(frames))
            && (forall b :: r == Err(Stream(InvalidMagic(b))) <==> |rest| >= 6 && rest[0] == b && b != 1)
            && (forall b :: r == Err(Stream(InvalidKind(b))) <==>
                  |rest| >= 6 && rest[0] == 1 && rest[1] == b && b != 1 && b != 2)
            && (forall n: u32 :: r == Err(Stream(FrameTooLarge(n))) <==>
                  && |rest| >= 6 && rest[0] == 1 && (rest[1] == 1 || rest[1] == 2)
                  && BigEndian(rest[2..6]) == n && n > max)
            && (forall n :: r == Err(Stream(IncompleteAtEnd(n))) <==>
                  && n == |rest| > 0
                  && (|rest| < 6 || (rest[0] == 1 && (rest[1] == 1 || rest[1] == 2) && BigEndian(rest[2..6]) <= max)))
            && (r.Ok? <==> rest == [])
  {
    hide Carve, Collect, PushAll, NoSoundFrame, Carved, BigEndian;
    CarveVerdict(frames, rest, max);
    assert [] + Concat(pieces) == RawBytesOf(frames) + rest;
    ChunkingIndependence([], pieces, max);
    CollectIsPushAll([], pieces, max);
    HeaderRefusedIff(frames, rest, max);
  }

  lemma {:induction false} DecodeEachAppend(cipher: Cipher, c: Context, xs: seq<RawBapFrame>, ys: seq<RawBapFrame>,
      ds: seq<Direction>, es: seq<Direction>)
    requires |xs| == |ds| && |ys| == |es|
    ensures var (c', r) := DecodeEach(cipher, c, xs, ds);
            DecodeEach(cipher, c, xs + ys, ds + es) ==
              if r.Err? then (c', r)
              else var (c'', s) := DecodeEach(cipher, c', ys, es); (c'', Prepend(r.value, s))
    decreases |xs|
  {
    hide Decoding;
    if xs == [] {
      assert xs + ys == ys && ds + es == es;
      var s := DecodeEach(cipher, c, ys, es).1;
      assert s.Ok? ==> [] + s.value == s.value;
    } else {
      assert (xs + ys)[0] == xs[0] && (xs + ys)[1..] == xs[1..] + ys;
      assert (ds + es)[0] == ds[0] && (ds + es)[1..] == ds[1..] + es;
      var (c', f) := Decoding(cipher, c, ds[0], xs[0].rawBytes);
      if f.Ok? {
        DecodeEachAppend(cipher, c', xs[1..], ys, ds[1..], es);
        var (c'', r) := DecodeEach(cipher, c', xs[1..], ds[1..]);
        if r.Ok? {
          var s := DecodeEach(cipher, c'', ys, es).1;
          assert s.Ok? ==> [f.value] + (r.value + s.value) == [f.value] + r.value + s.value;
        }
      }
    }
  }

  /** The wrong number of directions for a sound stream is refused before any frame is decoded. */
  lemma {:induction false} WrongCount(cipher: Cipher, c: Context, pieces: seq<Octets>, frames: seq<RawBapFrame>,
      dirs: seq<Direction>, max: nat)
    requires Concat(pieces) == RawBytesOf(frames) && (forall f <- frames :: Carved(f, max)) && |dirs| != |frames|
    ensures var (c', _, r) := Directed(cipher, c, [], Reads(pieces), dirs, max);
            c' == c && r == Err(DirectionCountMismatch(|dirs|, |frames|))
  {
    hide Collect, Carved;
    assert RawBytesOf(frames) + [] == RawBytesOf(frames);
    NothingSoundInNothing(max);
    CollectVerdict(pieces, frames, [], max);
  }

  lemma NothingSoundInNothing(max: nat)
    ensures NoSoundFrame([], max)
  {
  }

  lemma {:induction false} RawsJoin(wires: seq<Octets>)
    requires forall w <- wires :: |w| >= HEADER_LEN
    ensures RawBytesOf(RawsOf(wires)) == Concat(wires) && |RawsOf(wires)| == |wires|
  {
    if wires == [] {
    } else {
      RawsJoin(wires[1..]);
      RawBytesCons(RawFrom(wires[0]), RawsOf(wires[1..]));
    }
  }

  lemma {:induction false} RawBytesAppend(xs: seq<RawBapFrame>, ys: seq<RawBapFrame>)
    ensures RawBytesOf(xs + ys) == RawBytesOf(xs) + RawBytesOf(ys)
  {
    if xs == [] {
      assert xs + ys == ys;
    } else {
      assert (xs + ys)[1..] == xs[1..] + ys;
      RawBytesAppend(xs[1..], ys);
    }
  }

  /** A frame that does not authenticate, after messages that do and before any other frames, however
      the stream is cut. The whole run fails with that frame, whose nonce is used up, and no later
      frame is decoded. */
  lemma TamperedFrame(cipher: Cipher, key: Key, nonce: Nonce, ms: seq<Message>, d: Direction, tag: Tag,
      ciphertext: Octets, later: seq<RawBapFrame>, dirs: seq<Direction>, pieces: seq<Octets>)
    requires Lawful(cipher) && (forall m <- ms :: m.Encodable()) && AllFit(ms)
    requires ciphertext != [] && TAG_LEN + |ciphertext| <= MAX_BODY_LEN
    requires (forall f <- later :: Carved(f, MAX_BODY_LEN)) && |dirs| == |later|
    requires var (c, wires) := SendAll(cipher, Fresh(key, nonce), ms);
             && cipher.open(c.key, c.Of(d).nonce, ciphertext, tag).None?
             && Concat(pieces) == Concat(wires) + (EncryptedRaw(tag, ciphertext) + RawBytesOf(later))
    ensures var c := SendAll(cipher, Fresh(key, nonce), ms).0;
            var (c', _, r) := Directed(cipher, Fresh(key, nonce), [], Reads(pieces),
                                       DirectionsOf(ms) + ([d] + dirs), MAX_BODY_LEN);
            c' == Advance(c, d) && r == Err(SessionFailed(DecryptFailed))
  {
    hide Send, Carve, Collect, DecodeEach, RawsOf, Carved, SendAll, EncryptedRaw, Advance, Decoding, AllFit, Concat,
      Message.Encodable, RawBytesOf, NoSoundFrame;
    var start := Fresh(key, nonce);
    var (c, wires) := SendAll(cipher, start, ms);
    var bad := EncryptedRaw(tag, ciphertext);
    SentStreamCarves(cipher, start, ms);
    SentFramesDecode(cipher, start, ms);
    EncryptedIsCarved(tag, ciphertext);
    OpensIff(cipher, c, d, tag, ciphertext);
    var front, tail := RawsOf(wires), [RawFrom(bad)] + later;
    CarveSound(Concat(wires), MAX_BODY_LEN);
    RawsJoin(wires);
    RawBytesCons(RawFrom(bad), later);
    RawBytesAppend(front, tail);
    NothingSoundInNothing(MAX_BODY_LEN);
    assert RawBytesOf(front + tail) + [] == Concat(pieces);
    CollectVerdict(pieces, front + tail, [], MAX_BODY_LEN);
    DecodeEachAppend(cipher, start, front, tail, DirectionsOf(ms), [d] + dirs);
    FirstFails(cipher, c, RawFrom(bad), later, d, dirs);
  }

  lemma EncryptedIsCarved(tag: Tag, ciphertext: Octets)
    requires TAG_LEN + |ciphertext| <= MAX_BODY_LEN
    ensures var bad := EncryptedRaw(tag, ciphertext);
            |bad| >= HEADER_LEN && Carved(RawFrom(bad), MAX_BODY_LEN) && RawFrom(bad).rawBytes == bad
  {
    hide U32Be;
    var bad := EncryptedRaw(tag, ciphertext);
    assert bad[1] == KIND_ENCRYPTED && bad[HEADER_LEN..] == tag + ciphertext;
  }

  lemma FirstFails(cipher: Cipher, c: Context, bad: RawBapFrame, later: seq<RawBapFrame>, d: Direction,
      dirs: seq<Direction>)
    requires |later| == |dirs| && Decoding(cipher, c, d, bad.rawBytes).1.Err?
    ensures var (c', r) := Decoding(cipher, c, d, bad.rawBytes);
            DecodeEach(cipher, c, [bad] + later, [d] + dirs) == (c', Err(SessionFailed(r.error)))
  {
    hide Decoding;
  }

  /** End to end. Messages in any mixture of directions, clear and encrypted, are encoded by a
      session, written to the wire back to back, and cut into pieces in any way. A pipeline with
      the same key and nonce recovers them if and only if every body is within the decoder's
      limit; and then it returns exactly the messages sent, in order, with nothing left in the
      decoder and both nonces and counters where the encoder's are. */
  lemma EndToEnd(cipher: Cipher, key: Key, nonce: Nonce, ms: seq<Message>, pieces: seq<Octets>)
    requires Lawful(cipher) && forall m <- ms :: m.Encodable()
    requires Concat(pieces) == Concat(SendAll(cipher, Fresh(key, nonce), ms).1)
    ensures var (c, ingest, result) :=
              Directed(cipher, Fresh(key, nonce), [], Reads(pieces), DirectionsOf(ms), MAX_BODY_LEN);
            && (result.Ok? <==> AllFit(ms))
            && (result.Ok? ==>
                  && result.value == ReceivedOf(ms)
                  && ingest.buf == [] && ingest.queue == []
                  && c == SendAll(cipher, Fresh(key, nonce), ms).0)
  {
    hide Send, Carve, Collect, PushAll, DecodeEach, RawsOf, Fresh;
    var start := Fresh(key, nonce);
    var wires := SendAll(cipher, start, ms).1;
    assert [] + Concat(pieces) == Concat(wires);
    SentStreamCarves(cipher, start, ms);
    ChunkingIndependence([], pieces, MAX_BODY_LEN);
    CollectIsPushAll([], pieces, MAX_BODY_LEN);
    SentFramesDecode(cipher, start, ms);
  }
}
