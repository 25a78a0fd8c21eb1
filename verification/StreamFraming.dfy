/** Incremental framing of a byte stream: whole frames are carved off a buffer as soon as they
    are complete. */
module StreamFraming {
  import opened Bytes
  import opened Framing

  /** 4 MiB */
  const MAX_BODY_LEN: nat := 0x40_0000

  datatype StreamFramingError =
    | InvalidMagic(magic: byte)
    | InvalidKind(kind: byte)
    | FrameTooLarge(bodyLen: u32)
    | IncompleteAtEnd(buffered: nat)

  datatype RawBapFrame = RawBapFrame(kind: byte, body: Octets, rawBytes: Octets)

  /** What the front of a buffer holds: too little to tell, a header the decoder refuses, or a
      complete frame of some total length. */
  datatype Front = Waiting | Broken(error: StreamFramingError) | Ready(total: nat)

  ghost function FrontOf(buf: Octets, max: nat): (front: Front)
    ensures front.Ready? ==> HEADER_LEN <= front.total <= |buf| && front.total <= HEADER_LEN + max
  {
    if |buf| < HEADER_LEN then Waiting
    else if buf[0] != BAP_MAGIC then Broken(InvalidMagic(buf[0]))
    else if buf[1] != KIND_ENCRYPTED && buf[1] != KIND_CLEAR then Broken(InvalidKind(buf[1]))
    else
      var bodyLen := FromU32Be(buf[2..6]);
      if bodyLen > max then Broken(FrameTooLarge(bodyLen))
      else if |buf| < HEADER_LEN + bodyLen then Waiting
      else Ready(HEADER_LEN + bodyLen)
  }

  function RawFrom(bytes: Octets): RawBapFrame
    requires |bytes| >= HEADER_LEN
  {
    RawBapFrame(bytes[1], bytes[HEADER_LEN..], bytes)
  }

  /** All frames at the front of a buffer, what is left, and the refusal that stopped the carving. */
  datatype Carving = Carving(frames: seq<RawBapFrame>, rest: Octets, error: Option<StreamFramingError>)

  ghost function Carve(buf: Octets, max: nat): Carving
    decreases |buf|
  {
    match FrontOf(buf, max)
    case Waiting => Carving([], buf, None)
    case Broken(e) => Carving([], buf, Some(e))
    case Ready(n) =>
      var c := Carve(buf[n..], max);
      c.(frames := [RawFrom(buf[..n])] + c.frames)
  }

  /** The buffer of a decoder between two successful calls: no frame is left in it. */
  ghost predicate Settled(buf: Octets, max: nat) {
    FrontOf(buf, max) == Waiting
  }

  class BapStreamDecoder {
    var buf: Octets
    const maxBodyLen: nat

    constructor WithMaxBodyLen(max: nat)
      ensures buf == [] && maxBodyLen == max
    {
      buf, maxBodyLen := [], max;
    }

    constructor ()
      ensures buf == [] && maxBodyLen == MAX_BODY_LEN
    {
      buf, maxBodyLen := [], MAX_BODY_LEN;
    }

    /** On a refused header the frames carved earlier in the same call are lost, and the buffer
        keeps the header: the decoder stays stuck. */
    method Push(bytes: Octets) returns (r: Result<seq<RawBapFrame>, StreamFramingError>)
      modifies this
      ensures var c := Carve(old(buf) + bytes, maxBodyLen);
              buf == c.rest && r == if c.error.Some? then Err(c.error.value) else Ok(c.frames)
    {
      assert bytes == [] ==> buf + bytes == buf;
      if bytes != [] {
        buf := buf + bytes;
      }
      r := DrainComplete();
    }

    /** The end of the stream: the buffer must be empty. */
    method Finish() returns (r: Result<(), StreamFramingError>)
      ensures r == if buf == [] then Ok(()) else Err(IncompleteAtEnd(|buf|))
    {
      if buf == [] {
        return Ok(());
      }
      return Err(IncompleteAtEnd(|buf|));
    }

    method DrainComplete() returns (r: Result<seq<RawBapFrame>, StreamFramingError>)
      modifies this
      ensures var c := Carve(old(buf), maxBodyLen);
              buf == c.rest && r == if c.error.Some? then Err(c.error.value) else Ok(c.frames)
    {
      var out: seq<RawBapFrame> := [];
      while true
        invariant var whole, c := Carve(old(buf), maxBodyLen), Carve(buf, maxBodyLen);
                  whole == c.(frames := out + c.frames)
        decreases |buf|
      {
        if |buf| < HEADER_LEN {
          break;
        }
        var magic := buf[0];
        if magic != BAP_MAGIC {
          return Err(InvalidMagic(magic));
        }
        var kind := buf[1];
        if kind != KIND_ENCRYPTED && kind != KIND_CLEAR {
          return Err(InvalidKind(kind));
        }
        var bodyLen := FromU32Be(buf[2..6]);
        if bodyLen > maxBodyLen {
          return Err(FrameTooLarge(bodyLen));
        }
        var total := HEADER_LEN + bodyLen;
        if |buf| < total {
          break;
        }
        var rawBytes := buf[..total];
        ghost var later := Carve(buf[total..], maxBodyLen).frames;
        assert out + ([RawFrom(rawBytes)] + later) == out + [RawFrom(rawBytes)] + later;
        buf := buf[total..];
        out := out + [RawBapFrame(kind, rawBytes[HEADER_LEN..], rawBytes)];
      }
      assert out + [] == out;
      return Ok(out);
    }
  }

  /** More bytes never change a front that is already decided. */
  lemma FrontStable(buf: Octets, more: Octets, max: nat)
    ensures FrontOf(buf, max) != Waiting ==> FrontOf(buf + more, max) == FrontOf(buf, max)
  {
    if |buf| >= HEADER_LEN {
      assert (buf + more)[2..6] == buf[2..6];
    }
  }

  /** Carving a longer buffer is carving the shorter one and going on with what it left. */
  lemma {:induction false} CarveAppend(buf: Octets, more: Octets, max: nat)
    ensures var c := Carve(buf, max);
            var d := Carve(c.rest + more, max);
            Carve(buf + more, max) ==
              if c.error.Some? then c.(rest := c.rest + more) else d.(frames := c.frames + d.frames)
    decreases |buf|
  {
    FrontStable(buf, more, max);
    match FrontOf(buf, max) {
      case Waiting =>
      case Broken(e) =>
      case Ready(n) =>
        assert (buf + more)[..n] == buf[..n] && (buf + more)[n..] == buf[n..] + more;
        CarveAppend(buf[n..], more, max);
        var c := Carve(buf[n..], max);
        var d := Carve(c.rest + more, max);
        var head := [RawFrom(buf[..n])];
        assert head + (c.frames + d.frames) == head + c.frames + d.frames;
    }
  }

  ghost function RawBytesOf(frames: seq<RawBapFrame>): Octets {
    if frames == [] then [] else frames[0].rawBytes + RawBytesOf(frames[1..])
  }

  /** A frame the decoder emits: header and body fit together and the body is within bounds. */
  ghost predicate Carved(f: RawBapFrame, max: nat) {
    && (f.kind == KIND_ENCRYPTED || f.kind == KIND_CLEAR)
    && |f.body| <= max && |f.body| < U32_LIMIT
    && f.rawBytes == [BAP_MAGIC, f.kind] + U32Be(|f.body|) + f.body
  }

  lemma CarvedFront(f: RawBapFrame, more: Octets, max: nat)
    requires Carved(f, max)
    ensures FrontOf(f.rawBytes + more, max) == Ready(|f.rawBytes|)
    ensures RawFrom(f.rawBytes) == f
    ensures (f.rawBytes + more)[..|f.rawBytes|] == f.rawBytes && (f.rawBytes + more)[|f.rawBytes|..] == more
  {
    BigEndianRoundTrips(0, |f.body|, [0, 0], U32Be(|f.body|));
    assert (f.rawBytes + more)[2..6] == U32Be(|f.body|);
  }

  lemma CarveFirst(f: RawBapFrame, more: Octets, max: nat)
    requires Carved(f, max)
    ensures var c := Carve(more, max); Carve(f.rawBytes + more, max) == c.(frames := [f] + c.frames)
  {
    CarvedFront(f, more, max);
  }

  lemma FrontCarved(buf: Octets, max: nat)
    requires FrontOf(buf, max).Ready?
    ensures Carved(RawFrom(buf[..FrontOf(buf, max).total]), max)
  {
    var n := FrontOf(buf, max).total;
    BigEndianRoundTrips(0, 0, [0, 0], buf[2..6]);
    assert buf[..n] == [BAP_MAGIC, buf[1]] + buf[2..6] + buf[6..n];
  }

  lemma {:induction false} CarveConserves(buf: Octets, max: nat)
    ensures RawBytesOf(Carve(buf, max).frames) + Carve(buf, max).rest == buf
    decreases |buf|
  {
    hide FrontOf, RawBytesOf, Carve;
    var front := FrontOf(buf, max);
    CarveUnfolds(buf, max);
    if !front.Ready? {
      assert RawBytesOf([]) + buf == buf by { NoRawBytes(); }
    } else {
      var head, tail := buf[..front.total], buf[front.total..];
      var d := Carve(tail, max);
      CarveConserves(tail, max);
      RawBytesCons(RawFrom(head), d.frames);
      JoinedUp(head, RawBytesOf(d.frames), d.rest);
      assert head + tail == buf;
    }
  }

  lemma CarveUnfolds(buf: Octets, max: nat)
    ensures var front := FrontOf(buf, max);
            if !front.Ready? then Carve(buf, max).frames == [] && Carve(buf, max).rest == buf
            else
              var d := Carve(buf[front.total..], max);
              Carve(buf, max) == d.(frames := [RawFrom(buf[..front.total])] + d.frames)
  {
    hide FrontOf;
  }

  lemma JoinedUp(a: Octets, b: Octets, c: Octets)
    ensures a + b + c == a + (b + c)
  {
  }

  lemma NoRawBytes()
    ensures RawBytesOf([]) == []
  {
  }

  lemma RawBytesCons(f: RawBapFrame, frames: seq<RawBapFrame>)
    ensures RawBytesOf([f] + frames) == f.rawBytes + RawBytesOf(frames)
  {
    assert ([f] + frames)[1..] == frames;
  }

  lemma {:induction false} CarveStops(buf: Octets, max: nat)
    ensures var c := Carve(buf, max);
            && FrontOf(c.rest, max) == (if c.error.Some? then Broken(c.error.value) else Waiting)
            && HEADER_LEN * |c.frames| <= |buf| - |c.rest|
    decreases |buf|
  {
    hide FrontOf;
    var front := FrontOf(buf, max);
    if !front.Ready? {
    } else {
      CarveStops(buf[front.total..], max);
    }
  }

  lemma {:induction false} CarvedAll(buf: Octets, max: nat)
    ensures forall f <- Carve(buf, max).frames :: Carved(f, max)
    decreases |buf|
  {
    var front := FrontOf(buf, max);
    if !front.Ready? {
    } else {
      FrontCarved(buf, max);
      CarvedAll(buf[front.total..], max);
    }
  }

  /** Nothing is lost or invented: emitted bytes plus what is left are the bytes taken in; every
      emitted frame is a sound one; and carving stops only where no sound frame is in front. */
  lemma CarveSound(buf: Octets, max: nat)
    ensures var c := Carve(buf, max);
            && RawBytesOf(c.frames) + c.rest == buf
            && (forall f <- c.frames :: Carved(f, max))
            && FrontOf(c.rest, max) == (if c.error.Some? then Broken(c.error.value) else Waiting)
            && HEADER_LEN * |c.frames| <= |buf| - |c.rest|
  {
    CarveConserves(buf, max);
    CarveStops(buf, max);
    CarvedAll(buf, max);
  }

  /** The converse: any way of writing a buffer as sound frames followed by a rest without a frame
      in front is the carving, so the carving is determined by the bytes alone. */
  lemma {:induction false} CarveComplete(frames: seq<RawBapFrame>, rest: Octets, max: nat)
    requires forall f <- frames :: Carved(f, max)
    requires !FrontOf(rest, max).Ready?
    ensures var front := FrontOf(rest, max);
            Carve(RawBytesOf(frames) + rest, max) ==
            Carving(frames, rest, if front.Broken? then Some(front.error) else None)
  {
    if frames == [] {
      assert RawBytesOf(frames) + rest == rest;
    } else {
      var tail := RawBytesOf(frames[1..]) + rest;
      assert RawBytesOf(frames) + rest == frames[0].rawBytes + tail;
      CarvedFront(frames[0], tail, max);
      CarveComplete(frames[1..], rest, max);
      assert [frames[0]] + frames[1..] == frames;
    }
  }

  /** No sound frame starts these bytes. */
  ghost predicate NoSoundFrame(rest: Octets, max: nat) {
    forall f | Carved(f, max) :: !(f.rawBytes <= rest)
  }

  lemma NoSoundFrameMeans(rest: Octets, max: nat)
    ensures NoSoundFrame(rest, max) <==> !FrontOf(rest, max).Ready?
  {
    hide FrontOf, Carved;
    var front := FrontOf(rest, max);
    if front.Ready? {
      FrontCarved(rest, max);
      var f := RawFrom(rest[..front.total]);
      assert Carved(f, max) && f.rawBytes <= rest;
    } else {
      forall f | Carved(f, max) ensures !(f.rawBytes <= rest) {
        if f.rawBytes <= rest {
          SoundFrameIsReady(f, rest, max);
        }
      }
    }
  }

  lemma SoundFrameIsReady(f: RawBapFrame, buf: Octets, max: nat)
    requires Carved(f, max) && f.rawBytes <= buf
    ensures FrontOf(buf, max).Ready?
  {
    CarvedFront(f, buf[|f.rawBytes|..], max);
    assert f.rawBytes + buf[|f.rawBytes|..] == buf;
  }

  /** The verdict on a buffer, read off its bytes: sound frames, and a rest with none in front. The
      frames are carved whatever follows, and the rest stays. It is refused as soon as its first six
      bytes are there and are no header the decoder takes, however short it is; and for the first
      thing wrong with them: magic, kind, or announced length. */
  lemma CarveVerdict(frames: seq<RawBapFrame>, rest: Octets, max: nat)
    requires (forall f <- frames :: Carved(f, max)) && NoSoundFrame(rest, max)
    ensures var c := Carve(RawBytesOf(frames) + rest, max);
            && c.frames == frames && c.rest == rest
            && (forall b :: c.error == Some(InvalidMagic(b)) <==> |rest| >= 6 && rest[0] == b && b != 1)
            && (forall b :: c.error == Some(InvalidKind(b)) <==>
                  |rest| >= 6 && rest[0] == 1 && rest[1] == b && b != 1 && b != 2)
            && (forall n: u32 :: c.error == Some(FrameTooLarge(n)) <==>
                  && |rest| >= 6 && rest[0] == 1 && (rest[1] == 1 || rest[1] == 2)
                  && BigEndian(rest[2..6]) == n && n > max)
            && (c.error.Some? ==> !c.error.value.IncompleteAtEnd?)
  {
    hide Carve, NoSoundFrame, FromU32Be, BigEndian;
    NoSoundFrameMeans(rest, max);
    CarveComplete(frames, rest, max);
    if |rest| >= 6 {
      NetworkOrder([0, 0], rest[2..6]);
    }
  }

  /** Some error stopped the carving if and only if there is a header that the decoder does not take. */
  lemma HeaderRefusedIff(frames: seq<RawBapFrame>, rest: Octets, max: nat)
    requires (forall f <- frames :: Carved(f, max)) && NoSoundFrame(rest, max)
    ensures Carve(RawBytesOf(frames) + rest, max).error.None? <==>
              |rest| < 6 || (rest[0] == 1 && (rest[1] == 1 || rest[1] == 2) && BigEndian(rest[2..6]) <= max)
  {
    hide Carve, NoSoundFrame, Carved, BigEndian;
    CarveVerdict(frames, rest, max);
    var e := Carve(RawBytesOf(frames) + rest, max).error;
    if |rest| >= 6 {
      LengthField(rest[2..6]);
      var n: u32 := BigEndian(rest[2..6]);
      assert e == Some(FrameTooLarge(n)) <==> rest[0] == 1 && (rest[1] == 1 || rest[1] == 2) && n > max;
      assert e == Some(InvalidKind(rest[1])) <==> rest[0] == 1 && rest[1] != 1 && rest[1] != 2;
      assert e == Some(InvalidMagic(rest[0])) <==> rest[0] != 1;
    }
    if e.Some? {
      match e.value {
        case InvalidMagic(b) =>
        case InvalidKind(b) =>
        case FrameTooLarge(n) =>
        case IncompleteAtEnd(n) =>
      }
    }
  }

  lemma LengthField(b: Octets)
    requires |b| == 4
    ensures BigEndian(b) < U32_LIMIT
  {
    hide BigEndian;
    NetworkOrder([0, 0], b);
  }

  /** Every buffer is such a list of frames and a rest, in one way. */
  lemma EveryBufferSplits(buf: Octets, max: nat) returns (frames: seq<RawBapFrame>, rest: Octets)
    ensures buf == RawBytesOf(frames) + rest
    ensures (forall f <- frames :: Carved(f, max)) && NoSoundFrame(rest, max)
  {
    hide Carve, NoSoundFrame, Carved, FrontOf;
    CarveSound(buf, max);
    frames, rest := Carve(buf, max).frames, Carve(buf, max).rest;
    NoSoundFrameMeans(rest, max);
  }

  /** Pushing pieces one after the other: frames of the calls that succeeded, the final buffer,
      and the error of the call that failed, if one did. */
  ghost function PushAll(buf: Octets, pieces: seq<Octets>, max: nat): Carving
    decreases |pieces|
  {
    if pieces == [] then Carving([], buf, None)
    else
      var c := Carve(buf + pieces[0], max);
      if c.error.Some? then c.(frames := [])
      else
        var d := PushAll(c.rest, pieces[1..], max);
        d.(frames := c.frames + d.frames)
  }

  /** How a stream is cut does not matter. If the whole stream is sound, every cutting yields the
      frames and buffer of one single push; otherwise every cutting fails with the error of the
      single push, having returned some of the frames that precede the bad header, in order. */
  lemma {:induction false} ChunkingIndependence(buf: Octets, pieces: seq<Octets>, max: nat)
    requires Settled(buf, max)
    ensures var whole, cut := Carve(buf + Concat(pieces), max), PushAll(buf, pieces, max);
            && cut.error == whole.error
            && (whole.error.None? ==> cut == whole)
            && (whole.error.Some? ==> cut.frames <= whole.frames)
    decreases |pieces|
  {
    if pieces == [] {
      assert buf + Concat(pieces) == buf;
    } else {
      var c := Carve(buf + pieces[0], max);
      assert buf + Concat(pieces) == buf + pieces[0] + Concat(pieces[1..]);
      CarveAppend(buf + pieces[0], Concat(pieces[1..]), max);
      CarveSound(buf + pieces[0], max);
      if c.error.None? {
        ChunkingIndependence(c.rest, pieces[1..], max);
      }
    }
  }

  /** Between successful calls fewer than a header and a largest body are buffered. */
  lemma SettledBound(buf: Octets, max: nat)
    requires Settled(buf, max)
    ensures |buf| <= max + HEADER_LEN - 1
  {
  }

  /** A piece of n bytes completes at most one frame begun earlier, and any further frame needs a
      header of its own. */
  lemma FramesPerPush(buf: Octets, piece: Octets, max: nat)
    requires Settled(buf, max)
    ensures var k := |Carve(buf + piece, max).frames|;
            k > 0 ==> HEADER_LEN * (k - 1) + 1 <= |piece|
  {
    var all := buf + piece;
    var front := FrontOf(all, max);
    if front.Ready? {
      if HEADER_LEN <= |buf| {
        assert all[2..6] == buf[2..6];
      }
      assert front.total > |buf|;
      CarveStops(all[front.total..], max);
    }
  }
}
