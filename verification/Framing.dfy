/** The outer BAP frame: `[0x01][kind][body_len: u32 BE][body]`, with a clear body
    `[msg_id: u16 BE][context: u32 BE][payload]`, an encrypted body `[tag: 16][ciphertext]`,
    and any other kind opaque. */
module Framing {
  import opened Bytes
  import opened Aead

  const BAP_MAGIC: byte := 0x01
  const KIND_CLEAR: byte := 2
  const KIND_ENCRYPTED: byte := 1
  const HEADER_LEN := 6
  const CLEAR_HEADER_LEN := 6
  const U32_LIMIT := 0x1_0000_0000

  datatype FramingError =
    | TruncatedHeader
    | BadMagic(magic: byte)
    | TruncatedBody
    | TruncatedClearBody
    | TruncatedEncryptedTag
    | LengthOverflow

  datatype FrameKind = Encrypted | Clear | Other(value: byte)
  {
    static function FromByte(value: byte): FrameKind {
      if value == KIND_ENCRYPTED then Encrypted else if value == KIND_CLEAR then Clear else Other(value)
    }

    function AsByte(): byte {
      match this case Encrypted => KIND_ENCRYPTED case Clear => KIND_CLEAR case Other(v) => v
    }
  }

  datatype FrameBody =
    | ClearBody(msgId: u16, context: u32, payload: Octets)
    | EncryptedBody(tag: Tag, ciphertext: Octets)
    | OpaqueBody(bytes: Octets)

  datatype BapFrame = BapFrame(kind: FrameKind, body: FrameBody)
  {
    /** The body variant is the one its kind byte announces. The type alone allows others. */
    predicate WellFormed() {
      match kind
      case Clear => body.ClearBody?
      case Encrypted => body.EncryptedBody?
      case Other(v) => body.OpaqueBody? && v != KIND_CLEAR && v != KIND_ENCRYPTED
    }
  }

  function ParseBody(kind: FrameKind, body: Octets): Result<FrameBody, FramingError> {
    match kind
    case Clear =>
      if |body| < CLEAR_HEADER_LEN then Err(TruncatedClearBody)
      else Ok(ClearBody(FromU16Be(body[0..2]), FromU32Be(body[2..6]), body[CLEAR_HEADER_LEN..]))
    case Encrypted =>
      if |body| < TAG_LEN then Err(TruncatedEncryptedTag)
      else Ok(EncryptedBody(body[..TAG_LEN], body[TAG_LEN..]))
    case Other(_) => Ok(OpaqueBody(body))
  }

  /** Parses one frame from the start of `data`; also returns the bytes consumed. */
  function Parse(data: Octets): Result<(BapFrame, nat), FramingError> {
    if |data| < HEADER_LEN then Err(TruncatedHeader)
    else if data[0] != BAP_MAGIC then Err(BadMagic(data[0]))
    else
      var total := HEADER_LEN + FromU32Be(data[2..6]);
      if |data| < total then Err(TruncatedBody)
      else
        var kind := FrameKind.FromByte(data[1]);
        match ParseBody(kind, data[HEADER_LEN..total])
        case Ok(body) => Ok((BapFrame(kind, body), total))
        case Err(e) => Err(e)
  }

  function SerializeBody(body: FrameBody): Octets {
    match body
    case ClearBody(id, context, payload) => U16Be(id) + U32Be(context) + payload
    case EncryptedBody(tag, ciphertext) => tag + ciphertext
    case OpaqueBody(bytes) => bytes
  }

  function Serialize(f: BapFrame): Result<Octets, FramingError> {
    var body := SerializeBody(f.body);
    if |body| >= U32_LIMIT then Err(LengthOverflow)
    else Ok([BAP_MAGIC, f.kind.AsByte()] + U32Be(|body|) + body)
  }

  lemma BodyRoundTrip(kind: FrameKind, bytes: Octets, body: FrameBody)
    requires kind == FrameKind.FromByte(kind.AsByte())
    ensures ParseBody(kind, bytes) == Ok(body) <==> SerializeBody(body) == bytes && BapFrame(kind, body).WellFormed()
  {
    if kind.Clear? && body.ClearBody? {
      var wire := SerializeBody(body);
      BigEndianRoundTrips(body.msgId, body.context, U16Be(body.msgId), U32Be(body.context));
      assert wire[0..2] == U16Be(body.msgId) && wire[2..6] == U32Be(body.context) && wire[6..] == body.payload;
      if |bytes| >= 6 {
        BigEndianRoundTrips(0, 0, bytes[0..2], bytes[2..6]);
        assert bytes == bytes[0..2] + bytes[2..6] + bytes[6..];
      }
    } else if kind.Encrypted? && body.EncryptedBody? {
      var wire := SerializeBody(body);
      assert wire[..TAG_LEN] == body.tag && wire[TAG_LEN..] == body.ciphertext;
      if |bytes| >= TAG_LEN {
        assert bytes == bytes[..TAG_LEN] + bytes[TAG_LEN..];
      }
    }
  }

  /** Parsing and serialising are exact inverses: `data` parses to `f` and `n` consumed bytes
      precisely when `f` is well formed and `data` starts with the `n` bytes `f` serialises to.
      So whatever follows a frame never matters, and no two byte strings are the same frame. */
  lemma ParseExactly(data: Octets, f: BapFrame, n: nat)
    ensures Parse(data) == Ok((f, n)) <==>
            f.WellFormed() && Serialize(f).Ok? && Serialize(f).value <= data && n == |Serialize(f).value|
  {
    if Parse(data) == Ok((f, n)) {
      var body := data[HEADER_LEN..n];
      BigEndianRoundTrips(0, 0, [0, 0], data[2..6]);
      BodyRoundTrip(f.kind, body, f.body);
      assert data[..n] == [BAP_MAGIC, data[1]] + data[2..6] + body;
      assert Serialize(f) == Ok(data[..n]);
    }
    if f.WellFormed() && Serialize(f).Ok? && Serialize(f).value <= data && n == |Serialize(f).value| {
      var body := SerializeBody(f.body);
      var wire := Serialize(f).value;
      assert data[..n] == wire;
      BigEndianRoundTrips(0, |body|, [0, 0], U32Be(|body|));
      assert data[2..6] == wire[2..6] == U32Be(|body|);
      assert data[6..n] == wire[6..] == body;
      assert data[0] == wire[0] && data[1] == wire[1];
      BodyRoundTrip(f.kind, body, f.body);
    }
  }

  /** What a frame looks like on the wire, byte by byte: the magic, the kind, the length of the body in
      network order, and the body. A clear body is id, context and payload; an encrypted one is tag
      and ciphertext. */
  lemma WireLayout(f: BapFrame)
    requires f.WellFormed() && Serialize(f).Ok?
    ensures var w := Serialize(f).value;
            && |w| >= 6 && w[0] == 1 && BigEndian(w[2..6]) == |w| - 6
            && match f.body
               case ClearBody(id, context, payload) =>
                 && w[1] == 2 && |w| >= 12 && BigEndian(w[6..8]) == id && BigEndian(w[8..12]) == context
                 && w[12..] == payload
               case EncryptedBody(tag, ciphertext) => w[1] == 1 && |w| >= 22 && w[6..22] == tag && w[22..] == ciphertext
               case OpaqueBody(bytes) => w[1] != 1 && w[1] != 2 && w[6..] == bytes
  {
    hide U32Be, U16Be, FromU32Be, FromU16Be;
    var w, n := Serialize(f).value, |SerializeBody(f.body)|;
    assert w[2..6] == U32Be(n);
    BigEndianRoundTrips(0, n, [0, 0], U32Be(n));
    NetworkOrder([0, 0], U32Be(n));
    if f.body.ClearBody? {
      var id, context := U16Be(f.body.msgId), U32Be(f.body.context);
      BigEndianRoundTrips(f.body.msgId, f.body.context, id, context);
      NetworkOrder(id, context);
      assert w[6..8] == id && w[8..12] == context;
    }
  }

  /** Why bytes are not a frame, read off the bytes. */
  lemma ParseFailsIff(data: Octets)
    ensures Parse(data) == Err(TruncatedHeader) <==> |data| < 6
    ensures forall b :: Parse(data) == Err(BadMagic(b)) <==> |data| >= 6 && data[0] == b && b != 1
    ensures Parse(data) == Err(TruncatedBody) <==>
              |data| >= 6 && data[0] == 1 && |data| < 6 + BigEndian(data[2..6])
    ensures Parse(data) == Err(TruncatedClearBody) <==>
              && |data| >= 6 && data[0] == 1 && data[1] == 2
              && |data| >= 6 + BigEndian(data[2..6]) && BigEndian(data[2..6]) < 6
    ensures Parse(data) == Err(TruncatedEncryptedTag) <==>
              && |data| >= 6 && data[0] == 1 && data[1] == 1
              && |data| >= 6 + BigEndian(data[2..6]) && BigEndian(data[2..6]) < 16
    ensures Parse(data) != Err(LengthOverflow)
  {
    hide FromU32Be, FromU16Be, BigEndian;
    if |data| >= 6 {
      NetworkOrder([0, 0], data[2..6]);
    }
  }

  /** Frames back to back until the input ends or a byte other than the magic follows. */
  ghost function ParsePrefix(data: Octets): Result<seq<BapFrame>, FramingError>
    decreases |data|
  {
    if data == [] || data[0] != BAP_MAGIC then Ok([])
    else match Parse(data)
      case Err(e) => Err(e)
      case Ok((frame, consumed)) =>
        match ParsePrefix(data[consumed..])
        case Err(e) => Err(e)
        case Ok(rest) => Ok([frame] + rest)
  }

  method ParseAll(data: Octets) returns (r: Result<seq<BapFrame>, FramingError>)
    ensures r == ParsePrefix(data)
  {
    var frames: seq<BapFrame> := [];
    var rest := data;
    assert forall fs: seq<BapFrame> :: frames + fs == fs;
    while rest != []
      invariant ParsePrefix(data) == match ParsePrefix(rest) case Ok(fs) => Ok(frames + fs) case Err(e) => Err(e)
      decreases |rest|
    {
      if rest[0] != BAP_MAGIC {
        break;
      }
      match Parse(rest) {
        case Err(e) => return Err(e);
        case Ok((frame, consumed)) =>
          ghost var tail := ParsePrefix(rest[consumed..]);
          if tail.Ok? {
            assert frames + ([frame] + tail.value) == frames + [frame] + tail.value;
          }
          frames := frames + [frame];
          rest := rest[consumed..];
      }
    }
    assert frames + [] == frames;
    return Ok(frames);
  }

  /** The bytes of one frame, and of a list of frames. */
  ghost function WireOf(frame: BapFrame): Octets {
    match Serialize(frame) case Ok(bytes) => bytes case Err(_) => []
  }

  ghost function Wire(frames: seq<BapFrame>): Octets {
    if frames == [] then [] else WireOf(frames[0]) + Wire(frames[1..])
  }

  ghost predicate Sendable(frames: seq<BapFrame>) {
    forall f <- frames :: f.WellFormed() && Serialize(f).Ok?
  }

  /** Nothing, or a byte that cannot start a frame. */
  ghost predicate NoFrameAhead(tail: Octets) {
    tail == [] || tail[0] != BAP_MAGIC
  }

  lemma SentFrameParsesFirst(frame: BapFrame, others: Octets)
    requires frame.WellFormed() && Serialize(frame).Ok? && ParsePrefix(others).Ok?
    ensures ParsePrefix(WireOf(frame) + others) == Ok([frame] + ParsePrefix(others).value)
  {
    var data, n := WireOf(frame) + others, |WireOf(frame)|;
    ParseExactly(data, frame, n);
    assert data[n..] == others;
  }

  lemma SentFramesParseStep(frames: seq<BapFrame>, tail: Octets)
    requires frames != [] && frames[0].WellFormed() && Serialize(frames[0]).Ok?
    requires ParsePrefix(Wire(frames[1..]) + tail) == Ok(frames[1..])
    ensures ParsePrefix(Wire(frames) + tail) == Ok(frames)
  {
    hide Parse, Serialize, ParsePrefix, WireOf;
    SentFrameParsesFirst(frames[0], Wire(frames[1..]) + tail);
    assert WireOf(frames[0]) + (Wire(frames[1..]) + tail) == Wire(frames) + tail;
    assert [frames[0]] + frames[1..] == frames;
  }

  lemma {:induction false} SentFramesParse(frames: seq<BapFrame>, tail: Octets)
    requires Sendable(frames) && NoFrameAhead(tail)
    ensures ParsePrefix(Wire(frames) + tail) == Ok(frames)
  {
    if frames == [] {
      assert Wire(frames) + tail == tail;
    } else {
      SentFramesParse(frames[1..], tail);
      SentFramesParseStep(frames, tail);
    }
  }

  lemma {:induction false} ParsedFramesWereSent(data: Octets)
    requires ParsePrefix(data).Ok?
    ensures var frames := ParsePrefix(data).value;
            Sendable(frames) && Wire(frames) <= data && NoFrameAhead(data[|Wire(frames)|..])
    decreases |data|
  {
    hide Parse, Serialize;
    if data == [] || data[0] != BAP_MAGIC {
    } else {
      var (frame, n) := Parse(data).value;
      ParseExactly(data, frame, n);
      ParsedFramesWereSent(data[n..]);
      var frames, others := ParsePrefix(data).value, ParsePrefix(data[n..]).value;
      assert frames[1..] == others;
      assert data == WireOf(frame) + data[n..];
      assert data[|Wire(frames)|..] == data[n..][|Wire(others)|..];
    }
  }

  /** A byte string parses to a list of frames precisely when it is their wire form followed by
      nothing or by a byte that cannot start a frame. */
  lemma ParseAllExactly(data: Octets, frames: seq<BapFrame>)
    ensures ParsePrefix(data) == Ok(frames) <==>
            Sendable(frames) && Wire(frames) <= data && NoFrameAhead(data[|Wire(frames)|..])
  {
    if ParsePrefix(data) == Ok(frames) {
      ParsedFramesWereSent(data);
    }
    if Sendable(frames) && Wire(frames) <= data && NoFrameAhead(data[|Wire(frames)|..]) {
      assert data == Wire(frames) + data[|Wire(frames)|..];
      SentFramesParse(frames, data[|Wire(frames)|..]);
    }
  }
}
