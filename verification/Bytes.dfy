/** Bytes, fixed-width unsigned integers and their big-endian wire forms, with the few
    sequence facts that every layer above needs. */
module Bytes {

  type byte = x: int | 0 <= x < 0x100
  type u16 = x: int | 0 <= x < 0x1_0000
  type u32 = x: int | 0 <= x < 0x1_0000_0000
  type u64 = x: int | 0 <= x < 0x1_0000_0000_0000_0000

  type Octets = seq<byte>

  datatype Option<+T> = None | Some(value: T)
  datatype Result<+T, +E> = Ok(value: T) | Err(error: E)

  function U16Be(v: u16): (b: Octets)
    ensures |b| == 2
  {
    [v / 0x100, v % 0x100]
  }

  function U32Be(v: u32): (b: Octets)
    ensures |b| == 4
  {
    [v / 0x100_0000, v / 0x1_0000 % 0x100, v / 0x100 % 0x100, v % 0x100]
  }

  function FromU16Be(b: Octets): u16
    requires |b| == 2
  {
    b[0] as int * 0x100 + b[1] as int
  }

  function FromU32Be(b: Octets): u32
    requires |b| == 4
  {
    ((b[0] as int * 0x100 + b[1] as int) * 0x100 + b[2] as int) * 0x100 + b[3] as int
  }

  /** Decoding a big-endian integer and encoding it again are inverse, both ways. */
  lemma BigEndianRoundTrips(v: u16, w: u32, b: Octets, d: Octets)
    requires |b| == 2 && |d| == 4
    ensures FromU16Be(U16Be(v)) == v
    ensures FromU32Be(U32Be(w)) == w
    ensures U16Be(FromU16Be(b)) == b
    ensures U32Be(FromU32Be(d)) == d
  {
    U32Bytes(w);
    var x := FromU32Be(d);
    assert x / 0x100 == (d[0] as int * 0x100 + d[1] as int) * 0x100 + d[2] as int;
    assert x / 0x1_0000 == d[0] as int * 0x100 + d[1] as int;
    assert x / 0x100_0000 == d[0] as int;
  }

  lemma U32Bytes(w: u32)
    ensures FromU32Be(U32Be(w)) == w
  {
    var q1 := w / 0x100;
    var q2 := w / 0x1_0000;
    var q3 := w / 0x100_0000;
    assert q2 == q1 / 0x100 && q3 == q2 / 0x100;
    assert q2 == q3 * 0x100 + q2 % 0x100 && q3 < 0x100;
  }

  /** The value of bytes in network order: the first is the most significant. */
  ghost function BigEndian(b: Octets): nat {
    if b == [] then 0 else 0x100 * BigEndian(b[..|b| - 1]) + b[|b| - 1]
  }

  /** The fixed-width forms are in network order. */
  lemma NetworkOrder(b: Octets, d: Octets)
    requires |b| == 2 && |d| == 4
    ensures FromU16Be(b) == BigEndian(b) && FromU32Be(d) == BigEndian(d)
  {
    assert b[..1] == [b[0]] && b[..1][..0] == [] && BigEndian(b[..1]) == b[0];
    assert d[..3][..2] == d[..2] && d[..2][..1] == d[..1] && d[..1][..0] == [];
    assert BigEndian(d[..1]) == d[0] as int;
    assert BigEndian(d[..2]) == 0x100 * BigEndian(d[..1]) + d[1] as int;
    assert BigEndian(d[..3]) == 0x100 * BigEndian(d[..2]) + d[2] as int;
  }

  /** The concatenation of a list of pieces. */
  function Concat<T>(pieces: seq<seq<T>>): seq<T> {
    if pieces == [] then [] else pieces[0] + Concat(pieces[1..])
  }

  lemma {:induction false} ConcatAppend<T>(xs: seq<seq<T>>, ys: seq<seq<T>>)
    ensures Concat(xs + ys) == Concat(xs) + Concat(ys)
  {
    if xs == [] {
      assert xs + ys == ys;
    } else {
      assert (xs + ys)[1..] == xs[1..] + ys;
      ConcatAppend(xs[1..], ys);
    }
  }

  lemma ConcatSnoc<T>(xs: seq<seq<T>>, y: seq<T>)
    ensures Concat(xs + [y]) == Concat(xs) + y
  {
    ConcatAppend(xs, [y]);
    assert Concat([y]) == y + Concat([]);
  }

  function Reverse<T>(s: seq<T>): (r: seq<T>)
    ensures |r| == |s|
  {
    if s == [] then [] else Reverse(s[1..]) + [s[0]]
  }

  lemma {:induction false} ReverseAppend<T>(xs: seq<T>, y: T)
    ensures Reverse(xs + [y]) == [y] + Reverse(xs)
  {
    if xs == [] {
      assert xs + [y] == [y];
    } else {
      assert (xs + [y])[1..] == xs[1..] + [y];
      ReverseAppend(xs[1..], y);
    }
  }

  /** A list of results that comes after others. */
  function Prepend<T, E>(xs: seq<T>, rest: Result<seq<T>, E>): Result<seq<T>, E> {
    match rest case Ok(ys) => Ok(xs + ys) case Err(e) => Err(e)
  }

  lemma PrependTwice<T, E>(xs: seq<T>, x: T, rest: Result<seq<T>, E>)
    ensures Prepend(xs, Prepend([x], rest)) == Prepend(xs + [x], rest)
  {
    if rest.Ok? {
      assert xs + ([x] + rest.value) == xs + [x] + rest.value;
    }
  }
}
