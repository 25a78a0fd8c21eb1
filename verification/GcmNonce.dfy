/** Per-direction GCM nonces: the direction bases, the in-place increment, and the
    arithmetic that says when two nonces of one session coincide. */
module GcmNonce {
  import opened Bytes
  import opened Aead

  datatype Direction = ServerToClient | ClientToServer

  datatype NonceTransform = Identity | XorLastByte(mask: byte)

  datatype GcmNonceError = BadSessionNonceLength(length: nat)

  /** 2^96, the number of nonces, and 2^88, the weight of the last nonce byte. */
  const NONCES: nat := 0x1_0000_0000_0000_0000_0000_0000
  const TOP_BYTE: nat := 0x1_0000_0000_0000_0000_0000_00

  /** Bitwise exclusive or of the low `bits` bits. */
  function Xor(bits: nat, a: nat, b: nat): (r: nat)
    ensures r < Pow(2, bits)
  {
    if bits == 0 then 0 else 2 * Xor(bits - 1, a / 2, b / 2) + (a + b) % 2
  }

  function Pow(base: nat, e: nat): (r: nat)
    ensures base > 0 ==> r > 0
  {
    if e == 0 then 1 else base * Pow(base, e - 1)
  }

  function XorByte(a: byte, b: byte): byte {
    assert Pow(2, 8) == 256 by { assert Pow(2, 4) == 16; }
    Xor(8, a, b)
  }

  function DefaultTransformFor(direction: Direction): NonceTransform {
    match direction
    case ServerToClient => Identity
    case ClientToServer => XorLastByte(1)
  }

  function ApplyNonceTransform(sessionNonce: Octets, transform: NonceTransform): Result<Nonce, GcmNonceError> {
    if |sessionNonce| != NONCE_LEN then Err(BadSessionNonceLength(|sessionNonce|))
    else match transform
      case Identity => Ok(sessionNonce)
      case XorLastByte(v) => Ok(sessionNonce[NONCE_LEN - 1 := XorByte(sessionNonce[NONCE_LEN - 1], v)])
  }

  function InitialDirectionNonce(sessionNonce: Octets, direction: Direction): Result<Nonce, GcmNonceError> {
    ApplyNonceTransform(sessionNonce, DefaultTransformFor(direction))
  }

  /** The nonce after one use: what the in-place loop below leaves behind. */
  ghost function Increment(n: Octets): (r: Octets)
    ensures |r| == |n|
  {
    if n == [] then [] else if n[0] == 0xFF then [0] + Increment(n[1..]) else [n[0] + 1] + n[1..]
  }

  /** Behind a run of 0xFF bytes, which become zero, the first other byte grows by one and the
      bytes after it stay. */
  lemma {:induction false} IncrementAt(n: Octets, i: nat)
    requires i <= |n| && forall k | 0 <= k < i :: n[k] == 0xFF
    ensures forall k | 0 <= k < i :: Increment(n)[k] == 0
    ensures i < |n| && n[i] != 0xFF ==> Increment(n)[i] == n[i] + 1 && Increment(n)[i + 1..] == n[i + 1..]
  {
    if i == 0 {
    } else {
      IncrementAt(n[1..], i - 1);
      assert forall k | 0 < k < i :: Increment(n)[k] == Increment(n[1..])[k - 1];
      assert i < |n| ==> Increment(n)[i + 1..] == Increment(n[1..])[i..] && n[i + 1..] == n[1..][i..];
    }
  }

  method IncrementNonce(nonce: array<byte>)
    modifies nonce
    ensures nonce[..] == Increment(old(nonce[..]))
  {
    hide Increment;
    ghost var was := nonce[..];
    for i := 0 to nonce.Length
      invariant nonce[i..] == was[i..]
      invariant forall k | 0 <= k < i :: was[k] == 0xFF && nonce[k] == 0
    {
      assert nonce[i] == was[i] && nonce[i + 1..] == was[i + 1..];
      nonce[i] := if nonce[i] == 0xFF then 0 else nonce[i] + 1;
      if nonce[i] != 0 {
        IncrementAt(was, i);
        return;
      }
    }
    IncrementAt(was, |was|);
  }

  /** The little-endian value of a nonce. */
  ghost function LeValue(n: Octets): (v: nat)
    ensures v < Pow(0x100, |n|)
  {
    if n == [] then 0 else n[0] as int + 0x100 * LeValue(n[1..])
  }

  lemma {:induction false} IncrementIsSuccessor(n: Octets)
    ensures LeValue(Increment(n)) == if LeValue(n) + 1 == Pow(0x100, |n|) then 0 else LeValue(n) + 1
  {
    if n == [] {
    } else {
      IncrementIsSuccessor(n[1..]);
      assert Increment(n)[1..] == if n[0] == 0xFF then Increment(n[1..]) else n[1..];
    }
  }

  lemma {:induction false} LeValueInjective(a: Octets, b: Octets)
    requires |a| == |b| && LeValue(a) == LeValue(b)
    ensures a == b
  {
    if a == [] {
    } else {
      assert a[0] as int == LeValue(a) % 0x100 && b[0] as int == LeValue(b) % 0x100;
      LeValueInjective(a[1..], b[1..]);
      assert a == [a[0]] + a[1..] && b == [b[0]] + b[1..];
    }
  }

  lemma TwelveBytes()
    ensures Pow(0x100, 12) == NONCES && Pow(0x100, 11) == TOP_BYTE
  {
    assert Pow(0x100, 3) == 0x100_0000;
    assert Pow(0x100, 6) == 0x1_0000_0000_0000;
    assert Pow(0x100, 9) == 0x1_0000_0000_0000_0000_00;
  }

  /** The nonce after `n` uses of a direction that started at `base`. */
  ghost function NonceAt(base: Nonce, n: nat): Nonce {
    if n == 0 then base else Increment(NonceAt(base, n - 1))
  }

  lemma {:induction false} NonceAtValue(base: Nonce, n: nat)
    ensures LeValue(NonceAt(base, n)) == (LeValue(base) + n) % NONCES
  {
    hide LeValue, Increment, Pow;
    TwelveBytes();
    if n == 0 {
    } else {
      NonceAtValue(base, n - 1);
      IncrementIsSuccessor(NonceAt(base, n - 1));
    }
  }

  ghost function Base(session: Nonce, d: Direction): Nonce {
    InitialDirectionNonce(session, d).value
  }

  /** Distance of a direction's base from the session nonce: a step of one in the top byte. */
  ghost function Offset(session: Nonce, d: Direction): int {
    match d
    case ServerToClient => 0
    case ClientToServer => var step: int := TOP_BYTE; if session[11] % 2 == 0 then step else -step
  }

  lemma {:induction false} XorZero(bits: nat, a: nat)
    requires a < Pow(2, bits)
    ensures Xor(bits, a, 0) == a
  {
    if bits == 0 {
    } else {
      XorZero(bits - 1, a / 2);
    }
  }

  lemma XorOne(a: byte)
    ensures XorByte(a, 1) == if a % 2 == 0 then a + 1 else a - 1
  {
    assert Pow(2, 7) == 128 by { assert Pow(2, 3) == 8; }
    XorZero(7, a / 2);
    assert Xor(8, a, 1) == 2 * Xor(7, a / 2, 0) + (a + 1) % 2;
  }

  /** Changing one byte moves the value by that byte's weight. */
  lemma {:induction false} LeValueUpdate(n: Octets, i: nat, b: byte)
    requires i < |n|
    ensures LeValue(n[i := b]) == LeValue(n) + (b as int - n[i] as int) * Pow(0x100, i)
  {
    var m := n[i := b];
    if i == 0 {
      assert m[1..] == n[1..];
    } else {
      assert m[1..] == n[1..][i - 1 := b];
      LeValueUpdate(n[1..], i - 1, b);
      var d, p := b as int - n[i] as int, Pow(0x100, i - 1);
      assert 0x100 * (d * p) == d * (0x100 * p);
    }
  }

  lemma BaseValue(session: Nonce, d: Direction)
    ensures LeValue(Base(session, d)) == LeValue(session) + Offset(session, d)
  {
    if d == ClientToServer {
      var b := XorByte(session[11], 1);
      XorOne(session[11]);
      LeValueUpdate(session, 11, b);
      TwelveBytes();
    }
  }

  lemma SameRemainder(x: int, y: int)
    ensures x % NONCES == y % NONCES <==> (x - y) % NONCES == 0
  {
  }

  /** Exactly when two uses of one session see the same nonce. */
  lemma NoncesCollideIff(session: Nonce, d: Direction, m: nat, e: Direction, n: nat)
    ensures NonceAt(Base(session, d), m) == NonceAt(Base(session, e), n)
       <==> (Offset(session, d) + m - Offset(session, e) - n) % NONCES == 0
  {
    hide LeValue, Pow, NonceAt, Base;
    BaseValue(session, d);
    BaseValue(session, e);
    NonceAtValue(Base(session, d), m);
    NonceAtValue(Base(session, e), n);
    var x, y := LeValue(session) + Offset(session, d) + m, LeValue(session) + Offset(session, e) + n;
    if x % NONCES == y % NONCES {
      LeValueInjective(NonceAt(Base(session, d), m), NonceAt(Base(session, e), n));
    }
    SameRemainder(x, y);
  }

  /** Uniqueness of initialisation vectors (section 8 of NIST SP 800-38D): while each direction
      has used at most 2^88 nonces, all nonces used in either direction differ. */
  lemma NoncesUnique(session: Nonce, d: Direction, m: nat, e: Direction, n: nat)
    requires m < TOP_BYTE && n < TOP_BYTE && (d, m) != (e, n)
    ensures NonceAt(Base(session, d), m) != NonceAt(Base(session, e), n)
  {
    hide NonceAt, Base;
    NoncesCollideIff(session, d, m, e, n);
  }

  /** The bound is tight for every session nonce: one direction's nonce number 2^88 is the other
      direction's first. */
  lemma NonceReuseAtTheBound(session: Nonce)
    ensures exists d, e: Direction :: d != e && NonceAt(Base(session, d), TOP_BYTE) == NonceAt(Base(session, e), 0)
  {
    hide NonceAt, Base;
    NoncesCollideIff(session, ServerToClient, TOP_BYTE, ClientToServer, 0);
    NoncesCollideIff(session, ClientToServer, TOP_BYTE, ServerToClient, 0);
    var d := if session[11] % 2 == 0 then ServerToClient else ClientToServer;
    var e := if session[11] % 2 == 0 then ClientToServer else ServerToClient;
    assert d != e && NonceAt(Base(session, d), TOP_BYTE) == NonceAt(Base(session, e), 0);
  }
}
