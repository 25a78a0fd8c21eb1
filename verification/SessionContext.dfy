/** The crypto state of one session: a key, a base nonce, and an independent nonce and
    saturating 64-bit counter for each direction. */
module SessionContext {
  import opened Bytes
  import opened Aead
  import opened GcmNonce

  datatype SessionContextError = BadKeyLength(length: nat) | BadNonceLength(length: nat)

  const COUNTER_MAX: u64 := 0xFFFF_FFFF_FFFF_FFFF

  /** The value of a session context. */
  datatype DirectionState = DirectionState(nonce: Nonce, counter: u64)
  datatype Context = Context(key: Key, c2s: DirectionState, s2c: DirectionState)
  {
    function Of(d: Direction): DirectionState {
      match d case ClientToServer => c2s case ServerToClient => s2c
    }
  }

  function SaturatingSucc(c: u64): u64 {
    if c == COUNTER_MAX then c else c + 1
  }

  /** min(n, 2^64 - 1) */
  function Saturate(n: nat): u64 {
    if n < COUNTER_MAX then n else COUNTER_MAX
  }

  ghost function Advance(c: Context, d: Direction): Context {
    var was := c.Of(d);
    var now := DirectionState(Increment(was.nonce), SaturatingSucc(was.counter));
    match d
    case ClientToServer => c.(c2s := now)
    case ServerToClient => c.(s2c := now)
  }

  ghost function Fresh(key: Key, session: Nonce): Context {
    Context(key, DirectionState(Base(session, ClientToServer), 0), DirectionState(Base(session, ServerToClient), 0))
  }

  class SessionCryptoContext {
    const sessionKey: Key
    const sessionNonce: Nonce
    const clientToServerNonce: array<byte>
    const serverToClientNonce: array<byte>
    var clientToServerCounter: u64
    var serverToClientCounter: u64
    ghost const Repr: set<object>

    ghost predicate Valid()
      reads this, clientToServerNonce, serverToClientNonce
    {
      && clientToServerNonce.Length == serverToClientNonce.Length == NONCE_LEN
      && clientToServerNonce != serverToClientNonce
      && Repr == {this, clientToServerNonce, serverToClientNonce}
    }

    ghost function Value(): Context
      requires Valid()
      reads this, clientToServerNonce, serverToClientNonce
    {
      Context(sessionKey, DirectionState(clientToServerNonce[..], clientToServerCounter),
              DirectionState(serverToClientNonce[..], serverToClientCounter))
    }

    constructor Seeded(key: Key, nonce: Nonce)
      ensures Valid() && fresh(Repr) && Value() == Fresh(key, nonce)
      ensures sessionKey == key && sessionNonce == nonce
    {
      sessionKey, sessionNonce := key, nonce;
      clientToServerCounter, serverToClientCounter := 0, 0;
      var c2s, s2c: Nonce :=
        InitialDirectionNonce(nonce, ClientToServer).value, InitialDirectionNonce(nonce, ServerToClient).value;
      var a := new byte[NONCE_LEN](i requires 0 <= i < NONCE_LEN => c2s[i]);
      var b := new byte[NONCE_LEN](i requires 0 <= i < NONCE_LEN => s2c[i]);
      clientToServerNonce, serverToClientNonce := a, b;
      Repr := {this, a, b};
      new;
      assert a[..] == c2s && b[..] == s2c;
    }

    /** Rejects a key or a nonce of the wrong length, the key first. */
    static method New(key: Octets, nonce: Octets) returns (r: Result<SessionCryptoContext, SessionContextError>)
      ensures |key| != KEY_LEN ==> r == Err(BadKeyLength(|key|))
      ensures |key| == KEY_LEN && |nonce| != NONCE_LEN ==> r == Err(BadNonceLength(|nonce|))
      ensures |key| == KEY_LEN && |nonce| == NONCE_LEN ==>
                r.Ok? && r.value.Valid() && fresh(r.value.Repr) && r.value.Value() == Fresh(key, nonce)
    {
      if |key| != KEY_LEN {
        return Err(BadKeyLength(|key|));
      }
      if |nonce| != NONCE_LEN {
        return Err(BadNonceLength(|nonce|));
      }
      var c := new SessionCryptoContext.Seeded(key, nonce);
      return Ok(c);
    }

    /** Hands out the direction's current nonce and moves only that direction on. */
    method NextNonce(direction: Direction) returns (nonce: Nonce)
      requires Valid()
      modifies Repr
      ensures Valid()
      ensures nonce == old(Value()).Of(direction).nonce
      ensures Value() == Advance(old(Value()), direction)
    {
      match direction {
        case ClientToServer =>
          nonce := clientToServerNonce[..];
          IncrementNonce(clientToServerNonce);
          clientToServerCounter := SaturatingSucc(clientToServerCounter);
        case ServerToClient =>
          nonce := serverToClientNonce[..];
          IncrementNonce(serverToClientNonce);
          serverToClientCounter := SaturatingSucc(serverToClientCounter);
      }
    }
  }
}
