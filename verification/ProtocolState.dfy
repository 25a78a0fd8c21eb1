/** The execution states of the local server and the one function that moves between them. */
module ProtocolState {
  import opened Bytes
  import opened GcmNonce
  import opened MessageCodec

  datatype ProtocolState =
    | Connected
    | WaitingForServiceHandshake
    | ServiceHandshakeComplete
    | WaitingForSessionLogin
    | SessionEstablished
    | WaitingForEncryptedHandshake
    | EncryptedChannelEstablished
    | Active
    | Closing
    | Closed

  datatype ProtocolStateError =
    | UnexpectedMessage(id: u16)
    | InvalidDirection(id: u16)
    | InvalidState
    | InvalidMessage(codec: CodecError)
    | HandshakeIncomplete
    | AlreadyClosed
    | InvalidTransition

  datatype TransitionResult =
    | Advanced(from: ProtocolState, to: ProtocolState)
    | Observed(state: ProtocolState)
    | Rejected(reason: ProtocolStateError)

  predicate ExpectedC2s(id: u16) {
    id in {0x1E, 0x19, 0x79, 0x12E, 0xFA, 0x0A, 0x0C}
  }

  predicate ExpectedS2c(id: u16) {
    id in {0x1F, 0x1A, 0x7A, 0x12F, 0xFB, 0x0B, 0x0D}
  }

  /** Ids that take part in the handshake sequence. */
  predicate IsSequencedId(id: u16) {
    id in {0x1E, 0x1F, 0x19, 0x1A, 0x79, 0x7A, 0x12E, 0x12F, 0xFA, 0xFB}
  }

  predicate IsTrafficId(id: u16) {
    id in {0x12E, 0x12F, 0xFA, 0xFB, 0x0A, 0x0B, 0x0C, 0x0D}
  }

  function Transition(state: ProtocolState, message: BapMessage): TransitionResult {
    var id, dir := message.Id(), message.Direction();
    if state == Closed then Rejected(AlreadyClosed)
    else if state == Closing then Rejected(AlreadyClosed)
    else if ExpectedC2s(id) && dir != ClientToServer then Rejected(InvalidDirection(id))
    else if ExpectedS2c(id) && dir != ServerToClient then Rejected(InvalidDirection(id))
    else match state
      case Connected => Rejected(InvalidState)
      case WaitingForServiceHandshake =>
        if id == 0x1E then Advanced(state, ServiceHandshakeComplete)
        else if IsSequencedId(id) then Rejected(UnexpectedMessage(id))
        else Observed(state)
      case ServiceHandshakeComplete | WaitingForSessionLogin =>
        if id == 0x19 then Advanced(state, SessionEstablished)
        else if IsSequencedId(id) then Rejected(UnexpectedMessage(id))
        else Observed(state)
      case SessionEstablished =>
        if id == 0x79 then Advanced(state, WaitingForEncryptedHandshake)
        else if IsSequencedId(id) then Rejected(UnexpectedMessage(id))
        else Observed(state)
      case WaitingForEncryptedHandshake =>
        if IsSequencedId(id) then Rejected(UnexpectedMessage(id))
        else Observed(state)
      case EncryptedChannelEstablished | Active =>
        if IsTrafficId(id) then
          if state == Active then Observed(state) else Advanced(state, Active)
        else Observed(Active)
      case _ => Rejected(UnexpectedMessage(id))
  }

  function BeginWaitingForHandshake(state: ProtocolState): Result<ProtocolState, ProtocolStateError> {
    match state
    case Connected => Ok(WaitingForServiceHandshake)
    case WaitingForServiceHandshake => Ok(state)
    case Closed | Closing => Err(AlreadyClosed)
    case _ => Err(InvalidTransition)
  }

  function CompleteEncryptedHandshake(state: ProtocolState): Result<ProtocolState, ProtocolStateError> {
    match state
    case WaitingForEncryptedHandshake => Ok(EncryptedChannelEstablished)
    case EncryptedChannelEstablished | Active => Ok(state)
    case _ => Err(HandshakeIncomplete)
  }

  function BeginClosing(state: ProtocolState): ProtocolState {
    if state == Closed then Closed else Closing
  }

  function ApplyTransition(result: TransitionResult): Result<ProtocolState, ProtocolStateError> {
    match result
    case Advanced(_, to) => Ok(to)
    case Observed(s) => Ok(s)
    case Rejected(reason) => Err(reason)
  }

  function Rank(state: ProtocolState): nat {
    match state
    case Connected => 0
    case WaitingForServiceHandshake => 1
    case ServiceHandshakeComplete => 2
    case WaitingForSessionLogin => 3
    case SessionEstablished => 4
    case WaitingForEncryptedHandshake => 5
    case EncryptedChannelEstablished => 6
    case Active => 7
    case Closing => 8
    case Closed => 9
  }
}
