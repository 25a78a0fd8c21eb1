/** The server's deterministic replies. */
module ResponsePolicy {
  import opened Bytes
  import opened MessageCodec
  import opened ProtocolState

  datatype UnknownPolicy = Observe | Reject

  datatype ResponseAction =
    | SendClear(msgId: u16, context: u32, payload: Octets)
    | SendEncrypted(msgId: u16, context: u32, payload: Octets)
    | ObserveOnly
    | RejectMessage
    | NoAction

  const SIM_CONTEXT: u32 := 1
  const MSG_SYN_A: u16 := 0x0A0A
  const MSG_SYN_A_RSP: u16 := 0x0A0B
  const MSG_SYN_B: u16 := 0x0B0B
  const MSG_SYN_B_RSP: u16 := 0x0B0C

  /** The ASCII bytes of "SIM_" and "SYN_RSP_". */
  const SIM: Octets := [0x53, 0x49, 0x4D, 0x5F]
  const SYN_RSP: Octets := [0x53, 0x59, 0x4E, 0x5F, 0x52, 0x53, 0x50, 0x5F]
  const PAYLOAD_1F: Octets := SIM + [0x31, 0x46]
  const PAYLOAD_1A: Octets := SIM + [0x31, 0x41]
  const PAYLOAD_7A: Octets := SIM + [0x37, 0x41]
  const PAYLOAD_FB: Octets := SIM + [0x46, 0x42]
  const PAYLOAD_SYN_A_RSP: Octets := SYN_RSP + [0x41]
  const PAYLOAD_SYN_B_RSP: Octets := SYN_RSP + [0x42]

  datatype ResponsePolicy = ResponsePolicy(unknown: UnknownPolicy, keepaliveReply: bool)
  {
    /** Decides from the state before the transition. */
    function Decide(state: ProtocolState, message: BapMessage): ResponseAction {
      var id := message.Id();
      match state
      case WaitingForServiceHandshake => if id == 0x1E then SendClear(0x1F, SIM_CONTEXT, PAYLOAD_1F) else NoAction
      case ServiceHandshakeComplete | WaitingForSessionLogin =>
        if id == 0x19 then SendClear(0x1A, SIM_CONTEXT, PAYLOAD_1A) else NoAction
      case SessionEstablished => if id == 0x79 then SendEncrypted(0x7A, SIM_CONTEXT, PAYLOAD_7A) else NoAction
      case EncryptedChannelEstablished | Active =>
        if id == 0xFA && keepaliveReply then SendClear(0xFB, message.Context(), PAYLOAD_FB)
        else if id == MSG_SYN_A then SendEncrypted(MSG_SYN_A_RSP, SIM_CONTEXT, PAYLOAD_SYN_A_RSP)
        else if id == MSG_SYN_B then SendEncrypted(MSG_SYN_B_RSP, SIM_CONTEXT, PAYLOAD_SYN_B_RSP)
        else if id == 0x12E || id == 0x12F then ObserveOnly
        else if message.Known? then ObserveOnly
        else if unknown == Reject then RejectMessage
        else ObserveOnly
      case _ => NoAction
    }
  }

  const DEFAULT_POLICY := ResponsePolicy(Observe, true)
}
