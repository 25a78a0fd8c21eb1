/** The server side of one connection: protocol state, session, reply policy and event log. */
module StatefulSession {
  import opened Bytes
  import opened Aead
  import opened GcmNonce
  import opened SessionContext
  import opened Session
  import opened MessageCodec
  import opened ProtocolState
  import opened ResponsePolicy

  datatype ProtocolEvent =
    | ConnectedEvent(connectionId: u64)
    | MessageReceived(id: u16, direction: Direction)
    | MessageDecoded(id: u16, known: bool)
    | StateTransition(from: ProtocolState, to: ProtocolState)
    | MessageRejected(id: u16, reason: ProtocolStateError)
    | ResponseSent(id: u16)
    | SessionClosed

  datatype HandleResult = HandleResult(transition: TransitionResult, actions: seq<ResponseAction>, message: BapMessage)

  /** The value of a stateful session. */
  datatype Server = Server(state: ProtocolState, crypto: Context, policy: ResponsePolicy, events: seq<ProtocolEvent>)

  ghost function Started(connectionId: u64, key: Key, nonce: Nonce): Server {
    Server(WaitingForServiceHandshake, Fresh(key, nonce), DEFAULT_POLICY, [ConnectedEvent(connectionId)])
  }

  ghost function WithState(s: Server, to: ProtocolState): Server {
    if s.state == to then s else s.(state := to, events := s.events + [StateTransition(s.state, to)])
  }

  ghost function Noted(s: Server, m: BapMessage): Server {
    s.(events := s.events + [MessageReceived(m.Id(), m.Direction()), MessageDecoded(m.Id(), m.Known?)])
  }

  /** The session after an accepted message, before the reply is logged. */
  ghost function Accepted(s: Server, m: BapMessage, to: ProtocolState): Server {
    var moved := WithState(Noted(s, m), to);
    if s.state == SessionEstablished && m.Id() == 0x79 then WithState(moved, EncryptedChannelEstablished) else moved
  }

  ghost function Replied(s: Server, action: ResponseAction): Server {
    match action
    case SendClear(id, _, _) => s.(events := s.events + [ResponseSent(id)])
    case SendEncrypted(id, _, _) => s.(events := s.events + [ResponseSent(id)])
    case _ => s
  }

  ghost function Handled(s: Server, m: BapMessage): (Server, Result<HandleResult, ProtocolStateError>) {
    var tr, action := Transition(s.state, m), s.policy.Decide(s.state, m);
    match ApplyTransition(tr)
    case Err(reason) =>
      (Noted(s, m).(events := Noted(s, m).events + [MessageRejected(m.Id(), reason)]),
       Ok(HandleResult(tr, [NoAction], m)))
    case Ok(to) =>
      var s' := Accepted(s, m, to);
      if action == RejectMessage then (s', Err(UnexpectedMessage(m.Id())))
      else (Replied(s', action), Ok(HandleResult(tr, [action], m)))
  }

  ghost function ClosingBegun(s: Server): Server { WithState(s, BeginClosing(s.state)) }

  ghost function ClosingFinished(s: Server): Server {
    var closed := WithState(s, Closed);
    closed.(events := closed.events + [SessionClosed])
  }

  class StatefulBapSession {
    const connectionId: u64
    var protocolState: ProtocolState
    const session: BapSession
    var policy: ResponsePolicy
    var events: seq<ProtocolEvent>

    ghost predicate Valid()
      reads session.Repr
    {
      session.Valid() && this !in session.Repr
    }

    ghost function Value(): Server
      requires Valid()
      reads this, session.Repr
    {
      Server(protocolState, session.Value(), policy, events)
    }

    constructor OverSession(connectionId: u64, session: BapSession)
      requires session.Valid()
      ensures Valid() && this.connectionId == connectionId && this.session == session
      ensures Value() == Server(WaitingForServiceHandshake, session.Value(), DEFAULT_POLICY,
          [ConnectedEvent(connectionId)])
    {
      this.connectionId, this.session := connectionId, session;
      policy := DEFAULT_POLICY;
      events := [ConnectedEvent(connectionId)];
      var begun := BeginWaitingForHandshake(Connected);
      protocolState := if begun.Ok? then begun.value else WaitingForServiceHandshake;
    }

    static method WithMaterial(cipher: Cipher, connectionId: u64, key: Key, nonce: Nonce)
      returns (r: Result<StatefulBapSession, BapSessionError>)
      requires Lawful(cipher)
      ensures && r.Ok? && r.value.Valid() && fresh(r.value) && fresh(r.value.session.Repr)
              && r.value.session.cipher == cipher && r.value.connectionId == connectionId
              && r.value.Value() == Started(connectionId, key, nonce)
    {
      var session := BapSession.New(cipher, key, nonce);
      var s := new StatefulBapSession.OverSession(connectionId, session.value);
      return Ok(s);
    }

    method SetState(to: ProtocolState)
      requires Valid()
      modifies this
      ensures Valid() && Value() == WithState(old(Value()), to)
    {
      var from := protocolState;
      if from != to {
        events := events + [StateTransition(from, to)];
        protocolState := to;
      }
    }

    method SetUnknownPolicy(p: UnknownPolicy)
      requires Valid()
      modifies this
      ensures Valid() && Value() == old(Value()).(policy := old(policy).(unknown := p))
    {
      policy := policy.(unknown := p);
    }

    method HandleDecodedFrame(frame: DecodedBapFrame, direction: Direction)
      returns (r: Result<HandleResult, ProtocolStateError>)
      requires Valid()
      modifies this
      ensures Valid()
      ensures match DecodeFromFrame(frame, direction)
              case Err(e) => Value() == old(Value()) && r == Err(InvalidMessage(e))
              case Ok(m) => (Value(), r) == Handled(old(Value()), m)
    {
      match DecodeFromFrame(frame, direction) {
        case Err(e) => return Err(InvalidMessage(e));
        case Ok(m) => r := HandleMessage(m);
      }
    }

    /** The reply is chosen from the state before the transition; a message the reply policy
        refuses has moved the state all the same. */
    method HandleMessage(message: BapMessage) returns (r: Result<HandleResult, ProtocolStateError>)
      requires Valid()
      modifies this
      ensures Valid() && (Value(), r) == Handled(old(Value()), message)
    {
      var id := message.Id();
      events := events + [MessageReceived(id, message.Direction())];
      events := events + [MessageDecoded(id, message.Known?)];
      assert Value() == Noted(old(Value()), message);
      var stateBefore := protocolState;
      var tr := Transition(stateBefore, message);
      var action := policy.Decide(stateBefore, message);
      if tr.Rejected? {
        events := events + [MessageRejected(id, tr.reason)];
        return Ok(HandleResult(tr, [NoAction], message));
      }
      var newState := ApplyTransition(tr);
      SetState(newState.value);
      if stateBefore == SessionEstablished && id == 0x79 {
        var next := CompleteEncryptedHandshake(protocolState);
        SetState(next.value);
      }
      if action == RejectMessage {
        return Err(UnexpectedMessage(id));
      }
      if action.SendClear? || action.SendEncrypted? {
        events := events + [ResponseSent(action.msgId)];
      }
      return Ok(HandleResult(tr, [action], message));
    }

    method BeginClose()
      requires Valid()
      modifies this
      ensures Valid() && Value() == ClosingBegun(old(Value()))
    {
      SetState(BeginClosing(protocolState));
    }

    method FinishClose()
      requires Valid()
      modifies this
      ensures Valid() && Value() == ClosingFinished(old(Value()))
    {
      SetState(Closed);
      events := events + [SessionClosed];
    }
  }

  /** The only failure of message handling, and the one action of every success: a short reply, or
      nothing to send. */
  lemma HandledShape(s: Server, m: BapMessage)
    ensures match Handled(s, m).1
            case Err(e) => e == UnexpectedMessage(m.Id())
            case Ok(h) =>
              && |h.actions| == 1
              && (h.actions[0].SendClear? || h.actions[0].SendEncrypted? ==> |h.actions[0].payload| <= 9)
              && !h.actions[0].RejectMessage? && h.message == m
  {
  }

  /** The states an open server rests in, by the number of handshake requests behind it; in the
      last one it has also seen traffic on the encrypted channel. */
  const STAGES: seq<ProtocolState> :=
    [WaitingForServiceHandshake, ServiceHandshakeComplete, SessionEstablished, EncryptedChannelEstablished, Active]
  const HANDSHAKE_REQUESTS: seq<u16> := [0x1E, 0x19, 0x79]
  const HANDSHAKE_REPLIES: seq<u16> := [0x1F, 0x1A, 0x7A]

  /** The ids a server with an encrypted channel answers. */
  ghost predicate Answers(s: Server, id: u16) {
    id == MSG_SYN_A || id == MSG_SYN_B || (id == 0xFA && s.policy.keepaliveReply)
  }

  /** What an open server makes of a message, and why. In every open state, a request from the server and a reply
      from the client have the wrong direction. Before the encrypted channel, each of the ten
      handshake and traffic ids but the next request is unexpected. Nothing else is rejected; the next
      request advances, as does the first traffic on the channel, and the rest is observed. */
  lemma TransitionLaw(state: ProtocolState, m: BapMessage, n: nat)
    requires n < |STAGES| && state == STAGES[n]
    ensures var t, id := Transition(state, m), m.Id();
            var wrongWay :=
              if m.Direction() == ServerToClient then id in {0x1E, 0x19, 0x79, 0x12E, 0xFA, 0x0A, 0x0C}
              else id in {0x1F, 0x1A, 0x7A, 0x12F, 0xFB, 0x0B, 0x0D};
            var tooEarly := n < 3 && id in {0x1E, 0x1F, 0x19, 0x1A, 0x79, 0x7A, 0x12E, 0x12F, 0xFA, 0xFB}
                            && id != [0x1E, 0x19, 0x79][n];
            && (t == Rejected(InvalidDirection(id)) <==> wrongWay)
            && (t == Rejected(UnexpectedMessage(id)) <==> !wrongWay && tooEarly)
            && (t.Rejected? <==> wrongWay || tooEarly)
            && (!t.Rejected? ==>
                  t == if n == 0 && id == 0x1E then Advanced(WaitingForServiceHandshake, ServiceHandshakeComplete)
                       else if n == 1 && id == 0x19 then Advanced(ServiceHandshakeComplete, SessionEstablished)
                       else if n == 2 && id == 0x79 then Advanced(SessionEstablished, WaitingForEncryptedHandshake)
                       else if n < 3 then Observed(STAGES[n])
                       else if n == 3 && id in {0x12E, 0x12F, 0xFA, 0xFB, 0x0A, 0x0B, 0x0C, 0x0D} then
                         Advanced(EncryptedChannelEstablished, Active)
                       else Observed(Active))
  {
  }

  /** In no other state than the five an open server rests in is there anything to accept, but that a
      server waiting for the login takes 0x19. */
  lemma TransientStates(m: BapMessage)
    ensures var t := Transition(Connected, m); t.Rejected?
    ensures Transition(WaitingForSessionLogin, m).Rejected? <==> Transition(ServiceHandshakeComplete, m).Rejected?
    ensures Transition(WaitingForSessionLogin, m).Advanced? <==> m.Id() == 0x19 && m.Direction() == ClientToServer
    ensures !Transition(WaitingForEncryptedHandshake, m).Advanced?
    ensures Transition(WaitingForEncryptedHandshake, m).Rejected? <==>
              || m.Id() in {0x1E, 0x1F, 0x19, 0x1A, 0x79, 0x7A, 0x12E, 0x12F, 0xFA, 0xFB}
              || (m.Id() in {0x0A, 0x0C} && m.Direction() == ServerToClient)
              || (m.Id() in {0x0B, 0x0D} && m.Direction() == ClientToServer)
    ensures Transition(Closing, m) == Transition(Closed, m) == Rejected(AlreadyClosed)
  {
  }

  /** An open server is a counter of stages. What it rejects changes no more than its log. The next
      request moves on one stage and earns the reply of that stage, encrypted at the last. With the
      channel up everything else is accepted and makes the server Active, whether answered or not.
      Handling never touches nonces or policy. */
  lemma OpenServerIsACounter(s: Server, m: BapMessage, n: nat)
    requires n < |STAGES| && s.state == STAGES[n]
    ensures var (s', r) := Handled(s, m);
            var id := m.Id();
            var rejected := Transition(s.state, m).Rejected?;
            var request := n < 3 && id == [0x1E, 0x19, 0x79][n];
            && s'.crypto == s.crypto && s'.policy == s.policy
            && (rejected <==> r.Ok? && r.value.transition.Rejected?)
            && s'.state == (if rejected then s.state
                            else if request then STAGES[n + 1] else if n < 3 then STAGES[n] else Active)
            && (r.Err? <==> !rejected && n >= 3 && s.policy.unknown == Reject && m.Unknown? && !Answers(s, id)
                            && id != 0x12E && id != 0x12F)
            && (r.Err? ==> r == Err(UnexpectedMessage(id)))
            && (r.Ok? && rejected ==> r.value == HandleResult(Transition(s.state, m), [NoAction], m))
            && (r.Ok? && !rejected ==>
                  r.value.message == m && r.value.transition == Transition(s.state, m) && r.value.actions ==
                    if request && n == 0 then [SendClear(0x1F, SIM_CONTEXT, PAYLOAD_1F)]
                    else if request && n == 1 then [SendClear(0x1A, SIM_CONTEXT, PAYLOAD_1A)]
                    else if request then [SendEncrypted(0x7A, SIM_CONTEXT, PAYLOAD_7A)]
                    else if n < 3 then [NoAction]
                    else if id == 0xFA && s.policy.keepaliveReply then [SendClear(0xFB, m.Context(), PAYLOAD_FB)]
                    else if id == 0x0A0A then [SendEncrypted(0x0A0B, SIM_CONTEXT, PAYLOAD_SYN_A_RSP)]
                    else if id == 0x0B0B then [SendEncrypted(0x0B0C, SIM_CONTEXT, PAYLOAD_SYN_B_RSP)]
                    else [ObserveOnly])
  {
  }

  /** What handling one message adds to the log of an open server: that it came, what it was, and then
      its rejection, or the states it went through and the reply it earned. */
  lemma HandledLogs(s: Server, m: BapMessage, n: nat)
    requires n < |STAGES| && s.state == STAGES[n]
    ensures var id, log := m.Id(), Handled(s, m).0.events;
            var t := Transition(s.state, m);
            var request := n < 3 && id == [0x1E, 0x19, 0x79][n];
            log == s.events + [MessageReceived(id, m.Direction()), MessageDecoded(id, m.Known?)] +
              if t.Rejected? then [MessageRejected(id, t.reason)]
              else if request && n == 0 then
                [StateTransition(WaitingForServiceHandshake, ServiceHandshakeComplete), ResponseSent(0x1F)]
              else if request && n == 1 then
                [StateTransition(ServiceHandshakeComplete, SessionEstablished), ResponseSent(0x1A)]
              else if request then
                [StateTransition(SessionEstablished, WaitingForEncryptedHandshake),
                 StateTransition(WaitingForEncryptedHandshake, EncryptedChannelEstablished), ResponseSent(0x7A)]
              else if n < 3 then []
              else
                (if n == 3 then [StateTransition(EncryptedChannelEstablished, Active)] else []) +
                if id == 0xFA && s.policy.keepaliveReply then [ResponseSent(0xFB)]
                else if id == 0x0A0A then [ResponseSent(0x0A0B)]
                else if id == 0x0B0B then [ResponseSent(0x0B0C)] else []
  {
    var noted := Noted(s, m).events;
    assert noted + [] == noted;
  }

  /** What closing adds to the log of an open server. */
  lemma ClosingLogs(s: Server, n: nat)
    requires n < |STAGES| && s.state == STAGES[n]
    ensures var closing, closed := ClosingBegun(s), ClosingFinished(ClosingBegun(s));
            && closing == s.(state := Closing, events := s.events + [StateTransition(s.state, Closing)])
            && closed == s.(state := Closed, events := s.events +
                 [StateTransition(s.state, Closing), StateTransition(Closing, Closed), SessionClosed])
  {
  }

  /** A server that is closing or closed rejects whatever comes. */
  lemma ClosedServerRejects(s: Server, m: BapMessage)
    requires s.state == Closing || s.state == Closed
    ensures var (s', r) := Handled(s, m);
            && s'.state == s.state && s'.crypto == s.crypto && s'.policy == s.policy
            && r.Ok? && r.value.transition == Rejected(AlreadyClosed) && r.value.actions == [NoAction]
  {
  }

  /** One call on a server. */
  datatype ServerCall = Handle(message: BapMessage) | Close | Finish | UnknownRule(rule: UnknownPolicy)

  ghost function Called(s: Server, call: ServerCall): Server {
    match call
    case Handle(m) => Handled(s, m).0
    case Close => ClosingBegun(s)
    case Finish => ClosingFinished(s)
    case UnknownRule(p) => s.(policy := s.policy.(unknown := p))
  }

  ghost function RunServer(s: Server, calls: seq<ServerCall>): Server {
    if calls == [] then s else Called(RunServer(s, calls[..|calls| - 1]), calls[|calls| - 1])
  }

  /** Follows the logged transitions from a state; None if some transition starts elsewhere. */
  ghost function Trail(start: ProtocolState, events: seq<ProtocolEvent>): Option<ProtocolState> {
    if events == [] then Some(start)
    else
      var last := events[|events| - 1];
      match Trail(start, events[..|events| - 1])
      case None => None
      case Some(at) => if !last.StateTransition? then Some(at) else if last.from == at then Some(last.to) else None
  }

  predicate IsHandshakeReply(id: u16) { id == 0x1F || id == 0x1A || id == 0x7A }

  /** The handshake replies in the log, in order. */
  ghost function HandshakeReplies(events: seq<ProtocolEvent>): seq<u16> {
    if events == [] then []
    else
      var last := events[|events| - 1];
      HandshakeReplies(events[..|events| - 1]) +
      if last.ResponseSent? && IsHandshakeReply(last.id) then [last.id] else []
  }

  ghost predicate Resting(state: ProtocolState) {
    state != Connected && state != WaitingForSessionLogin && state != WaitingForEncryptedHandshake
  }

  /** How many handshake requests a state has behind it; a closed server may have any number. */
  ghost predicate StageOf(state: ProtocolState, n: nat) {
    match state
    case WaitingForServiceHandshake => n == 0
    case ServiceHandshakeComplete => n == 1
    case SessionEstablished => n == 2
    case EncryptedChannelEstablished | Active => n == 3
    case Closing | Closed => n <= 3
    case _ => false
  }

  ghost predicate Sound(s: Server) {
    && Resting(s.state)
    && Trail(WaitingForServiceHandshake, s.events) == Some(s.state)
    && HandshakeReplies(s.events) <= HANDSHAKE_REPLIES
    && StageOf(s.state, |HandshakeReplies(s.events)|)
  }

  lemma Logged(events: seq<ProtocolEvent>, e: ProtocolEvent)
    ensures HandshakeReplies(events + [e]) ==
            HandshakeReplies(events) + if e.ResponseSent? && IsHandshakeReply(e.id) then [e.id] else []
    ensures Trail(WaitingForServiceHandshake, events + [e]) ==
            match Trail(WaitingForServiceHandshake, events)
            case None => None
            case Some(at) => if !e.StateTransition? then Some(at) else if e.from == at then Some(e.to) else None
  {
    assert (events + [e])[..|events|] == events;
  }

  lemma MovedTrail(s: Server, to: ProtocolState)
    requires Trail(WaitingForServiceHandshake, s.events) == Some(s.state)
    ensures var s' := WithState(s, to);
            Trail(WaitingForServiceHandshake, s'.events) == Some(to) &&
            HandshakeReplies(s'.events) == HandshakeReplies(s.events)
  {
    hide Trail, HandshakeReplies;
    Logged(s.events, StateTransition(s.state, to));
  }

  lemma NotedTrail(s: Server, m: BapMessage)
    ensures Trail(WaitingForServiceHandshake, Noted(s, m).events) == Trail(WaitingForServiceHandshake, s.events)
    ensures HandshakeReplies(Noted(s, m).events) == HandshakeReplies(s.events)
  {
    hide Trail, HandshakeReplies;
    var a, b := MessageReceived(m.Id(), m.Direction()), MessageDecoded(m.Id(), m.Known?);
    Logged(s.events, a);
    Logged(s.events + [a], b);
    assert s.events + [a] + [b] == s.events + [a, b];
  }

  lemma AcceptedTrail(s: Server, m: BapMessage, to: ProtocolState)
    requires Trail(WaitingForServiceHandshake, s.events) == Some(s.state)
    ensures var s' := Accepted(s, m, to);
            Trail(WaitingForServiceHandshake, s'.events) == Some(s'.state) &&
            HandshakeReplies(s'.events) == HandshakeReplies(s.events)
  {
    hide Trail, HandshakeReplies;
    NotedTrail(s, m);
    MovedTrail(Noted(s, m), to);
    MovedTrail(WithState(Noted(s, m), to), EncryptedChannelEstablished);
  }

  /** Did this call take the server's next handshake request, properly directed? */
  ghost predicate Takes(s: Server, call: ServerCall, id: u16) {
    call.Handle? && call.message.Id() == id && call.message.Direction() == ClientToServer
    && Transition(s.state, call.message).Advanced? && Rank(Called(s, call).state) > Rank(s.state)
  }

  /** A sound successor: no lower in rank, and at most one handshake reply longer, that reply
      being for the request just taken. */
  ghost predicate Stepped(s: Server, call: ServerCall, s': Server) {
    var n := |HandshakeReplies(s.events)|;
    && Sound(s')
    && Rank(s.state) <= Rank(s'.state)
    && n <= |HandshakeReplies(s'.events)| <= n + 1
    && (|HandshakeReplies(s'.events)| == n + 1 ==> n < 3 && Takes(s, call, HANDSHAKE_REQUESTS[n]))
  }

  /** What one accepted message does to the state, and which handshake reply it earns. */
  lemma AcceptedStage(s: Server, m: BapMessage, n: nat)
    requires Resting(s.state) && StageOf(s.state, n) && ApplyTransition(Transition(s.state, m)).Ok?
    ensures var to := Accepted(s, m, ApplyTransition(Transition(s.state, m)).value).state;
            var action := s.policy.Decide(s.state, m);
            && Resting(to) && Rank(s.state) <= Rank(to)
            && if (action.SendClear? || action.SendEncrypted?) && IsHandshakeReply(action.msgId)
               then && n < 3 && action.msgId == HANDSHAKE_REPLIES[n] && StageOf(to, n + 1)
                    && m.Id() == HANDSHAKE_REQUESTS[n] && m.Direction() == ClientToServer
                    && Transition(s.state, m).Advanced? && Rank(to) > Rank(s.state)
               else StageOf(to, n)
  {
  }

  /** The reply log after one message. */
  lemma HandledReplies(s: Server, m: BapMessage)
    requires Sound(s)
    ensures var s', replies := Handled(s, m).0, HandshakeReplies(s.events);
            && Trail(WaitingForServiceHandshake, s'.events) == Some(s'.state)
            && match ApplyTransition(Transition(s.state, m))
               case Err(_) => s'.state == s.state && HandshakeReplies(s'.events) == replies
               case Ok(to) =>
                 var action := s.policy.Decide(s.state, m);
                 && s'.state == Accepted(s, m, to).state
                 && HandshakeReplies(s'.events) ==
                    replies + if (action.SendClear? || action.SendEncrypted?) && IsHandshakeReply(action.msgId)
                              then [action.msgId] else []
  {
    hide Trail, HandshakeReplies;
    NotedTrail(s, m);
    match ApplyTransition(Transition(s.state, m)) {
      case Err(reason) => Logged(Noted(s, m).events, MessageRejected(m.Id(), reason));
      case Ok(to) =>
        var action := s.policy.Decide(s.state, m);
        AcceptedTrail(s, m, to);
        if action.SendClear? || action.SendEncrypted? {
          Logged(Accepted(s, m, to).events, ResponseSent(action.msgId));
        }
    }
  }

  lemma HandledStep(s: Server, m: BapMessage)
    requires Sound(s)
    ensures Stepped(s, Handle(m), Handled(s, m).0)
  {
    hide Trail, HandshakeReplies;
    HandledReplies(s, m);
    if ApplyTransition(Transition(s.state, m)).Ok? {
      AcceptedStage(s, m, |HandshakeReplies(s.events)|);
    }
  }

  lemma CloseStep(s: Server)
    requires Sound(s)
    ensures Stepped(s, Close, ClosingBegun(s))
  {
    hide Trail, HandshakeReplies;
    MovedTrail(s, BeginClosing(s.state));
  }

  lemma FinishStep(s: Server)
    requires Sound(s)
    ensures Stepped(s, Finish, ClosingFinished(s))
  {
    hide Trail, HandshakeReplies;
    MovedTrail(s, Closed);
    Logged(WithState(s, Closed).events, SessionClosed);
  }

  lemma UnknownRuleStep(s: Server, rule: UnknownPolicy)
    requires Sound(s)
    ensures Stepped(s, UnknownRule(rule), s.(policy := s.policy.(unknown := rule)))
  {
    hide Trail, HandshakeReplies;
  }

  /** One call keeps a server sound, never lowers its rank, and answers a handshake request only
      when it takes one. */
  lemma CallStep(s: Server, call: ServerCall)
    requires Sound(s)
    ensures Stepped(s, call, Called(s, call))
  {
    hide Stepped;
    match call {
      case Handle(m) => HandledStep(s, m);
      case Close => CloseStep(s);
      case Finish => FinishStep(s);
      case UnknownRule(_) => UnknownRuleStep(s, call.rule);
    }
  }

  /** Safety of every run of the server, whatever is called in whatever order. Between calls the
      state is never a transient one; the logged transitions form a path from the start to the
      current state; the handshake replies logged so far are an initial piece of 0x1F, 0x1A, 0x7A,
      as long as the state says; and the state's rank never falls. */
  lemma {:induction false} EveryRunIsSound(id: u64, key: Key, nonce: Nonce, calls: seq<ServerCall>, i: nat)
    requires i <= |calls|
    ensures Sound(RunServer(Started(id, key, nonce), calls))
    ensures var start := Started(id, key, nonce);
            Rank(RunServer(start, calls[..i]).state) <= Rank(RunServer(start, calls).state)
  {
    var start := Started(id, key, nonce);
    if calls == [] {
      Logged([], ConnectedEvent(id));
      assert [] + [ConnectedEvent(id)] == start.events;
      assert calls[..i] == calls;
    } else {
      hide Called, Trail, HandshakeReplies, Takes, Started;
      var before := calls[..|calls| - 1];
      EveryRunIsSound(id, key, nonce, before, if i < |calls| then i else |calls| - 1);
      CallStep(RunServer(start, before), calls[|calls| - 1]);
      if i < |calls| {
        assert before[..i] == calls[..i];
      } else {
        assert calls[..i] == calls;
      }
    }
  }

  /** Calls at increasing positions that took 0x1E, then 0x19, then 0x79. */
  ghost predicate HandshakeTaken(start: Server, calls: seq<ServerCall>, at: seq<nat>) {
    && |at| <= 3
    && (forall k | 0 <= k < |at| :: at[k] < |calls| &&
          Takes(RunServer(start, calls[..at[k]]), calls[at[k]], HANDSHAKE_REQUESTS[k]))
    && (forall k | 0 < k < |at| :: at[k - 1] < at[k])
  }

  lemma TakenSoFar(start: Server, calls: seq<ServerCall>, at: seq<nat>)
    requires calls != [] && HandshakeTaken(start, calls[..|calls| - 1], at)
    ensures HandshakeTaken(start, calls, at)
    ensures var last := |calls| - 1;
            |at| < 3 && Takes(RunServer(start, calls[..last]), calls[last], HANDSHAKE_REQUESTS[|at|]) ==>
              HandshakeTaken(start, calls, at + [last])
  {
    hide Takes, RunServer;
    forall k | 0 <= k < |at| ensures calls[..|calls| - 1][..at[k]] == calls[..at[k]] {
    }
  }

  /** Every handshake reply in the log was earned: the run contains that many handshake requests
      taken in order. So the encrypted states are reached only through 0x1E, 0x19 and 0x79. */
  lemma {:induction false} RepliesWereEarned(id: u64, key: Key, nonce: Nonce, calls: seq<ServerCall>)
      returns (at: seq<nat>)
    ensures var start := Started(id, key, nonce);
            var s := RunServer(start, calls);
            && HandshakeTaken(start, calls, at)
            && |at| == |HandshakeReplies(s.events)|
            && (s.state == EncryptedChannelEstablished || s.state == Active ==> |at| == 3)
  {
    var start := Started(id, key, nonce);
    EveryRunIsSound(id, key, nonce, calls, 0);
    if calls == [] {
      at := [];
    } else {
      hide Called, Trail, HandshakeReplies, Takes, Started, HandshakeTaken;
      var last := |calls| - 1;
      var before := calls[..last];
      at := RepliesWereEarned(id, key, nonce, before);
      EveryRunIsSound(id, key, nonce, before, 0);
      CallStep(RunServer(start, before), calls[last]);
      TakenSoFar(start, calls, at);
      if |HandshakeReplies(RunServer(start, calls).events)| > |at| {
        at := at + [last];
      }
    }
  }
}
