/** The connection states of RFC 793 section 3.2, and which of them a reachable endpoint is in. */
module OfficialStates {
  import opened StateSummary
  import opened ConnectionSpec
  import opened ConnectionInvariant

  datatype TcpState = TcpState(sender: SenderSummary, receiver: ReceiverSummary, active: bool, linger: bool)

  datatype State =
    | LISTEN | SYN_RCVD | SYN_SENT | ESTABLISHED | CLOSE_WAIT | LAST_ACK
    | FIN_WAIT_1 | FIN_WAIT_2 | CLOSING | TIME_WAIT | CLOSED | RESET

  function Official(s: State): TcpState {
    match s
    case LISTEN => TcpState(Closed, Listen, true, true)
    case SYN_RCVD => TcpState(SynSent, SynRecv, true, true)
    case SYN_SENT => TcpState(SynSent, Listen, true, true)
    case ESTABLISHED => TcpState(SynAcked, SynRecv, true, true)
    case CLOSE_WAIT => TcpState(SynAcked, FinRecv, true, false)
    case LAST_ACK => TcpState(FinSent, FinRecv, true, false)
    case CLOSING => TcpState(FinSent, FinRecv, true, true)
    case FIN_WAIT_1 => TcpState(FinSent, SynRecv, true, true)
    case FIN_WAIT_2 => TcpState(FinAcked, SynRecv, true, true)
    case TIME_WAIT => TcpState(FinAcked, FinRecv, true, true)
    case RESET => TcpState(SenderError, ReceiverError, false, false)
    case CLOSED => TcpState(FinAcked, FinRecv, false, false)
  }

  /** The endpoint's state as it reports it. */
  function StateOf(c: Connection): TcpState {
    TcpState(SummarizeSender(c.sender), SummarizeReceiver(c.receiver), c.active, c.active && c.linger)
  }

  /** The state the endpoint is in, told by what happened on it. */
  function Told(c: Connection): State {
    if Errored(c) then RESET
    else if !c.active then CLOSED
    else if !c.receiver.syn then if c.sender.syn then SYN_SENT else LISTEN
    else if c.InboundEnded() then
      if c.sender.fin then
        if c.sender.receiveAck == c.sender.nextSeqno then TIME_WAIT
        else if c.linger then CLOSING else LAST_ACK
      else CLOSE_WAIT
    else if c.sender.receiveAck == 0 then SYN_RCVD
    else if !c.sender.fin then ESTABLISHED
    else if c.sender.receiveAck == c.sender.nextSeqno then FIN_WAIT_2
    else FIN_WAIT_1
  }

  /** Situations outside the official diagram in which an active endpoint can find itself. */
  predicate OffDiagram(c: Connection) {
    // Its SYN was acknowledged without one from the peer.
    || (!c.receiver.syn && c.sender.receiveAck > 0)
    // The peer closed before acknowledging the SYN.
    || (c.InboundEnded() && c.sender.receiveAck == 0)
    // The FIN still waits for window.
    || (c.InboundEnded() && c.linger && c.OutboundEof() && !c.sender.fin)
  }

  /** The receiver does not take its acknowledgment number for missing. */
  predicate Numbered(c: Connection) {
    !c.receiver.syn || c.receiver.ackno != 0
  }

  /**
   * Every reachable endpoint reports the official state its history tells if and only if it failed, or it is not off
   * the diagram and its acknowledgment number is not 0. Off the diagram it reports no official state at all.
   */
  lemma ReachableStatesAreOfficial(c: Connection)
    requires ConnInv(c)
    ensures StateOf(c) == Official(Told(c)) <==> Errored(c) || (Numbered(c) && !(c.active && OffDiagram(c)))
    ensures c.active && Numbered(c) && OffDiagram(c) ==> forall s :: StateOf(c) != Official(s)
  {
    SummaryIsFaithful(c.sender);
  }

  /** An endpoint that has ended reports CLOSED or RESET, exactly unless its acknowledgment number happens to be 0. */
  lemma EndedIsClosedOrReset(c: Connection)
    requires ConnInv(c) && !c.active
    ensures Errored(c) ==> StateOf(c) == Official(RESET)
    ensures !Errored(c) ==> (StateOf(c) == Official(CLOSED) <==> c.receiver.ackno != 0)
  {
  }
}
