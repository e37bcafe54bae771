/** The summaries of sender and receiver state, and the official connection states of RFC 793 section 3.2. */
module StateSummary {
  import opened Segments
  import opened SenderSpec
  import opened SenderInvariant
  import opened ReceiverSpec

  datatype SenderSummary = SenderError | Closed | SynSent | SynAcked | FinSent | FinAcked

  datatype ReceiverSummary = ReceiverError | Listen | SynRecv | FinRecv

  function SummarizeReceiver(r: Receiver): ReceiverSummary {
    if r.reassembler.output.error then ReceiverError
    else if r.Ackno().None? then Listen
    else if r.reassembler.output.inputEnded then FinRecv
    else SynRecv
  }

  /** Derived from the counters alone, as the source does it. */
  function SummarizeSender(s: Sender): SenderSummary {
    if s.stream.error then SenderError
    else if s.nextSeqno == 0 then Closed
    else if s.nextSeqno == s.bytesInFlight then SynSent
    else if !s.stream.Eof() then SynAcked
    else if s.nextSeqno < s.stream.BytesWritten() + 2 then SynAcked
    else if s.bytesInFlight != 0 then FinSent
    else FinAcked
  }

  /** The same state told by what actually happened: SYN sent, SYN acknowledged, FIN sent, everything acknowledged. */
  function TrueHistory(s: Sender): SenderSummary {
    if s.stream.error then SenderError
    else if !s.syn then Closed
    else if s.receiveAck == 0 then SynSent
    else if !s.fin then SynAcked
    else if s.receiveAck < s.nextSeqno then FinSent
    else FinAcked
  }

  function Rank(s: SenderSummary): nat {
    match s
    case Closed => 0
    case SynSent => 1
    case SynAcked => 2
    case FinSent => 3
    case FinAcked => 4
    case SenderError => 5
  }

  /**
   * Up to the end of a segment that is only partly acknowledged: the counters call the stream fully acknowledged
   * exactly when it is, and know whether the SYN is acknowledged.
   */
  lemma SummaryIsFaithful(s: Sender)
    requires Inv(s)
    ensures SummarizeSender(s) == TrueHistory(s)
  {
  }

  lemma SummaryNeverRegresses(s: Sender, op: SenderOp)
    requires Inv(s) && Enabled(s, op)
    ensures Rank(SummarizeSender(s)) <= Rank(SummarizeSender(Step(s, op)))
  {
    StepKeepsInv(s, op);
    SummaryIsFaithful(s);
    SummaryIsFaithful(Step(s, op));
    HistoryGrows(s, op);
  }

  /** Along every run the summary only moves forward. */
  lemma {:induction false} SummaryIsMonotone(s: Sender, ops: seq<SenderOp>)
    requires Inv(s) && EnabledRun(s, ops)
    ensures Rank(SummarizeSender(s)) <= Rank(SummarizeSender(SenderInvariant.Run(s, ops)))
    decreases |ops|
  {
    if ops == [] {
    } else {
      SummaryNeverRegresses(s, ops[0]);
      StepKeepsInv(s, ops[0]);
      SummaryIsMonotone(Step(s, ops[0]), ops[1..]);
    }
  }

  lemma HistoryGrows(s: Sender, op: SenderOp)
    requires Inv(s) && Enabled(s, op)
    ensures var t := Step(s, op);
            && (s.syn ==> t.syn) && (s.fin ==> t.fin && t.nextSeqno == s.nextSeqno)
            && s.receiveAck <= t.receiveAck && t.stream.error == s.stream.error
  {
    match op {
      case FillOp =>
        var sent := FillWindowEmits(s);
        EmissionGrows(s, Step(s, op), sent);
      case AckOp(ackno, window) =>
        var sent := AckReceivedEmits(s, ackno, window);
        EmissionGrows(s, Step(s, op), sent);
      case _ =>
    }
  }

  lemma EmissionGrows(s: Sender, t: Sender, sent: seq<Segment>)
    requires Emits(s, t, sent)
    ensures (s.syn ==> t.syn) && (s.fin ==> t.fin && t.nextSeqno == s.nextSeqno) && t.stream.error == s.stream.error
  {
    ContiguousOrdered(sent, s.nextSeqno, t.nextSeqno, s.isn, s.stream);
  }
}
