/** Events that a connection endpoint sees, and what every run of them keeps, whatever segments arrive. */
module ConnectionInvariant {
  import opened Common
  import opened Segments
  import opened SenderSpec
  import opened SenderInvariant
  import opened SenderWindow
  import opened SenderTimer
  import opened ReceiverSpec
  import opened StateSummary
  import opened ConnectionSpec

  datatype Event =
    | Arrives(seg: Segment)
    | AppWrites(data: seq<byte>)
    | AppCloses
    | AppConnects
    | AppReads(len: nat)
    | TimePasses(ms: nat)
    | OwnerTakes

  function Next(c: Connection, e: Event): (d: Connection)
    requires c.Valid()
    ensures d.Valid()
  {
    match e
    case Arrives(seg) => c.SegmentReceived(seg)
    case AppWrites(data) => c.Write(data)
    case AppCloses => c.EndInputStream()
    case AppConnects => c.Connect()
    case AppReads(len) => c.ReadInbound(len)
    case TimePasses(ms) => c.Tick(ms)
    case OwnerTakes => c.TakeSegment()
  }

  predicate Allowed(c: Connection, e: Event) {
    && (e.AppWrites? ==> !c.sender.stream.inputEnded)
    && (e.Arrives? ==> Young(c.sender))
  }

  function After(c: Connection, events: seq<Event>): (d: Connection)
    requires c.Valid()
    ensures d.Valid()
    decreases |events|
  {
    if events == [] then c else After(Next(c, events[0]), events[1..])
  }

  predicate AllowedRun(c: Connection, events: seq<Event>)
    requires c.Valid()
    decreases |events|
  {
    events != [] ==> Allowed(c, events[0]) && AllowedRun(Next(c, events[0]), events[1..])
  }

  // ----- The invariant

  /** A reset was received or sent, or the endpoint gave up. */
  predicate Errored(c: Connection) {
    c.sender.stream.error
  }

  /** Both streams are done and everything sent is acknowledged. */
  predicate Drained(c: Connection) {
    c.InboundEnded() && c.OutboundEof() && c.sender.bytesInFlight == 0
  }

  predicate Finished(c: Connection) {
    Drained(c) && (!c.linger || c.timeSinceLastSegment >= 10 * c.rtTimeout)
  }

  ghost predicate Base(c: Connection) {
    && c.Valid() && Inv(c.sender) && OnSchedule(c.sender)
    && c.sender.initialTimeout == c.rtTimeout
    && c.synSended == c.sender.syn
    && c.receiver.reassembler.output.error == c.sender.stream.error
    && (c.InboundEnded() || c.receiver.fin ==> c.receiver.syn)
    && (Errored(c) ==> !c.active && !c.linger)
    && (c.active ==> c.sender.consecutiveRetrans <= MAX_RETX_ATTEMPTS)
    && (!Errored(c) && !c.linger ==> c.InboundEnded())
    && (!Errored(c) && !c.active ==> Finished(c) && c.sender.fin)
  }

  /** The part that holds whenever an event has been dealt with. */
  ghost predicate Settled(c: Connection) {
    && (c.receiver.syn ==> c.synSended)
    && (!Errored(c) && Finished(c) ==> !c.active)
    && (!Errored(c) && Drained(c) ==> c.sender.fin)
    && (c.InboundEnded() && !c.OutboundEof() && c.sender.receiveAck > 0 ==> !c.linger)
  }

  ghost predicate ConnInv(c: Connection) {
    Base(c) && Settled(c)
  }

  // ----- Senders inside a connection

  /** What filling the window leaves as it was, and what it brings about. */
  lemma FillFacts(s: Sender)
    requires Inv(s)
    ensures var t := s.FillWindow();
            && Inv(t) && t.syn && (OnSchedule(s) ==> OnSchedule(t))
            && t.consecutiveRetrans == s.consecutiveRetrans && t.retransTimeout == s.retransTimeout
            && t.initialTimeout == s.initialTimeout && t.receiveAck == s.receiveAck
            && t.stream.error == s.stream.error && t.stream.inputEnded == s.stream.inputEnded
            && (s.stream.Eof() ==> t.stream.Eof())
            && (s.inFlight != [] ==> t.inFlight != [] && t.clock == s.clock)
            && (t.bytesInFlight == 0 && t.stream.Eof() ==> t.fin)
            && (s.fin ==> t == s.(windowIsZero := t.windowIsZero))
  {
    var sent := FillWindowSends(s);
    FillWindowKeepsInv(s);
    IdleMeansFinSent(s);
    if s.fin {
      FinStops(s);
    }
  }

  lemma FinStops(s: Sender)
    requires Inv(s) && s.fin
    ensures s.FillWindow() == s.(windowIsZero := s.windowSize == 0)
  {
  }

  lemma AckFacts(s: Sender, ackno: u32, window: u16)
    requires Inv(s) && Young(s) && OnSchedule(s)
    ensures var t := s.AckReceived(ackno, window);
            && Inv(t) && OnSchedule(t)
            && t.consecutiveRetrans <= s.consecutiveRetrans
            && t.initialTimeout == s.initialTimeout && t.syn == s.syn
            && t.stream.error == s.stream.error && t.stream.inputEnded == s.stream.inputEnded
            && (s.stream.Eof() ==> t.stream.Eof())
  {
    AckReceivedKeepsInv(s, ackno, window);
    StepKeepsSchedule(s, AckOp(ackno, window));
    var sent := AckReceivedEmits(s, ackno, window);
    if !s.syn {
      assert s.AckReceived(ackno, window).syn == s.syn;
    }
  }

  lemma ReceiverFacts(r: Receiver, seg: Segment)
    requires r.Valid() && (r.reassembler.output.inputEnded || r.fin ==> r.syn)
    ensures var t := r.SegmentReceived(seg);
            && t.reassembler.output.error == r.reassembler.output.error
            && (r.reassembler.output.inputEnded ==> t.reassembler.output.inputEnded)
            && (t.reassembler.output.inputEnded || t.fin ==> t.syn)
            && (t.syn <==> r.syn || seg.header.syn)
            && t.capacity == r.capacity
  {
  }

  // ----- The pieces of an event

  lemma FillAndDrainKeepBase(c: Connection)
    requires Base(c)
    ensures var d := c.(synSended := true, sender := c.sender.FillWindow()).Drain();
            Base(d) && d.synSended && d.receiver == c.receiver && (!Errored(d) && Drained(d) ==> d.sender.fin)
  {
    FillFacts(c.sender);
  }

  lemma CleanShutdownSettles(c: Connection)
    requires Base(c) && c.synSended && (!Errored(c) && Drained(c) ==> c.sender.fin)
    ensures ConnInv(c.CleanShutdown())
  {
  }

  lemma SegmentSendsSettles(c: Connection, sendSyn: bool)
    requires Base(c) && (c.receiver.syn ==> c.synSended || sendSyn)
    ensures ConnInv(c.SegmentSends(sendSyn))
  {
    if sendSyn || c.synSended {
      FillAndDrainKeepBase(c);
      CleanShutdownSettles(c.(synSended := true, sender := c.sender.FillWindow()).Drain());
    }
  }

  lemma ErrorsKeepBase(c: Connection)
    requires c.Valid() && Inv(c.sender) && OnSchedule(c.sender)
    requires c.sender.initialTimeout == c.rtTimeout && c.synSended == c.sender.syn
    requires c.InboundEnded() || c.receiver.fin ==> c.receiver.syn
    ensures Base(c.SetErrors()) && Errored(c.SetErrors())
  {
    var s := c.SetErrors().sender;
    ContiguousExtends(s.inFlight, Una(s), s.nextSeqno, s.isn, c.sender.stream, s.stream);
  }

  lemma UncleanShutdownSettles(c: Connection, sendRst: bool)
    requires c.Valid() && Inv(c.sender) && OnSchedule(c.sender)
    requires c.sender.initialTimeout == c.rtTimeout && c.synSended == c.sender.syn
    requires c.InboundEnded() || c.receiver.fin ==> c.receiver.syn
    requires c.receiver.syn ==> c.synSended
    ensures ConnInv(c.UncleanShutdown(sendRst)) && Errored(c.UncleanShutdown(sendRst))
  {
    ErrorsKeepBase(c);
    if sendRst {
      EnsureKeepsBase(c.SetErrors());
      ErroredSends(c.SetErrors().(needSendRst := true).EnsureSegment());
    }
  }

  lemma EnsureKeepsBase(c: Connection)
    requires Base(c)
    ensures var d := c.(needSendRst := true).EnsureSegment();
            Base(d) && d.receiver == c.receiver && d.synSended == c.synSended && Errored(d) == Errored(c)
  {
  }

  lemma ErroredSends(c: Connection)
    requires Base(c) && (c.receiver.syn ==> c.synSended) && Errored(c)
    ensures ConnInv(c.SegmentSends(false)) && Errored(c.SegmentSends(false))
  {
    SegmentSendsSettles(c, false);
    if c.synSended {
      FillFacts(c.sender);
    }
  }

  lemma TakeInKeepsBase(c: Connection, seg: Segment)
    requires Base(c) && c.active && Young(c.sender) && !c.Ignores(seg)
    ensures Base(c.TakeIn(seg)) && c.TakeIn(seg).active
    ensures c.TakeIn(seg).receiver.syn == (c.receiver.syn || seg.header.syn)
  {
    ReceiverFacts(c.receiver, seg);
    AckFacts(c.sender, seg.header.ackno, seg.header.win);
  }

  /** A segment that leaves the endpoint waiting for its SYN to be acknowledged settles nothing that needs sending. */
  lemma SynSentSettled(c: Connection)
    requires Base(c) && c.active && SummarizeSender(c.sender) == SynSent
    ensures ConnInv(c)
  {
  }

  lemma ReactSettles(c: Connection, seg: Segment)
    requires Base(c) && c.active && (c.receiver.syn ==> c.synSended || seg.header.syn)
    ensures ConnInv(c.React(seg))
  {
    if seg.header.syn && c.sender.nextSeqno == 0 {
      SegmentSendsSettles(c, true);
    } else if seg.header.rst {
      if SummarizeSender(c.sender) == SynSent && !seg.header.ack {
        SynSentSettled(c);
      } else {
        UncleanShutdownSettles(c, false);
      }
    } else if seg.LengthInSequenceSpace() > 0 && c.receiver.Ackno().Some? {
      AnswerSettles(c);
    } else {
      SegmentSendsSettles(c, false);
    }
  }

  lemma AnswerSettles(c: Connection)
    requires Base(c) && (c.receiver.syn ==> c.synSended)
    ensures ConnInv(c.EnsureSegment().SegmentSends(false))
  {
    SegmentSendsSettles(c.EnsureSegment(), false);
  }

  lemma SegmentReceivedSettles(c: Connection, seg: Segment)
    requires ConnInv(c) && Young(c.sender)
    ensures ConnInv(c.SegmentReceived(seg))
  {
    if c.active {
      var d := c.(timeSinceLastSegment := 0);
      if d.Ignores(seg) {
        SynSentSettled(d);
      } else {
        TakeInKeepsBase(d, seg);
        ReactSettles(d.TakeIn(seg), seg);
      }
    }
  }

  lemma TickSettles(c: Connection, ms: nat)
    requires ConnInv(c)
    ensures ConnInv(c.Tick(ms))
  {
    if c.active {
      var d := c.Elapse(ms);
      StepKeepsInv(c.sender, TickOp(ms));
      StepKeepsSchedule(c.sender, TickOp(ms));
      if d.sender.consecutiveRetrans > MAX_RETX_ATTEMPTS {
        UncleanShutdownSettles(d, true);
        SegmentSendsSettles(d.UncleanShutdown(true), false);
      } else {
        SegmentSendsSettles(d, false);
      }
    }
  }

  lemma WriteSettles(c: Connection, data: seq<byte>)
    requires ConnInv(c) && !c.sender.stream.inputEnded
    ensures ConnInv(c.Write(data))
  {
    StepKeepsInv(c.sender, SenderOp.WriteOp(data));
    SegmentSendsSettles(c.(sender := c.sender.Write(data)), false);
  }

  lemma CloseSettles(c: Connection)
    requires ConnInv(c)
    ensures ConnInv(c.EndInputStream())
  {
    StepKeepsInv(c.sender, EndInputOp);
    SegmentSendsSettles(c.(sender := c.sender.EndInput()), false);
  }

  lemma NextKeepsInv(c: Connection, e: Event)
    requires ConnInv(c) && Allowed(c, e)
    ensures ConnInv(Next(c, e))
  {
    match e {
      case Arrives(seg) => SegmentReceivedSettles(c, seg);
      case AppWrites(data) => WriteSettles(c, data);
      case AppCloses => CloseSettles(c);
      case AppConnects => SegmentSendsSettles(c, true);
      case AppReads(len) =>
      case TimePasses(ms) => TickSettles(c, ms);
      case OwnerTakes =>
    }
  }

  lemma {:induction false} AfterKeepsInv(c: Connection, events: seq<Event>)
    requires ConnInv(c) && AllowedRun(c, events)
    ensures ConnInv(After(c, events))
    decreases |events|
  {
    if events == [] {
    } else {
      NextKeepsInv(c, events[0]);
      AfterKeepsInv(Next(c, events[0]), events[1..]);
    }
  }
}
