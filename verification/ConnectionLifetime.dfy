/** When a connection ends: clean close, lingering, and giving up on a silent peer (RFC 793 section 3.5). */
module ConnectionLifetime {
  import opened Common
  import opened Streams
  import opened Segments
  import opened SenderSpec
  import opened SenderInvariant
  import opened SenderTimer
  import opened StateSummary
  import opened ConnectionSpec
  import opened ConnectionInvariant

  lemma NewConnectionInv(rtTimeout: u16, recvCapacity: nat, sendCapacity: nat, isn: u32)
    ensures ConnInv(NewConnection(rtTimeout, recvCapacity, sendCapacity, isn))
  {
  }

  /**
   * Clean close is sound and prompt: absent a reset or giving up, an endpoint is inactive exactly when both streams
   * are done, all is acknowledged and there is no reason to linger; and then its FIN was sent, the whole outbound
   * stream with it, and every sequence number of it was acknowledged.
   */
  lemma CleanCloseIsSound(rtTimeout: u16, recvCapacity: nat, sendCapacity: nat, isn: u32, events: seq<Event>)
    requires AllowedRun(NewConnection(rtTimeout, recvCapacity, sendCapacity, isn), events)
    ensures var c := After(NewConnection(rtTimeout, recvCapacity, sendCapacity, isn), events);
            !Errored(c) ==>
              && (c.active <==> !Finished(c))
              && (!c.active ==> c.InboundEnded() && c.sender.fin && c.sender.inFlight == []
                                && c.sender.receiveAck == c.sender.nextSeqno == |c.sender.stream.accepted| + 2)
  {
    NewConnectionInv(rtTimeout, recvCapacity, sendCapacity, isn);
    AfterKeepsInv(NewConnection(rtTimeout, recvCapacity, sendCapacity, isn), events);
    var c := After(NewConnection(rtTimeout, recvCapacity, sendCapacity, isn), events);
    ContiguousOrdered(c.sender.inFlight, Una(c.sender), c.sender.nextSeqno, c.sender.isn, c.sender.stream);
  }

  // ----- What an event can and cannot change

  function QuietTime(t: nat, e: Event): nat {
    match e
    case Arrives(_) => 0
    case TimePasses(ms) => t + ms
    case _ => t
  }

  /** What d, following c, must not have undone. */
  ghost predicate Onward(c: Connection, d: Connection) {
    && (Errored(c) ==> Errored(d)) && (!c.active ==> !d.active) && (!c.linger ==> !d.linger)
    && (c.InboundEnded() ==> d.InboundEnded()) && (c.OutboundEof() ==> d.OutboundEof())
    && (c.linger && c.OutboundEof() && !Errored(d) ==> d.linger)
    && c.rtTimeout == d.rtTimeout
  }

  lemma SegmentSendsOnward(c: Connection, sendSyn: bool)
    requires Base(c)
    ensures Onward(c, c.SegmentSends(sendSyn))
    ensures c.SegmentSends(sendSyn).timeSinceLastSegment == c.timeSinceLastSegment
  {
    FillFacts(c.sender);
  }

  lemma UncleanShutdownOnward(c: Connection, sendRst: bool)
    requires c.Valid() && Inv(c.sender) && OnSchedule(c.sender)
    requires c.sender.initialTimeout == c.rtTimeout && c.synSended == c.sender.syn
    requires c.InboundEnded() || c.receiver.fin ==> c.receiver.syn
    requires c.receiver.syn ==> c.synSended
    ensures Onward(c, c.UncleanShutdown(sendRst))
    ensures c.UncleanShutdown(sendRst).timeSinceLastSegment == c.timeSinceLastSegment
  {
    ErrorsOnward(c);
    if sendRst {
      var d := c.SetErrors().(needSendRst := true).EnsureSegment();
      SegmentSendsOnward(d, false);
      OnwardTransitive(c, d, d.SegmentSends(false));
    }
  }

  lemma ErrorsOnward(c: Connection)
    requires c.Valid() && Inv(c.sender) && OnSchedule(c.sender)
    requires c.sender.initialTimeout == c.rtTimeout && c.synSended == c.sender.syn
    requires c.InboundEnded() || c.receiver.fin ==> c.receiver.syn
    ensures Onward(c, c.SetErrors())
    ensures var d := c.SetErrors().(needSendRst := true).EnsureSegment();
            Base(d) && Onward(c, d) && d.timeSinceLastSegment == c.timeSinceLastSegment
  {
    ErrorsKeepBase(c);
    assert Onward(c, c.SetErrors());
    EnsureOnward(c.SetErrors());
    OnwardTransitive(c, c.SetErrors(), c.SetErrors().(needSendRst := true).EnsureSegment());
  }

  lemma EnsureOnward(c: Connection)
    requires Base(c)
    ensures var d := c.(needSendRst := true).EnsureSegment(); Base(d) && Onward(c, d)
  {
  }

  lemma OnwardTransitive(c: Connection, d: Connection, e: Connection)
    requires Onward(c, d) && Onward(d, e)
    ensures Onward(c, e)
  {
  }

  lemma ReactOnward(c: Connection, seg: Segment)
    requires Base(c) && c.active && (c.receiver.syn ==> c.synSended || seg.header.syn)
    ensures Onward(c, c.React(seg)) && c.React(seg).timeSinceLastSegment == c.timeSinceLastSegment
  {
    if seg.header.syn && c.sender.nextSeqno == 0 {
      SegmentSendsOnward(c, true);
    } else if seg.header.rst {
      if !(SummarizeSender(c.sender) == SynSent && !seg.header.ack) {
        UncleanShutdownOnward(c, false);
      }
    } else if seg.LengthInSequenceSpace() > 0 && c.receiver.Ackno().Some? {
      AnswerOnward(c);
    } else {
      SegmentSendsOnward(c, false);
    }
  }

  lemma AnswerOnward(c: Connection)
    requires Base(c) && c.active
    ensures var d := c.EnsureSegment().SegmentSends(false);
            Onward(c, d) && d.timeSinceLastSegment == c.timeSinceLastSegment
  {
    var d := c.EnsureSegment();
    assert Base(d) && Onward(c, d);
    SegmentSendsOnward(d, false);
    OnwardTransitive(c, d, d.SegmentSends(false));
  }

  lemma ArrivalOnward(c: Connection, seg: Segment)
    requires ConnInv(c) && Young(c.sender) && c.active
    ensures Onward(c, c.SegmentReceived(seg)) && c.SegmentReceived(seg).timeSinceLastSegment == 0
  {
    var d := c.(timeSinceLastSegment := 0);
    if !d.Ignores(seg) {
      TakeInKeepsBase(d, seg);
      ReceiverFacts(d.receiver, seg);
      AckFacts(d.sender, seg.header.ackno, seg.header.win);
      ReactOnward(d.TakeIn(seg), seg);
    }
  }

  lemma TickOnward(c: Connection, ms: nat)
    requires ConnInv(c) && c.active
    ensures Onward(c, c.Tick(ms)) && c.Tick(ms).timeSinceLastSegment == c.timeSinceLastSegment + ms
  {
    var d := c.Elapse(ms);
    StepKeepsInv(c.sender, TickOp(ms));
    StepKeepsSchedule(c.sender, TickOp(ms));
    if d.sender.consecutiveRetrans > MAX_RETX_ATTEMPTS {
      UncleanShutdownOnward(d, true);
      UncleanShutdownSettles(d, true);
      SegmentSendsOnward(d.UncleanShutdown(true), false);
    } else {
      SegmentSendsOnward(d, false);
    }
  }

  /** The application appends to its stream or closes it, and the endpoint sends what it can. */
  lemma StreamOnward(c: Connection, stream: Stream)
    requires Base(c) && stream.Valid() && Inv(c.sender.(stream := stream)) && Extends(stream, c.sender.stream)
    requires stream == c.sender.stream.(accepted := stream.accepted, inputEnded := stream.inputEnded)
    ensures var d := c.(sender := c.sender.(stream := stream)).SegmentSends(false);
            Onward(c, d) && d.timeSinceLastSegment == c.timeSinceLastSegment
  {
    var d := c.(sender := c.sender.(stream := stream));
    assert Base(d) && Onward(c, d);
    SegmentSendsOnward(d, false);
    OnwardTransitive(c, d, d.SegmentSends(false));
  }

  lemma AppOnward(c: Connection, e: Event)
    requires ConnInv(c) && Allowed(c, e) && !e.Arrives? && !e.TimePasses?
    ensures Onward(c, Next(c, e)) && Next(c, e).timeSinceLastSegment == c.timeSinceLastSegment
  {
    match e {
      case AppWrites(data) =>
        StepKeepsInv(c.sender, SenderOp.WriteOp(data));
        StreamOnward(c, c.sender.stream.Write(data));
      case AppCloses =>
        StepKeepsInv(c.sender, EndInputOp);
        StreamOnward(c, c.sender.stream.EndInput());
      case AppConnects => SegmentSendsOnward(c, true);
      case _ => IdleOnward(c, e);
    }
  }

  /** Reading and handing over segments change no more than the receiver's stream and the outbound queue. */
  lemma IdleOnward(c: Connection, e: Event)
    requires c.Valid() && (e.AppReads? || e.OwnerTakes?)
    ensures Onward(c, Next(c, e)) && Next(c, e).timeSinceLastSegment == c.timeSinceLastSegment
    ensures Next(c, e).sender == c.sender && Next(c, e).active == c.active
  {
  }

  lemma NextOnward(c: Connection, e: Event)
    requires ConnInv(c) && Allowed(c, e)
    ensures Onward(c, Next(c, e))
    ensures c.active ==> Next(c, e).timeSinceLastSegment == QuietTime(c.timeSinceLastSegment, e)
  {
    match e {
      case Arrives(seg) => if c.active { ArrivalOnward(c, seg); }
      case TimePasses(ms) => if c.active { TickOnward(c, ms); }
      case _ => AppOnward(c, e);
    }
  }

  // ----- Lingering

  /** Milliseconds ticked since a segment last arrived, at the end of a run that starts with t of them. */
  function QuietAfter(t: nat, events: seq<Event>): nat
    decreases |events|
  {
    if events == [] then t else QuietAfter(QuietTime(t, events[0]), events[1..])
  }

  /** As long as an endpoint is active, its clock shows exactly that. */
  lemma {:induction false} ClockShowsQuiet(c: Connection, events: seq<Event>)
    requires ConnInv(c) && AllowedRun(c, events)
    ensures After(c, events).active ==>
              After(c, events).timeSinceLastSegment == QuietAfter(c.timeSinceLastSegment, events)
    decreases |events|
  {
    if events == [] {
    } else {
      NextKeepsInv(c, events[0]);
      NextOnward(c, events[0]);
      ErrorStays(Next(c, events[0]), events[1..]);
      ClockShowsQuiet(Next(c, events[0]), events[1..]);
    }
  }

  /** Once the outbound stream is done while lingering is on, it stays on until an error. */
  lemma {:induction false} LingerStaysOn(c: Connection, events: seq<Event>)
    requires ConnInv(c) && AllowedRun(c, events) && c.linger && c.OutboundEof()
    ensures var d := After(c, events);
            ConnInv(d) && (!Errored(d) ==> d.linger && d.OutboundEof() && d.rtTimeout == c.rtTimeout)
    decreases |events|
  {
    if events == [] {
    } else {
      var d := Next(c, events[0]);
      NextKeepsInv(c, events[0]);
      NextOnward(c, events[0]);
      if Errored(d) {
        AfterKeepsInv(d, events[1..]);
        ErrorStays(d, events[1..]);
      } else {
        LingerStaysOn(d, events[1..]);
      }
    }
  }

  lemma {:induction false} ErrorStays(c: Connection, events: seq<Event>)
    requires ConnInv(c) && AllowedRun(c, events)
    ensures Errored(c) ==> Errored(After(c, events))
    ensures !c.active ==> !After(c, events).active
    decreases |events|
  {
    if events == [] {
    } else {
      NextKeepsInv(c, events[0]);
      NextOnward(c, events[0]);
      ErrorStays(Next(c, events[0]), events[1..]);
    }
  }

  /**
   * The side whose outbound stream is done before its inbound stream ends lingers: absent a reset it is active exactly
   * until the inbound stream has ended, everything is acknowledged, and 10 * rt_timeout ms have ticked since a segment
   * last arrived, however long it was quiet before.
   */
  lemma FirstToCloseLingers(c: Connection, events: seq<Event>)
    requires ConnInv(c) && AllowedRun(c, events)
    requires c.OutboundEof() && !c.InboundEnded() && !Errored(c)
    ensures var d := After(c, events);
            !Errored(d) ==>
              (d.active <==> !(&& d.InboundEnded() && d.sender.bytesInFlight == 0
                               && d.timeSinceLastSegment >= 10 * c.rtTimeout))
  {
    LingerStaysOn(c, events);
  }

  lemma {:induction false} LingerStaysOff(c: Connection, events: seq<Event>)
    requires ConnInv(c) && AllowedRun(c, events) && !c.linger && c.InboundEnded()
    ensures var d := After(c, events); ConnInv(d) && !d.linger && d.InboundEnded()
    decreases |events|
  {
    if events == [] {
    } else {
      NextKeepsInv(c, events[0]);
      NextOnward(c, events[0]);
      LingerStaysOff(Next(c, events[0]), events[1..]);
    }
  }

  /**
   * The side whose inbound stream ends first never lingers: once lingering is off, which it is if the inbound stream
   * has ended while the outbound one is open and its SYN acknowledged, an endpoint without reset is inactive exactly
   * when its whole outbound stream, FIN included, was sent and acknowledged.
   */
  lemma LastToCloseDoesNotLinger(c: Connection, events: seq<Event>)
    requires ConnInv(c) && AllowedRun(c, events)
    requires c.InboundEnded() && (!c.linger || (!c.OutboundEof() && c.sender.receiveAck > 0))
    ensures var d := After(c, events);
            !Errored(d) ==> (d.active <==> !(d.sender.fin && d.sender.receiveAck == d.sender.nextSeqno))
  {
    LingerStaysOff(c, events);
    var s := After(c, events).sender;
    ContiguousOrdered(s.inFlight, Una(s), s.nextSeqno, s.isn, s.stream);
  }

  // ----- A silent peer

  /** Milliseconds left, at most, before the endpoint gives up. */
  function Patience(s: Sender): int {
    s.initialTimeout * (512 - Pow2(s.consecutiveRetrans))
    - Min(s.clock, s.initialTimeout * Pow2(s.consecutiveRetrans) - 1)
  }

  lemma PatienceBounds(s: Sender)
    requires s.consecutiveRetrans <= MAX_RETX_ATTEMPTS && s.initialTimeout >= 1
    ensures 0 < Patience(s) <= 511 * s.initialTimeout
  {
    var k := s.consecutiveRetrans;
    assert Pow2(8) == 256 && Pow2(k) <= 256 by {
      Pow2Monotone(k, 8);
      assert Pow2(8) == 2 * Pow2(7) == 4 * Pow2(6) == 8 * Pow2(5) == 16 * Pow2(4);
      assert Pow2(4) == 2 * Pow2(3) == 4 * Pow2(2) == 8 * Pow2(1) == 16 * Pow2(0);
    }
    assert s.initialTimeout * (512 - Pow2(k)) == 512 * s.initialTimeout - s.initialTimeout * Pow2(k);
    assert s.initialTimeout * Pow2(k) <= s.initialTimeout * 256;
    assert s.initialTimeout * Pow2(k) >= s.initialTimeout;
  }

  lemma {:induction false} Pow2Monotone(a: nat, b: nat)
    requires a <= b
    ensures Pow2(a) <= Pow2(b)
    decreases b - a
  {
    if a < b {
      Pow2Monotone(a + 1, b);
    }
  }

  lemma TickSpendsPatience(s: Sender, ms: nat)
    requires OnSchedule(s) && s.inFlight != [] && s.initialTimeout >= 1 && ms >= 1
    ensures Patience(s.Tick(ms)) < Patience(s)
  {
  }

  /** Filling the window costs no patience, and gains none. */
  lemma FillKeepsPatience(s: Sender)
    requires Inv(s) && s.inFlight != []
    ensures Patience(s.FillWindow()) == Patience(s) && s.FillWindow().inFlight != []
  {
    FillFacts(s);
  }

  ghost predicate Waiting(c: Connection) {
    c.active && c.sender.inFlight != []
  }

  lemma SilentNext(c: Connection, e: Event)
    requires ConnInv(c) && Allowed(c, e) && !e.Arrives? && Waiting(c) && c.rtTimeout >= 1
    requires e.TimePasses? ==> e.ms >= 1
    ensures var d := Next(c, e);
            d.active ==> Waiting(d) && Patience(d.sender) <= Patience(c.sender) - (if e.TimePasses? then 1 else 0)
  {
    match e {
      case TimePasses(ms) => SilentTick(c, ms);
      case AppWrites(data) =>
        StepKeepsInv(c.sender, SenderOp.WriteOp(data));
        StreamKeepsPatience(c, c.sender.stream.Write(data));
      case AppCloses =>
        StepKeepsInv(c.sender, EndInputOp);
        StreamKeepsPatience(c, c.sender.stream.EndInput());
      case AppConnects => SendsKeepPatience(c, true);
      case _ => IdleOnward(c, e);
    }
  }

  lemma StreamKeepsPatience(c: Connection, stream: Stream)
    requires c.Valid() && stream.Valid() && Inv(c.sender.(stream := stream)) && c.sender.inFlight != []
    ensures var d := c.(sender := c.sender.(stream := stream)).SegmentSends(false);
            Patience(d.sender) == Patience(c.sender) && d.sender.inFlight != []
  {
    SendsKeepPatience(c.(sender := c.sender.(stream := stream)), false);
  }

  lemma SilentTick(c: Connection, ms: nat)
    requires ConnInv(c) && Waiting(c) && c.rtTimeout >= 1 && ms >= 1
    ensures c.Tick(ms).active ==> Waiting(c.Tick(ms)) && Patience(c.Tick(ms).sender) <= Patience(c.sender) - 1
  {
    TickSpendsPatience(c.sender, ms);
    TickOnwardSilent(c, ms);
  }

  lemma SendsKeepPatience(c: Connection, sendSyn: bool)
    requires c.Valid() && Inv(c.sender) && c.sender.inFlight != []
    ensures var d := c.SegmentSends(sendSyn);
            Patience(d.sender) == Patience(c.sender) && d.sender.inFlight != []
  {
    FillKeepsPatience(c.sender);
  }

  /** A tick either gives up or leaves the ticked sender, its window filled. */
  lemma TickOnwardSilent(c: Connection, ms: nat)
    requires ConnInv(c) && Waiting(c)
    ensures var d := c.Tick(ms);
            d.active ==> Waiting(d) && Patience(d.sender) == Patience(c.sender.Tick(ms))
  {
    var d := c.Elapse(ms);
    StepKeepsInv(c.sender, TickOp(ms));
    StepKeepsSchedule(c.sender, TickOp(ms));
    if d.sender.consecutiveRetrans > MAX_RETX_ATTEMPTS {
      UncleanShutdownSettles(d, true);
      SegmentSendsOnward(d.UncleanShutdown(true), false);
    } else {
      SendsKeepPatience(d, false);
    }
  }

  predicate Silent(events: seq<Event>) {
    forall e | e in events :: !e.Arrives? && (e.TimePasses? ==> e.ms >= 1)
  }

  function Ticks(events: seq<Event>): nat {
    if events == [] then 0 else (if events[0].TimePasses? then 1 else 0) + Ticks(events[1..])
  }

  lemma {:induction false} SilenceSpendsPatience(c: Connection, events: seq<Event>)
    requires ConnInv(c) && AllowedRun(c, events) && Silent(events) && Waiting(c) && c.rtTimeout >= 1
    ensures After(c, events).active ==> Waiting(After(c, events)) && ConnInv(After(c, events))
                                        && Patience(After(c, events).sender) <= Patience(c.sender) - Ticks(events)
    ensures After(c, events).rtTimeout == c.rtTimeout || !After(c, events).active
    decreases |events|
  {
    if events == [] {
    } else {
      var d := Next(c, events[0]);
      assert events[0] in events;
      SilentNext(c, events[0]);
      NextKeepsInv(c, events[0]);
      NextOnward(c, events[0]);
      if d.active {
        SilenceSpendsPatience(d, events[1..]);
      } else {
        ErrorStays(d, events[1..]);
      }
    }
  }

  /**
   * A connection with something in flight whose peer stays silent becomes inactive within 511 * rt_timeout ticks of
   * at least 1 ms, whatever the application does meanwhile.
   */
  lemma SilentPeerEndsConnection(c: Connection, events: seq<Event>)
    requires ConnInv(c) && AllowedRun(c, events) && Silent(events)
    requires c.sender.bytesInFlight > 0 && c.rtTimeout >= 1
    requires Ticks(events) >= 511 * c.rtTimeout
    ensures !After(c, events).active
  {
    ContiguousOrdered(c.sender.inFlight, Una(c.sender), c.sender.nextSeqno, c.sender.isn, c.sender.stream);
    if c.active {
      SilenceSpendsPatience(c, events);
      PatienceBounds(c.sender);
      var d := After(c, events);
      if d.active {
        PatienceBounds(d.sender);
      }
    } else {
      ErrorStays(c, events);
    }
  }
}
