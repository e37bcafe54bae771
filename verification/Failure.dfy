/**
 * What makes an endpoint fail, and what does not: an error comes from an arriving reset or from giving up, exactly;
 * giving up happens at the ninth consecutive retransmission, exactly, and no sooner than the back-off allows.
 */
module Failure {
  import opened Common
  import opened WrappingIntegers
  import opened Streams
  import opened Segments
  import opened SenderSpec
  import opened SenderInvariant
  import opened SenderTimer
  import opened Retransmission
  import opened ReceiverSpec
  import opened StateSummary
  import opened ConnectionSpec
  import opened ConnectionInvariant
  import opened ConnectionLifetime
  import opened EndToEnd
  import opened ShortStreams
  import opened Acknowledging
  import opened Handover

  // ----- Arriving segments

  /** Our SYN is out, and nothing of ours is acknowledged. */
  predicate AwaitsSynAck(c: Connection) {
    c.sender.syn && c.sender.receiveAck == 0
  }

  /** An acknowledgment with payload while our SYN is not acknowledged. */
  predicate Dropped(c: Connection, seg: Segment) {
    AwaitsSynAck(c) && seg.header.ack && seg.payload != []
  }

  /** The SYN of a peer that opens the connection first; its reset flag is not looked at. */
  predicate OpensPassively(c: Connection, seg: Segment) {
    seg.header.syn && !c.sender.syn
  }

  /** The segment resets the endpoint: while our SYN is not acknowledged, only with an acknowledgment. */
  predicate Resets(c: Connection, seg: Segment) {
    && seg.header.rst && !Dropped(c, seg) && !OpensPassively(c, seg)
    && !(AwaitsSynAck(c) && !seg.header.ack)
  }

  lemma SynSentIsTold(s: Sender)
    requires Inv(s) && !s.stream.error
    ensures SummarizeSender(s) == SynSent <==> s.syn && s.receiveAck == 0
    ensures s.nextSeqno == 0 <==> !s.syn
  {
    SummaryIsFaithful(s);
  }

  /** A segment dropped while waiting leaves everything but the clock as it was. */
  lemma DroppedExactly(c: Connection, seg: Segment)
    requires ConnInv(c) && c.active
    ensures c.(timeSinceLastSegment := 0).Ignores(seg) <==> Dropped(c, seg)
    ensures Dropped(c, seg) ==> c.SegmentReceived(seg) == c.(timeSinceLastSegment := 0)
  {
    SynSentIsTold(c.sender);
  }

  /** The back-off is where it was; the clock, too, as long as something is in flight. */
  ghost predicate SameClock(s: Sender, t: Sender) {
    && t.consecutiveRetrans == s.consecutiveRetrans && t.retransTimeout == s.retransTimeout
    && t.initialTimeout == s.initialTimeout
    && (s.inFlight != [] ==> t.inFlight != [] && t.clock == s.clock)
  }

  ghost predicate SameTimer(s: Sender, t: Sender) {
    SameClock(s, t) && t.receiveAck == s.receiveAck && t.windowSize == s.windowSize
  }

  /** Sending neither brings nor removes an error, and leaves receiver and timer alone. */
  ghost predicate OnlySends(c: Connection, d: Connection) {
    && Errored(d) == Errored(c) && d.receiver == c.receiver && d.needSendRst == c.needSendRst
    && SameTimer(c.sender, d.sender)
  }

  lemma SendsFacts(c: Connection, sendSyn: bool)
    requires c.Valid() && Inv(c.sender)
    ensures OnlySends(c, c.SegmentSends(sendSyn))
  {
    FillFacts(c.sender);
    var sent := FillWindowEmits(c.sender);
  }

  lemma AnswerFacts(c: Connection)
    requires c.Valid() && Inv(c.sender)
    ensures OnlySends(c, c.EnsureSegment().SegmentSends(false))
  {
    EnsureFacts(c);
    SendsFacts(c.EnsureSegment(), false);
  }

  /** What both halves have taken in stays so whatever the endpoint does about the segment. */
  lemma ReactFacts(c: Connection, seg: Segment)
    requires Base(c) && c.active
    ensures var d := c.React(seg);
            && d.receiver == (if Errored(d) then c.receiver.SetError() else c.receiver)
            && d.needSendRst == c.needSendRst && SameTimer(c.sender, d.sender)
  {
    if seg.header.syn && c.sender.nextSeqno == 0 {
      SendsFacts(c, true);
    } else if seg.header.rst {
    } else if seg.LengthInSequenceSpace() > 0 && c.receiver.Ackno().Some? {
      AnswerFacts(c);
    } else {
      SendsFacts(c, false);
    }
  }

  lemma ReactFails(c: Connection, seg: Segment)
    requires Base(c) && c.active
    ensures var d := c.React(seg);
            && (Errored(d) <==> seg.header.rst && !OpensPassively(c, seg) && !(AwaitsSynAck(c) && !seg.header.ack))
            && (Errored(d) ==> !d.active && d.out == c.out)
            && (seg.header.rst && AwaitsSynAck(c) && !seg.header.ack ==> d == c)
  {
    SynSentIsTold(c.sender);
    if seg.header.syn && c.sender.nextSeqno == 0 {
      SendsFacts(c, true);
    } else if seg.header.rst {
    } else if seg.LengthInSequenceSpace() > 0 && c.receiver.Ackno().Some? {
      AnswerFacts(c);
    } else {
      SendsFacts(c, false);
    }
  }

  /** What taking in a segment does to the sender. */
  lemma TakeInFacts(c: Connection, seg: Segment)
    requires Base(c) && c.active && Young(c.sender)
    ensures var s := c.TakeIn(seg).sender; var ack := Unwrap(seg.header.ackno, c.sender.isn, c.sender.receiveAck);
            var read := seg.header.ack && c.sender.syn && ack <= c.sender.nextSeqno;
            && s.receiveAck == (if read && ack > c.sender.receiveAck then ack else c.sender.receiveAck)
            && s.windowSize == (if read then seg.header.win else c.sender.windowSize)
            && (s.syn <==> c.sender.syn) && (!seg.header.ack ==> s == c.sender) && Inv(s)
  {
    SynSentIsTold(c.sender);
    if seg.header.ack && c.sender.nextSeqno > 0 {
      var sent := AckReceivedEmits(c.sender, seg.header.ackno, seg.header.win);
      AckKeepsSyn(c.sender, seg.header.ackno, seg.header.win);
      AckReceivedKeepsInv(c.sender, seg.header.ackno, seg.header.win);
    }
  }

  /**
   * An arriving segment fails the endpoint, making it inactive and queueing nothing, if and only if it is a reset that
   * counts. A reset without acknowledgment, while our SYN is not acknowledged, leaves the sender and the queue alone.
   */
  lemma ResetsExactly(c: Connection, seg: Segment)
    requires ConnInv(c) && c.active && Young(c.sender)
    ensures var d := c.SegmentReceived(seg);
            && (Errored(d) && !d.active && d.out == c.out <==> Resets(c, seg))
            && (Errored(d) <==> Resets(c, seg))
            && (seg.header.rst && AwaitsSynAck(c) && !seg.header.ack ==>
                  d.active && !Errored(d) && d.out == c.out && d.sender == c.sender)
  {
    var e := c.(timeSinceLastSegment := 0);
    DroppedExactly(c, seg);
    if !Dropped(c, seg) {
      TakeInKeepsBase(e, seg);
      TakeInFacts(e, seg);
      ReactFails(e.TakeIn(seg), seg);
    }
  }

  /**
   * Every arriving segment that is not dropped is taken in by both halves: by the receiver, and, if it acknowledges a
   * number that was sent, by the sender.
   */
  lemma ArrivalIsTakenIn(c: Connection, seg: Segment)
    requires ConnInv(c) && c.active && Young(c.sender) && !Dropped(c, seg)
    ensures var d := c.SegmentReceived(seg); var r := c.receiver.SegmentReceived(seg);
            var ack := Unwrap(seg.header.ackno, c.sender.isn, c.sender.receiveAck);
            var read := seg.header.ack && c.sender.syn && ack <= c.sender.nextSeqno;
            && d.receiver == (if Errored(d) then r.SetError() else r)
            && d.sender.receiveAck == (if read && ack > c.sender.receiveAck then ack else c.sender.receiveAck)
            && d.sender.windowSize == (if read then seg.header.win else c.sender.windowSize)
  {
    var e := c.(timeSinceLastSegment := 0);
    DroppedExactly(c, seg);
    TakeInKeepsBase(e, seg);
    TakeInFacts(e, seg);
    ReactFacts(e.TakeIn(seg), seg);
  }

  // ----- Errors

  /** The timer expires for the ninth time in a row. */
  predicate GivesUp(c: Connection, e: Event) {
    c.active && e.TimePasses? && TimerExpires(c.sender, e.ms) && c.sender.consecutiveRetrans == 8
  }

  predicate Fails(c: Connection, e: Event) {
    c.active && ((e.Arrives? && Resets(c, e.seg)) || GivesUp(c, e))
  }

  /** Giving up, retransmissions, and the decision to send resets go together. */
  ghost predicate Tally(c: Connection) {
    && (c.needSendRst ==> Errored(c))
    && (c.needSendRst <==> c.sender.consecutiveRetrans == 9) && c.sender.consecutiveRetrans <= 9
  }

  lemma SenderTick(s: Sender, ms: nat)
    requires Inv(s) && OnSchedule(s)
    ensures var t := s.Tick(ms);
            && Inv(t) && OnSchedule(t) && t.initialTimeout == s.initialTimeout && t.receiveAck == s.receiveAck
            && t.syn == s.syn && t.stream == s.stream
            && t.consecutiveRetrans == s.consecutiveRetrans + (if TimerExpires(s, ms) then 1 else 0)
  {
    FlightIsCounted(s);
    TickKeepsInv(s, ms);
    TickKeepsSchedule(s, ms);
  }

  lemma TickFails(c: Connection, ms: nat)
    requires ConnInv(c) && Tally(c) && c.active
    ensures var d := c.Tick(ms);
            && Errored(d) == d.needSendRst == GivesUp(c, TimePasses(ms))
            && d.sender.consecutiveRetrans
               == c.sender.consecutiveRetrans + (if TimerExpires(c.sender, ms) then 1 else 0)
            && d.sender.receiveAck == c.sender.receiveAck
  {
    var e := c.Elapse(ms);
    SenderTick(c.sender, ms);
    if e.sender.consecutiveRetrans > MAX_RETX_ATTEMPTS {
      GivingUpFacts(e);
    } else {
      SendsFacts(e, false);
    }
  }

  /** Announcing the failure, and sending once more, as a tick does. */
  lemma GivingUpFacts(c: Connection)
    requires c.Valid() && Inv(c.sender)
    ensures var d := c.UncleanShutdown(true).SegmentSends(false);
            Errored(d) && d.needSendRst && SameTimer(c.sender, d.sender)
  {
    UncleanShutdownFollows(c, true);
    ShutdownFacts(c);
    SendsFacts(c.UncleanShutdown(true), false);
    SameTimerTransitive(c.sender, c.UncleanShutdown(true).sender, c.UncleanShutdown(true).SegmentSends(false).sender);
  }

  lemma ShutdownFacts(c: Connection)
    requires c.Valid() && Inv(c.sender)
    ensures var d := c.UncleanShutdown(true);
            Errored(d) && d.needSendRst && SameTimer(c.sender, d.sender)
  {
    SetErrorsCarrying(c);
    var f := c.SetErrors().(needSendRst := true);
    FailingKeepsTimer(c);
    SendsFacts(f.EnsureSegment(), false);
    SameTimerTransitive(c.sender, f.EnsureSegment().sender, c.UncleanShutdown(true).sender);
  }

  lemma FailingKeepsTimer(c: Connection)
    requires c.Valid() && Inv(c.SetErrors().sender)
    ensures var f := c.SetErrors().(needSendRst := true).EnsureSegment();
            Inv(f.sender) && Errored(f) && f.needSendRst && SameTimer(c.sender, f.sender)
  {
    EnsureFacts(c.SetErrors().(needSendRst := true));
  }

  lemma SameTimerTransitive(s: Sender, t: Sender, u: Sender)
    requires SameTimer(s, t) && SameTimer(t, u)
    ensures SameTimer(s, u)
  {
  }

  /** Arriving segments and retransmissions: what a new acknowledgment resets, and anything else leaves alone. */
  lemma ArrivalTimer(c: Connection, seg: Segment)
    requires ConnInv(c) && c.active && Young(c.sender)
    ensures var d := c.SegmentReceived(seg);
            if d.sender.receiveAck > c.sender.receiveAck
            then d.sender.consecutiveRetrans == 0 && d.sender.retransTimeout == c.rtTimeout
                 && (d.sender.bytesInFlight > 0 ==> d.sender.clock == 0)
            else d.sender.receiveAck == c.sender.receiveAck
                 && d.sender.consecutiveRetrans == c.sender.consecutiveRetrans
                 && d.sender.retransTimeout == c.sender.retransTimeout
                 && (c.sender.inFlight != [] ==> d.sender.inFlight != [] && d.sender.clock == c.sender.clock)
  {
    var e := c.(timeSinceLastSegment := 0);
    DroppedExactly(c, seg);
    if !Dropped(c, seg) {
      TakeInKeepsBase(e, seg);
      TakeInFacts(e, seg);
      ReactFacts(e.TakeIn(seg), seg);
      TakeInTimer(e, seg);
      if e.TakeIn(seg).sender.receiveAck > c.sender.receiveAck {
        ReactKeepsZeroClock(e.TakeIn(seg), seg);
      }
    }
  }

  lemma TakeInTimer(c: Connection, seg: Segment)
    requires Base(c) && c.active && Young(c.sender)
    ensures var s := c.TakeIn(seg).sender;
            if s.receiveAck > c.sender.receiveAck
            then s.consecutiveRetrans == 0 && s.retransTimeout == c.rtTimeout && Filled(s)
                 && (s.bytesInFlight > 0 ==> s.clock == 0)
            else s == c.sender.(windowSize := s.windowSize)
  {
    TakeInFacts(c, seg);
    if c.TakeIn(seg).sender.receiveAck > c.sender.receiveAck {
      NewAckRestartsTimer(c.sender, seg.header.ackno, seg.header.win);
      AckIsFilled(c.sender, seg.header.ackno, seg.header.win);
    }
  }

  lemma {:induction false} FillLoopStops(s: Sender, win: nat)
    requires s.stream.Valid()
    ensures !s.FillLoop(win).CanSend(win)
    decreases s.stream.BufferSize(), !s.fin
  {
    if s.CanSend(win) {
      FillLoopStops(s.Round(win), win);
    }
  }

  /** Nothing is left to fill in. */
  predicate Filled(s: Sender)
    requires s.stream.Valid()
  {
    s.syn && !s.CanSend(s.Window())
  }

  lemma AckIsFilled(s: Sender, ackno: u32, window: u16)
    requires Inv(s) && Young(s) && NewlyAcknowledges(s, ackno)
    ensures Filled(s.AckReceived(ackno, window))
  {
    var ack := Unwrap(ackno, s.isn, s.checkpoint);
    AckedKeepsInv(s, ack, window);
    PopAckedKeeps(s.(windowSize := window, receiveAck := ack, checkpoint := ack), ack);
    FillFills(s.Acked(ack, window));
    RestartKeepsFilled(s.Acked(ack, window).FillWindow());
  }

  lemma FillFills(s: Sender)
    requires s.stream.Valid() && s.syn
    ensures Filled(s.FillWindow())
  {
    FillSetsFlag(s);
    FillLoopStops(s.(windowIsZero := s.windowSize == 0), s.Window());
  }

  lemma RestartKeepsFilled(s: Sender)
    requires s.stream.Valid() && Filled(s)
    ensures Filled(s.RestartTimer())
  {
    assert s.RestartTimer().CanSend(s.Window()) == s.CanSend(s.Window());
  }

  lemma FilledStays(s: Sender)
    requires Inv(s) && Filled(s)
    ensures s.FillWindow() == s.(windowIsZero := s.windowSize == 0)
  {
  }

  lemma SendsKeepZeroClock(c: Connection, sendSyn: bool)
    requires c.Valid() && Inv(c.sender) && Filled(c.sender) && (c.sender.bytesInFlight > 0 ==> c.sender.clock == 0)
    ensures var t := c.SegmentSends(sendSyn).sender; t.bytesInFlight > 0 ==> t.clock == 0
  {
    FilledStays(c.sender);
  }

  lemma ReactKeepsZeroClock(c: Connection, seg: Segment)
    requires Base(c) && c.active && Filled(c.sender) && (c.sender.bytesInFlight > 0 ==> c.sender.clock == 0)
    ensures c.React(seg).sender.bytesInFlight > 0 ==> c.React(seg).sender.clock == 0
  {
    if seg.header.syn && c.sender.nextSeqno == 0 {
      SendsKeepZeroClock(c, true);
    } else if seg.header.rst {
    } else if seg.LengthInSequenceSpace() > 0 && c.receiver.Ackno().Some? {
      AnswerKeepsZeroClock(c);
    } else {
      SendsKeepZeroClock(c, false);
    }
  }

  lemma AnswerKeepsZeroClock(c: Connection)
    requires c.Valid() && Inv(c.sender) && Filled(c.sender) && (c.sender.bytesInFlight > 0 ==> c.sender.clock == 0)
    ensures var t := c.EnsureSegment().SegmentSends(false).sender; t.bytesInFlight > 0 ==> t.clock == 0
  {
    EnsureFacts(c);
    SameWindowIsFilled(c.sender, c.EnsureSegment().sender);
    SendsKeepZeroClock(c.EnsureSegment(), false);
  }

  lemma SameWindowIsFilled(s: Sender, t: Sender)
    requires s.stream.Valid() && Filled(s) && t == s.(out := t.out)
    ensures Filled(t)
  {
    assert t.CanSend(s.Window()) == s.CanSend(s.Window());
  }

  /** Nothing but arriving segments and time touches timer, acknowledgment and failure. */
  lemma LocalKeepsTimer(c: Connection, e: Event)
    requires ConnInv(c) && Allowed(c, e) && !e.Arrives? && !e.TimePasses?
    ensures var d := Next(c, e);
            SameTimer(c.sender, d.sender) && Errored(d) == Errored(c) && d.needSendRst == c.needSendRst
  {
    match e {
      case AppWrites(data) =>
        StepKeepsInv(c.sender, SenderOp.WriteOp(data));
        SendsFacts(c.(sender := c.sender.Write(data)), false);
      case AppCloses =>
        StepKeepsInv(c.sender, EndInputOp);
        SendsFacts(c.(sender := c.sender.EndInput()), false);
      case AppConnects => SendsFacts(c, true);
      case _ => IdleOnward(c, e);
    }
  }

  /** Errors have a cause: one event fails an endpoint exactly if it is a reset that counts or has it give up. */
  lemma EventFailsExactly(c: Connection, e: Event)
    requires ConnInv(c) && Tally(c) && Allowed(c, e)
    ensures var d := Next(c, e);
            && (Errored(d) <==> Errored(c) || Fails(c, e))
            && (d.needSendRst <==> c.needSendRst || GivesUp(c, e))
            && Tally(d)
  {
    match e {
      case Arrives(seg) =>
        if c.active {
          ResetsExactly(c, seg);
          ArrivalTimer(c, seg);
          ReactKeepsDecision(c, seg);
        }
      case TimePasses(ms) => if c.active { TickFails(c, ms); }
      case _ => LocalKeepsTimer(c, e);
    }
  }

  lemma ReactKeepsDecision(c: Connection, seg: Segment)
    requires ConnInv(c) && c.active && Young(c.sender)
    ensures c.SegmentReceived(seg).needSendRst == c.needSendRst
  {
    var e := c.(timeSinceLastSegment := 0);
    if !e.Ignores(seg) {
      TakeInKeepsBase(e, seg);
      ReactFacts(e.TakeIn(seg), seg);
    }
  }

  predicate FailsIn(c: Connection, events: seq<Event>)
    requires c.Valid()
    decreases |events|
  {
    events != [] && (Fails(c, events[0]) || FailsIn(Next(c, events[0]), events[1..]))
  }

  predicate GivesUpIn(c: Connection, events: seq<Event>)
    requires c.Valid()
    decreases |events|
  {
    events != [] && (GivesUp(c, events[0]) || GivesUpIn(Next(c, events[0]), events[1..]))
  }

  lemma {:induction false} RunFailsExactly(c: Connection, events: seq<Event>)
    requires ConnInv(c) && Tally(c) && AllowedRun(c, events)
    ensures var d := After(c, events);
            && (Errored(d) <==> Errored(c) || FailsIn(c, events))
            && (d.needSendRst <==> c.needSendRst || GivesUpIn(c, events))
            && Tally(d)
    decreases |events|
  {
    if events == [] {
    } else {
      NextKeepsInv(c, events[0]);
      EventFailsExactly(c, events[0]);
      RunFailsExactly(Next(c, events[0]), events[1..]);
    }
  }

  /** Over every run: an endpoint has failed if and only if a reset that counts arrived or it gave up. */
  lemma ErrorsHaveACause(rtTimeout: u16, recvCapacity: nat, sendCapacity: nat, isn: u32, events: seq<Event>)
    requires AllowedRun(NewConnection(rtTimeout, recvCapacity, sendCapacity, isn), events)
    ensures var start := NewConnection(rtTimeout, recvCapacity, sendCapacity, isn);
            Errored(After(start, events)) <==> FailsIn(start, events)
  {
    NewConnectionInv(rtTimeout, recvCapacity, sendCapacity, isn);
    RunFailsExactly(NewConnection(rtTimeout, recvCapacity, sendCapacity, isn), events);
  }

  // ----- Retransmissions in a row

  /** Retransmissions since anything new was acknowledged, told by expiring ticks and moving acknowledgments. */
  function NextStreak(n: nat, c: Connection, e: Event): nat
    requires c.Valid()
  {
    if Next(c, e).sender.receiveAck > c.sender.receiveAck then 0
    else if e.TimePasses? && c.active && TimerExpires(c.sender, e.ms) then n + 1 else n
  }

  function StreakAfter(n: nat, c: Connection, events: seq<Event>): nat
    requires c.Valid()
    decreases |events|
  {
    if events == [] then n else StreakAfter(NextStreak(n, c, events[0]), Next(c, events[0]), events[1..])
  }

  lemma EventCounts(c: Connection, e: Event)
    requires ConnInv(c) && Tally(c) && Allowed(c, e)
    ensures Next(c, e).sender.consecutiveRetrans == NextStreak(c.sender.consecutiveRetrans, c, e)
    ensures Next(c, e).sender.receiveAck >= c.sender.receiveAck
  {
    match e {
      case Arrives(seg) => if c.active { ArrivalTimer(c, seg); }
      case TimePasses(ms) => if c.active { TickFails(c, ms); }
      case _ => LocalKeepsTimer(c, e);
    }
  }

  lemma {:induction false} StreakIsCounted(c: Connection, events: seq<Event>)
    requires ConnInv(c) && Tally(c) && AllowedRun(c, events)
    ensures After(c, events).sender.consecutiveRetrans == StreakAfter(c.sender.consecutiveRetrans, c, events)
    decreases |events|
  {
    if events == [] {
    } else {
      NextKeepsInv(c, events[0]);
      EventFailsExactly(c, events[0]);
      EventCounts(c, events[0]);
      StreakIsCounted(Next(c, events[0]), events[1..]);
    }
  }

  /**
   * Over every run from a fresh endpoint: it gives up at the ninth retransmission in a row, exactly. A segment it has
   * waiting for its owner is a reset only then.
   */
  lemma GivesUpAtNinth(rtTimeout: u16, recvCapacity: nat, sendCapacity: nat, isn: u32, events: seq<Event>)
    requires AllowedRun(NewConnection(rtTimeout, recvCapacity, sendCapacity, isn), events)
    ensures var start := NewConnection(rtTimeout, recvCapacity, sendCapacity, isn); var c := After(start, events);
            && (GivesUpIn(start, events) <==> StreakAfter(0, start, events) == 9)
            && StreakAfter(0, start, events) <= 9
            && forall seg | seg in c.out :: Bare(seg) && (seg.header.rst ==> StreakAfter(0, start, events) == 9)
  {
    var start := NewConnection(rtTimeout, recvCapacity, sendCapacity, isn);
    NewConnectionInv(rtTimeout, recvCapacity, sendCapacity, isn);
    RunFailsExactly(start, events);
    StreakIsCounted(start, events);
    AfterMarked(start, events);
  }

  /** One event of such a run: what it queues is all resets once the endpoint has given up, and none is before. */
  lemma ResetsOnlyAfterGivingUp(c: Connection, e: Event)
    requires ConnInv(c) && Tally(c) && Marked(c) && Allowed(c, e) && !e.OwnerTakes?
    ensures var d := Next(c, e);
            && c.out <= d.out
            && forall i | |c.out| <= i < |d.out| :: d.out[i].header.rst <==> c.needSendRst || GivesUp(c, e)
  {
    EventFailsExactly(c, e);
    NextAppends(c, e);
  }

  // ----- Patience

  /** Nothing new is acknowledged along the run, and no reset that counts arrives. */
  predicate Unmoved(c: Connection, events: seq<Event>)
    requires c.Valid()
    decreases |events|
  {
    events != [] ==>
      && Next(c, events[0]).sender.receiveAck == c.sender.receiveAck
      && !(c.active && events[0].Arrives? && Resets(c, events[0].seg))
      && Unmoved(Next(c, events[0]), events[1..])
  }

  /** The window is never filled while it is zero. */
  predicate NeverProbes(c: Connection, events: seq<Event>)
    requires c.Valid()
    decreases |events|
  {
    !c.sender.windowIsZero && (events != [] ==> NeverProbes(Next(c, events[0]), events[1..]))
  }

  /** Milliseconds ticked. */
  function Passes(events: seq<Event>): nat {
    if events == [] then 0 else (if events[0].TimePasses? then events[0].ms else 0) + Passes(events[1..])
  }

  /** Milliseconds that must pass before the ninth retransmission, if every timeout is twice the one before. */
  function TimeLeft(s: Sender): int {
    s.initialTimeout * (512 - Pow2(s.consecutiveRetrans)) - s.clock
  }

  /** And if no timeout is longer than the first. */
  function LeastLeft(s: Sender): int {
    s.initialTimeout * (9 - s.consecutiveRetrans) - s.clock
  }

  /** The timer of an endpoint that waits for an acknowledgment. */
  ghost predicate Timing(c: Connection) {
    && ConnInv(c) && Tally(c) && c.active && c.sender.inFlight != []
    && c.sender.initialTimeout <= c.sender.retransTimeout
  }

  predicate Doubling(s: Sender) {
    s.retransTimeout == s.initialTimeout * Pow2(s.consecutiveRetrans)
  }

  lemma Pow2Is512()
    ensures Pow2(8) == 256 && Pow2(9) == 512
  {
    assert Pow2(9) == 2 * Pow2(8) == 4 * Pow2(7) == 8 * Pow2(6) == 16 * Pow2(5);
    assert Pow2(5) == 2 * Pow2(4) == 4 * Pow2(3) == 8 * Pow2(2) == 16 * Pow2(1);
  }

  lemma TimeoutFits(s: Sender)
    requires OnSchedule(s) && s.consecutiveRetrans <= 8
    ensures 2 * s.retransTimeout < TWO32 && 2 * s.initialTimeout * Pow2(s.consecutiveRetrans) < TWO32
  {
    Pow2Is512();
    Pow2Monotone(s.consecutiveRetrans, 8);
    assert s.initialTimeout * Pow2(s.consecutiveRetrans) <= s.initialTimeout * 256;
  }

  /** What one tick does to the timer of the sender. */
  lemma TickTimer(s: Sender, ms: nat)
    requires Inv(s) && OnSchedule(s) && s.inFlight != [] && s.consecutiveRetrans <= 8
    requires s.initialTimeout <= s.retransTimeout
    ensures Spends(s, s.Tick(ms), ms)
  {
    TimeoutFits(s);
    if s.clock + ms >= s.retransTimeout {
      var k := s.consecutiveRetrans;
      assert Pow2(k + 1) == 2 * Pow2(k);
      assert s.initialTimeout * (9 - (k + 1)) == s.initialTimeout * (9 - k) - s.initialTimeout;
      if !s.windowIsZero && Doubling(s) {
        assert 2 * s.retransTimeout % TWO32 == 2 * s.retransTimeout;
        Distributes(s.initialTimeout, Pow2(k));
      }
    }
  }

  lemma Distributes(i: nat, p: nat)
    ensures i * (512 - 2 * p) == i * (512 - p) - i * p && i * (2 * p) == 2 * (i * p)
  {
  }

  /** One event uses up no more patience than the time that passes, and only giving up ends it. */
  lemma UnmovedNext(c: Connection, e: Event)
    requires Timing(c) && Allowed(c, e) && Next(c, e).sender.receiveAck == c.sender.receiveAck
    requires !(e.Arrives? && Resets(c, e.seg))
    ensures var s, t := c.sender, Next(c, e).sender; var ms := if e.TimePasses? then e.ms else 0;
            && (Next(c, e).active ==> Timing(Next(c, e))) && Spends(s, t, ms)
            && (!Next(c, e).active ==> t.consecutiveRetrans == 9)
  {
    var d := Next(c, e);
    NextKeepsInv(c, e);
    NextOnward(c, e);
    EventFailsExactly(c, e);
    UnmovedTimer(c, e);
    FlightIsCounted(d.sender);
    assert !d.active ==> d.needSendRst;
  }

  /** The timer counted on by ms, or not at all. */
  ghost predicate Spends(s: Sender, t: Sender, ms: nat) {
    && t.inFlight != [] && t.initialTimeout == s.initialTimeout <= t.retransTimeout
    && LeastLeft(t) >= LeastLeft(s) - ms
    && (!s.windowIsZero && Doubling(s) ==> Doubling(t) && TimeLeft(t) >= TimeLeft(s) - ms)
  }

  lemma SpendsThrough(s: Sender, t: Sender, u: Sender, ms: nat)
    requires Spends(s, t, ms) && SameClock(t, u)
    ensures Spends(s, u, ms)
  {
  }

  lemma SameClockSpendsNothing(s: Sender, t: Sender)
    requires SameClock(s, t) && s.inFlight != [] && s.initialTimeout <= s.retransTimeout
    ensures Spends(s, t, 0)
  {
  }

  lemma UnmovedTimer(c: Connection, e: Event)
    requires Timing(c) && Allowed(c, e) && Next(c, e).sender.receiveAck == c.sender.receiveAck
    ensures Spends(c.sender, Next(c, e).sender, if e.TimePasses? then e.ms else 0)
  {
    match e {
      case TimePasses(ms) =>
        TickTimer(c.sender, ms);
        TickKeepsTimer(c, ms);
        SpendsThrough(c.sender, c.sender.Tick(ms), Next(c, e).sender, ms);
      case _ =>
        OtherKeepsClock(c, e);
        SameClockSpendsNothing(c.sender, Next(c, e).sender);
    }
  }

  lemma OtherKeepsClock(c: Connection, e: Event)
    requires Timing(c) && Allowed(c, e) && Next(c, e).sender.receiveAck == c.sender.receiveAck && !e.TimePasses?
    ensures SameClock(c.sender, Next(c, e).sender)
  {
    match e {
      case Arrives(seg) =>
        ArrivalTimer(c, seg);
        ArrivalKeepsInitial(c, seg);
      case _ => LocalKeepsTimer(c, e);
    }
  }

  lemma ArrivalKeepsInitial(c: Connection, seg: Segment)
    requires ConnInv(c) && Young(c.sender)
    ensures c.SegmentReceived(seg).sender.initialTimeout == c.sender.initialTimeout
  {
    SegmentReceivedSettles(c, seg);
    if c.active {
      ArrivalOnward(c, seg);
    }
  }

  /** The endpoint's tick leaves the sender's timer as the sender's tick did. */
  lemma TickKeepsTimer(c: Connection, ms: nat)
    requires ConnInv(c) && c.active && c.sender.inFlight != []
    ensures SameClock(c.sender.Tick(ms), c.Tick(ms).sender)
  {
    SenderTick(c.sender, ms);
    if c.Elapse(ms).sender.consecutiveRetrans > MAX_RETX_ATTEMPTS {
      GivingUpFacts(c.Elapse(ms));
    } else {
      SendsFacts(c.Elapse(ms), false);
    }
  }

  lemma {:induction false} UnmovedRun(c: Connection, events: seq<Event>)
    requires Timing(c) && AllowedRun(c, events) && Unmoved(c, events)
    ensures !After(c, events).active ==>
              && Passes(events) >= LeastLeft(c.sender)
              && (NeverProbes(c, events) && Doubling(c.sender) ==> Passes(events) >= TimeLeft(c.sender))
    decreases |events|
  {
    if events == [] {
    } else {
      var d := Next(c, events[0]);
      UnmovedNext(c, events[0]);
      NextKeepsInv(c, events[0]);
      if d.active {
        UnmovedRun(d, events[1..]);
      } else {
        GaveUp(d.sender);
      }
    }
  }

  lemma GaveUp(s: Sender)
    requires s.consecutiveRetrans == 9
    ensures TimeLeft(s) <= 0 && LeastLeft(s) <= 0
  {
    Pow2Is512();
  }

  /**
   * Patience: with something in flight and the back-off at its start, as it is after a new acknowledgment, an endpoint
   * to which nothing new is acknowledged and which is not reset stays active for at least nine times rt_timeout less
   * what its clock shows; and for 511 times, unless it probes a zero window meanwhile.
   */
  lemma PatienceLasts(c: Connection, events: seq<Event>)
    requires ConnInv(c) && Tally(c) && c.active && c.sender.bytesInFlight > 0
    requires c.sender.consecutiveRetrans == 0 && c.sender.retransTimeout == c.rtTimeout
    requires AllowedRun(c, events) && Unmoved(c, events)
    ensures Passes(events) + c.sender.clock < 9 * c.rtTimeout ==> After(c, events).active
    ensures NeverProbes(c, events) && Passes(events) + c.sender.clock < 511 * c.rtTimeout ==> After(c, events).active
  {
    FlightIsCounted(c.sender);
    StartOfPatience(c.sender);
    UnmovedRun(c, events);
  }

  lemma StartOfPatience(s: Sender)
    requires s.consecutiveRetrans == 0
    ensures TimeLeft(s) == 511 * s.initialTimeout - s.clock && LeastLeft(s) == 9 * s.initialTimeout - s.clock
    ensures Doubling(s) <==> s.retransTimeout == s.initialTimeout
  {
    assert Pow2(0) == 1;
  }

  /** A new acknowledgment that leaves something in flight puts the endpoint there, with its clock at zero. */
  lemma NewAckRenewsPatience(c: Connection, seg: Segment)
    requires ConnInv(c) && Tally(c) && c.active && Young(c.sender)
    requires c.SegmentReceived(seg).sender.receiveAck > c.sender.receiveAck
    ensures var d := c.SegmentReceived(seg);
            && Tally(d) && d.sender.consecutiveRetrans == 0 && d.sender.retransTimeout == d.rtTimeout
            && (d.sender.bytesInFlight > 0 ==> d.sender.clock == 0)
  {
    ArrivalTimer(c, seg);
    EventFailsExactly(c, Arrives(seg));
    ArrivalOnward(c, seg);
  }

  // ----- Instance: a SYN that is never answered

  /** A zero window is being probed with the first timeout, the clock at zero. */
  ghost predicate ProbingAnew(c: Connection) {
    && Timing(c) && c.sender.syn && c.sender.windowSize == 0 && c.sender.windowIsZero
    && c.sender.clock == 0 && c.sender.retransTimeout == c.rtTimeout
  }

  lemma ProbingTick(c: Connection)
    requires ProbingAnew(c)
    ensures var d := c.Tick(c.rtTimeout);
            if c.sender.consecutiveRetrans < 8
            then ProbingAnew(d) && d.sender.consecutiveRetrans == c.sender.consecutiveRetrans + 1
            else d.needSendRst && !d.active
    ensures c.Tick(c.rtTimeout).rtTimeout == c.rtTimeout
  {
    var e := c.Elapse(c.rtTimeout);
    FlightIsCounted(c.sender);
    TickSettles(c, c.rtTimeout);
    EventFailsExactly(c, TimePasses(c.rtTimeout));
    if c.sender.consecutiveRetrans < 8 {
      SenderTick(c.sender, c.rtTimeout);
      TickKeepsTimer(c, c.rtTimeout);
      FillSetsFlag(e.sender);
      FlightIsCounted(c.Tick(c.rtTimeout).sender);
    }
  }

  /** n ticks of ms each. */
  function TickTimes(c: Connection, n: nat, ms: nat): Connection
    requires c.Valid()
    decreases n
  {
    if n == 0 then c else TickTimes(c.Tick(ms), n - 1, ms)
  }

  lemma {:induction false} ProbingGivesUp(c: Connection, n: nat)
    requires ProbingAnew(c) && c.sender.consecutiveRetrans + n == 9
    ensures TickTimes(c, n, c.rtTimeout).needSendRst
    decreases n
  {
    ProbingTick(c);
    if n == 1 {
    } else {
      ProbingGivesUp(c.Tick(c.rtTimeout), n - 1);
    }
  }

  lemma FirstTickProbes(rtTimeout: u16, recvCapacity: nat, sendCapacity: nat, isn: u32)
    requires rtTimeout >= 1
    ensures var c := NewConnection(rtTimeout, recvCapacity, sendCapacity, isn).Connect().Tick(0);
            ProbingAnew(c) && c.sender.consecutiveRetrans == 0 && c.rtTimeout == rtTimeout
  {
    var start := NewConnection(rtTimeout, recvCapacity, sendCapacity, isn);
    var c := start.Connect();
    NewConnectionInv(rtTimeout, recvCapacity, sendCapacity, isn);
    NextKeepsInv(start, AppConnects);
    EventFailsExactly(start, AppConnects);
    assert c.sender == start.sender.FillWindow().(out := []) && |c.sender.inFlight| == 1;
    TickSettles(c, 0);
    EventFailsExactly(c, TimePasses(0));
    TickKeepsTimer(c, 0);
    FillSetsFlag(c.Elapse(0).sender);
    FlightIsCounted(c.Tick(0).sender);
  }

  /** An endpoint whose SYN is never answered gives up after nine times rt_timeout: ticks fill a zero window. */
  lemma SynGivesUpExample(rtTimeout: u16, recvCapacity: nat, sendCapacity: nat, isn: u32)
    requires rtTimeout >= 1
    ensures var start := NewConnection(rtTimeout, recvCapacity, sendCapacity, isn);
            TickTimes(start.Connect().Tick(0), 9, rtTimeout).needSendRst
  {
    FirstTickProbes(rtTimeout, recvCapacity, sendCapacity, isn);
    ProbingGivesUp(NewConnection(rtTimeout, recvCapacity, sendCapacity, isn).Connect().Tick(0), 9);
  }
}
