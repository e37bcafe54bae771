/**
 * What an endpoint hands to its owner for transmission: everything its sender sends, with nothing but acknowledgment,
 * window and reset flag filled in, the reset flag only once it gave up, and an old segment only when the timer expires.
 */
module Handover {
  import opened Common
  import opened WrappingIntegers
  import opened Streams
  import opened Segments
  import opened SenderSpec
  import opened SenderInvariant
  import opened SenderWindow
  import opened SenderTimer
  import opened Retransmission
  import opened ReceiverSpec
  import opened StateSummary
  import opened ConnectionSpec
  import opened ConnectionInvariant
  import opened ConnectionLifetime
  import opened EndToEnd
  import opened Acknowledging

  // ----- Stamping

  /** Equal in every field of the header but acknowledgment, window and reset flag. */
  predicate OnlyStamped(x: Segment, y: Segment) {
    y == x.(header := x.header.(ack := y.header.ack, ackno := y.header.ackno, win := y.header.win,
                                rst := y.header.rst))
  }

  /** Draining moves every segment in order, changes nothing else of it, and makes it a reset only if one is due. */
  lemma DrainStamps(c: Connection)
    ensures var d := c.Drain();
            && d.sender.out == [] && c.out <= d.out && |d.out| == |c.out| + |c.sender.out|
            && forall i | 0 <= i < |c.sender.out| :: var x, y := c.sender.out[i], d.out[|c.out| + i];
                 && OnlyStamped(x, y) && y.header.rst == (x.header.rst || c.needSendRst)
                 && (c.receiver.Ackno().None? ==>
                       y.header.(rst := x.header.rst) == x.header)
  {
    StampAllLength(c, c.sender.out);
    forall i | 0 <= i < |c.sender.out|
      ensures c.Drain().out[|c.out| + i] == c.Stamp(c.sender.out[i])
    {
      StampAllAt(c, c.sender.out, i);
    }
  }

  /** As the sender makes them: number, SYN, FIN and payload, everything else at its default. */
  predicate Unmarked(seg: Segment) {
    seg.header == DEFAULT_HEADER.(seqno := seg.header.seqno, syn := seg.header.syn, fin := seg.header.fin)
  }

  /** Ports, offset, checksum and the other fields are left to the layers below. */
  predicate Bare(seg: Segment) {
    seg.header == DEFAULT_HEADER.(seqno := seg.header.seqno, syn := seg.header.syn, fin := seg.header.fin,
                                  ack := seg.header.ack, ackno := seg.header.ackno, win := seg.header.win,
                                  rst := seg.header.rst)
  }

  ghost predicate AllUnmarked(segs: seq<Segment>) {
    forall seg | seg in segs :: Unmarked(seg)
  }

  ghost predicate UnmarkedSender(s: Sender) {
    AllUnmarked(s.inFlight) && AllUnmarked(s.out)
  }

  lemma {:induction false} FillLoopUnmarked(s: Sender, win: nat)
    requires s.stream.Valid() && UnmarkedSender(s)
    ensures UnmarkedSender(s.FillLoop(win))
    decreases s.stream.BufferSize(), !s.fin
  {
    if s.CanSend(win) {
      FillLoopUnmarked(s.Round(win), win);
    }
  }

  lemma FillWindowUnmarked(s: Sender)
    requires s.stream.Valid() && UnmarkedSender(s)
    ensures UnmarkedSender(s.FillWindow())
  {
    if s.syn {
      FillLoopUnmarked(s.(windowIsZero := s.windowSize == 0), s.Window());
    }
  }

  lemma AckReceivedUnmarked(s: Sender, ackno: u32, window: u16)
    requires s.stream.Valid() && UnmarkedSender(s)
    ensures UnmarkedSender(s.AckReceived(ackno, window))
  {
    var ack := Unwrap(ackno, s.isn, s.checkpoint);
    if s.receiveAck < ack <= s.nextSeqno {
      PopAckedKeeps(s.(windowSize := window, receiveAck := ack, checkpoint := ack), ack);
      FillWindowUnmarked(s.Acked(ack, window));
    }
  }

  /** Making sure that something is queued only queues. */
  lemma EnsureFacts(c: Connection)
    requires c.Valid() && Inv(c.sender)
    ensures var e := c.EnsureSegment(); e == c.(sender := c.sender.(out := e.sender.out)) && Inv(e.sender)
  {
  }

  // ----- Resets

  /** No segment waiting for the owner is a reset unless the endpoint decided to send one. */
  ghost predicate Marked(c: Connection) {
    && c.Valid() && UnmarkedSender(c.sender)
    && forall seg | seg in c.out :: Bare(seg) && (seg.header.rst ==> c.needSendRst)
  }

  /** What d queued after c: resets all of it if a reset is due, and none of it otherwise. */
  ghost predicate Appends(c: Connection, d: Connection) {
    && c.out <= d.out && (c.needSendRst ==> d.needSendRst)
    && forall i | |c.out| <= i < |d.out| :: Bare(d.out[i]) && (d.out[i].header.rst <==> d.needSendRst)
  }

  lemma AppendsTransitive(c: Connection, d: Connection, e: Connection)
    requires Appends(c, d) && Appends(d, e) && (c.out == d.out || d.needSendRst == e.needSendRst)
    ensures Appends(c, e)
  {
  }

  lemma SendsAppend(c: Connection, sendSyn: bool)
    requires Marked(c)
    ensures var d := c.SegmentSends(sendSyn); Marked(d) && Appends(c, d) && d.needSendRst == c.needSendRst
  {
    if sendSyn || c.synSended {
      FillWindowUnmarked(c.sender);
      var d := c.(synSended := true, sender := c.sender.FillWindow());
      DrainStamps(d);
      DrainMarks(d);
    }
  }

  lemma DrainMarks(c: Connection)
    requires Marked(c)
    ensures Marked(c.Drain()) && Appends(c, c.Drain())
  {
    DrainStamps(c);
    var d := c.Drain();
    forall i | |c.out| <= i < |d.out|
      ensures Bare(d.out[i]) && (d.out[i].header.rst <==> c.needSendRst)
    {
      assert c.sender.out[i - |c.out|] in c.sender.out && d.out[i] == d.out[|c.out| + (i - |c.out|)];
    }
  }

  /** The endpoint fails, and announces it if it is to. */
  lemma ShutdownAppends(c: Connection, sendRst: bool)
    requires Marked(c)
    ensures var d := c.UncleanShutdown(sendRst);
            Marked(d) && Appends(c, d) && d.needSendRst == (c.needSendRst || sendRst)
  {
    if sendRst {
      var d := c.SetErrors().(needSendRst := true).EnsureSegment();
      assert Marked(d);
      SendsAppend(d, false);
    }
  }

  lemma ReactAppends(c: Connection, seg: Segment)
    requires Marked(c)
    ensures Marked(c.React(seg)) && Appends(c, c.React(seg)) && c.React(seg).needSendRst == c.needSendRst
  {
    if seg.header.syn && c.sender.nextSeqno == 0 {
      SendsAppend(c, true);
    } else if seg.header.rst {
      ShutdownAppends(c, false);
    } else if seg.LengthInSequenceSpace() > 0 && c.receiver.Ackno().Some? {
      AnswerAppends(c);
    } else {
      SendsAppend(c, false);
    }
  }

  lemma AnswerAppends(c: Connection)
    requires Marked(c)
    ensures var d := c.EnsureSegment().SegmentSends(false);
            Marked(d) && Appends(c, d) && d.needSendRst == c.needSendRst
  {
    var e := c.EnsureSegment();
    assert Marked(e) && e.out == c.out && e.needSendRst == c.needSendRst;
    SendsAppend(e, false);
  }

  lemma ArrivalAppends(c: Connection, seg: Segment)
    requires Marked(c)
    ensures var d := c.SegmentReceived(seg); Marked(d) && Appends(c, d) && d.needSendRst == c.needSendRst
  {
    if c.active {
      AckReceivedUnmarked(c.sender, seg.header.ackno, seg.header.win);
      ReactAppends(c.(timeSinceLastSegment := 0).TakeIn(seg), seg);
    }
  }

  lemma TickAppends(c: Connection, ms: nat)
    requires Marked(c)
    ensures Marked(c.Tick(ms)) && Appends(c, c.Tick(ms))
  {
    if c.active {
      var d := c.Elapse(ms);
      if d.sender.consecutiveRetrans > MAX_RETX_ATTEMPTS {
        ShutdownAppends(d, true);
        SendsAppend(d.UncleanShutdown(true), false);
        AppendsTransitive(d, d.UncleanShutdown(true), c.Tick(ms));
      } else {
        SendsAppend(d, false);
      }
    }
  }

  /** One event: whatever it queues are resets if the endpoint has decided to send one, and else none is. */
  lemma NextAppends(c: Connection, e: Event)
    requires Marked(c)
    ensures Marked(Next(c, e))
    ensures !e.OwnerTakes? ==> Appends(c, Next(c, e))
    ensures !e.TimePasses? ==> Next(c, e).needSendRst == c.needSendRst
  {
    match e {
      case Arrives(seg) => ArrivalAppends(c, seg);
      case TimePasses(ms) => TickAppends(c, ms);
      case _ => LocalAppends(c, e);
    }
  }

  lemma LocalAppends(c: Connection, e: Event)
    requires Marked(c) && !e.Arrives? && !e.TimePasses?
    ensures Marked(Next(c, e)) && Next(c, e).needSendRst == c.needSendRst
    ensures !e.OwnerTakes? ==> Appends(c, Next(c, e))
  {
    match e {
      case AppWrites(data) => SendsAppend(c.(sender := c.sender.Write(data)), false);
      case AppCloses => SendsAppend(c.(sender := c.sender.EndInput()), false);
      case AppConnects => SendsAppend(c, true);
      case _ => QueueKeepsMarks(c, e);
    }
  }

  lemma QueueKeepsMarks(c: Connection, e: Event)
    requires Marked(c) && (e.AppReads? || e.OwnerTakes?)
    ensures Marked(Next(c, e)) && Next(c, e).needSendRst == c.needSendRst
    ensures e.AppReads? ==> Next(c, e).out == c.out
  {
  }

  lemma {:induction false} AfterMarked(c: Connection, events: seq<Event>)
    requires Marked(c)
    ensures Marked(After(c, events))
    decreases |events|
  {
    if events == [] {
    } else {
      NextAppends(c, events[0]);
      AfterMarked(Next(c, events[0]), events[1..]);
    }
  }

  // ----- Nothing is held back

  /**
   * Until an error, the endpoint keeps nothing back: its sender's queue is empty, and once the SYN was sent, all that
   * can be sent has been.
   */
  ghost predicate Passed(c: Connection) {
    && (!c.sender.syn ==> c.sender.windowSize == 0)
    && (!Errored(c) ==>
          c.sender.out == [] && (c.synSended && |c.sender.stream.accepted| + 2 < TWO64 ==> SentAllItCan(c.sender)))
  }

  lemma SendsPass(c: Connection, sendSyn: bool)
    requires c.Valid() && Inv(c.sender) && c.synSended == c.sender.syn && (!c.sender.syn ==> c.sender.windowSize == 0)
    requires !sendSyn && !c.synSended && !Errored(c) ==> c.sender.out == []
    ensures Passed(c.SegmentSends(sendSyn))
  {
    if sendSyn || c.synSended {
      FillSetsFlag(c.sender);
      var sent := FillWindowSends(c.sender);
      if c.sender.syn && |c.sender.stream.accepted| + 2 < TWO64 {
        FillWindowEager(c.sender);
      }
    }
  }

  lemma AckKeepsSyn(s: Sender, ackno: u32, window: u16)
    requires Inv(s) && Young(s) && s.syn
    ensures s.AckReceived(ackno, window).syn
  {
    var sent := AckReceivedEmits(s, ackno, window);
  }

  lemma ReactPasses(c: Connection, seg: Segment)
    requires Base(c) && c.active && (c.receiver.syn ==> c.synSended || seg.header.syn)
    requires !c.sender.syn ==> c.sender.windowSize == 0 && c.sender.out == []
    requires Passed(c) || seg.header.ack
    ensures Passed(c.React(seg))
  {
    if seg.header.syn && c.sender.nextSeqno == 0 {
      SendsPass(c, true);
    } else if seg.header.rst {
    } else if seg.LengthInSequenceSpace() > 0 && c.receiver.Ackno().Some? {
      AnswerPasses(c);
    } else {
      SendsPass(c, false);
    }
  }

  lemma AnswerPasses(c: Connection)
    requires c.Valid() && Inv(c.sender) && c.synSended && c.sender.syn
    ensures Passed(c.EnsureSegment().SegmentSends(false))
  {
    EnsureFacts(c);
    SendsPass(c.EnsureSegment(), false);
  }

  lemma ArrivalPasses(c: Connection, seg: Segment)
    requires ConnInv(c) && Passed(c) && Young(c.sender)
    ensures Passed(c.SegmentReceived(seg))
  {
    if c.active {
      var d := c.(timeSinceLastSegment := 0);
      if !d.Ignores(seg) {
        TakeInKeepsBase(d, seg);
        if seg.header.ack && d.sender.nextSeqno > 0 {
          AckKeepsSyn(d.sender, seg.header.ackno, seg.header.win);
        }
        ReactPasses(d.TakeIn(seg), seg);
      }
    }
  }

  lemma TickPasses(c: Connection, ms: nat)
    requires ConnInv(c) && Passed(c)
    ensures Passed(c.Tick(ms))
  {
    if c.active {
      var d := c.Elapse(ms);
      StepKeepsInv(c.sender, TickOp(ms));
      StepKeepsSchedule(c.sender, TickOp(ms));
      TickRetransmits(c.sender, ms);
      if d.sender.consecutiveRetrans > MAX_RETX_ATTEMPTS {
        UncleanShutdownSettles(d, true);
        ErroredSends(d.UncleanShutdown(true));
        ShutdownKeepsShut(d);
      } else {
        SendsPass(d, false);
      }
    }
  }

  lemma ShutdownKeepsShut(c: Connection)
    requires c.Valid() && (!c.sender.syn ==> c.sender.windowSize == 0)
    ensures var d := c.UncleanShutdown(true).SegmentSends(false); !d.sender.syn ==> d.sender.windowSize == 0
  {
    FillSetsFlag(c.SetErrors().(needSendRst := true).EnsureSegment().sender);
    FillSetsFlag(c.UncleanShutdown(true).sender);
  }

  lemma NextPasses(c: Connection, e: Event)
    requires ConnInv(c) && Allowed(c, e) && Passed(c)
    ensures Passed(Next(c, e))
  {
    match e {
      case Arrives(seg) => ArrivalPasses(c, seg);
      case AppWrites(data) =>
        StepKeepsInv(c.sender, SenderOp.WriteOp(data));
        SendsPass(c.(sender := c.sender.Write(data)), false);
      case AppCloses =>
        StepKeepsInv(c.sender, EndInputOp);
        SendsPass(c.(sender := c.sender.EndInput()), false);
      case AppConnects => SendsPass(c, true);
      case TimePasses(ms) => TickPasses(c, ms);
      case _ =>
    }
  }

  lemma {:induction false} AfterPasses(c: Connection, events: seq<Event>)
    requires ConnInv(c) && AllowedRun(c, events) && Passed(c)
    ensures Passed(After(c, events))
    decreases |events|
  {
    if events == [] {
    } else {
      NextKeepsInv(c, events[0]);
      NextPasses(c, events[0]);
      AfterPasses(Next(c, events[0]), events[1..]);
    }
  }

  /** After every run an endpoint without error has handed over all that its sender queued, and sent all it can. */
  lemma NothingIsHeldBack(rtTimeout: u16, recvCapacity: nat, sendCapacity: nat, isn: u32, events: seq<Event>)
    requires AllowedRun(NewConnection(rtTimeout, recvCapacity, sendCapacity, isn), events)
    ensures var c := After(NewConnection(rtTimeout, recvCapacity, sendCapacity, isn), events);
            !Errored(c) ==>
              && c.sender.out == []
              && (c.sender.syn && |c.sender.stream.accepted| + 2 < TWO64 ==> SentAllItCan(c.sender))
  {
    NewConnectionInv(rtTimeout, recvCapacity, sendCapacity, isn);
    AfterPasses(NewConnection(rtTimeout, recvCapacity, sendCapacity, isn), events);
    AfterKeepsInv(NewConnection(rtTimeout, recvCapacity, sendCapacity, isn), events);
  }

  // ----- Opening and closing

  /** An endpoint opens its side when told to connect, and when the SYN of a peer finds it alive and not open. */
  predicate Opens(c: Connection, e: Event) {
    e.AppConnects? || (c.active && e.Arrives? && e.seg.header.syn && !c.sender.syn)
  }

  lemma ReactOpens(c: Connection, seg: Segment)
    requires Base(c) && c.active
    ensures c.React(seg).synSended == (c.synSended || (seg.header.syn && !c.sender.syn))
    ensures !c.synSended && !seg.header.syn ==> c.React(seg).out == c.out
  {
    assert c.sender.nextSeqno == 0 <==> !c.sender.syn;
  }

  /** Nothing else has it send its SYN, or anything before that. */
  lemma OpensExactly(c: Connection, e: Event)
    requires ConnInv(c) && Allowed(c, e)
    ensures Next(c, e).sender.syn == (c.sender.syn || Opens(c, e))
    ensures !c.sender.syn && !Opens(c, e) && !e.OwnerTakes? ==> Next(c, e).out == c.out
  {
    NextKeepsInv(c, e);
    match e {
      case Arrives(seg) =>
        if c.active {
          var d := c.(timeSinceLastSegment := 0);
          if !d.Ignores(seg) {
            TakeInKeepsBase(d, seg);
            if d.sender.nextSeqno > 0 && seg.header.ack {
              AckKeepsSyn(d.sender, seg.header.ackno, seg.header.win);
            }
            ReactOpens(d.TakeIn(seg), seg);
          }
        }
      case TimePasses(ms) => UnopenedTick(c, ms);
      case _ =>
    }
  }

  lemma UnopenedTick(c: Connection, ms: nat)
    requires ConnInv(c)
    ensures c.Tick(ms).synSended == c.synSended && (!c.synSended ==> c.Tick(ms).out == c.out)
  {
    if c.active && !c.synSended {
      TickRetransmits(c.sender, ms);
      FlightIsCounted(c.sender);
    }
  }

  predicate OpensIn(c: Connection, events: seq<Event>)
    requires c.Valid()
    decreases |events|
  {
    events != [] && (Opens(c, events[0]) || OpensIn(Next(c, events[0]), events[1..]))
  }

  /** Over every run: the SYN was sent if and only if something opened the endpoint, and until then it is silent. */
  lemma {:induction false} SilentUntilOpened(c: Connection, events: seq<Event>)
    requires ConnInv(c) && AllowedRun(c, events)
    ensures After(c, events).sender.syn <==> c.sender.syn || OpensIn(c, events)
    ensures !After(c, events).sender.syn && c.out == [] ==> After(c, events).out == []
    decreases |events|
  {
    if events == [] {
    } else {
      NextKeepsInv(c, events[0]);
      OpensExactly(c, events[0]);
      SilentUntilOpened(Next(c, events[0]), events[1..]);
    }
  }

  // ----- Ticks

  /** When all that can be sent has been, filling the window sends nothing. */
  lemma FullAddsNothing(s: Sender)
    requires Inv(s) && s.syn && SentAllItCan(s) && s.nextSeqno < TWO64
    ensures s.FillWindow() == s.(windowIsZero := s.windowSize == 0)
  {
    var s0 := s.(windowIsZero := s.windowSize == 0);
    assert !s0.CanSend(s.Window());
  }

  lemma SendsOnlyQueue(c: Connection)
    requires c.Valid() && Inv(c.sender) && c.synSended == c.sender.syn && (c.sender.syn ==> SentAllItCan(c.sender))
    requires c.sender.nextSeqno < TWO64 && (c.sender.out != [] ==> c.sender.syn)
    ensures var d := c.SegmentSends(false);
            && |d.out| == |c.out| + |c.sender.out| && c.out <= d.out
            && (forall i | 0 <= i < |c.sender.out| :: OnlyStamped(c.sender.out[i], d.out[|c.out| + i]))
            && d.sender.out == [] && Inv(d.sender) && (d.sender.syn ==> SentAllItCan(d.sender))
            && d.sender.nextSeqno == c.sender.nextSeqno && d.synSended == c.synSended == d.sender.syn
  {
    if c.synSended {
      FullAddsNothing(c.sender);
      DrainStamps(c.(sender := c.sender.(windowIsZero := c.sender.windowSize == 0)));
    }
  }

  /** Giving up with something queued hands over just that, too. */
  lemma GivingUpOnlyQueues(c: Connection)
    requires c.Valid() && Inv(c.sender) && c.synSended && c.sender.syn && SentAllItCan(c.sender)
    requires c.sender.nextSeqno < TWO64 && c.sender.out != []
    ensures var d := c.UncleanShutdown(true).SegmentSends(false);
            && |d.out| == |c.out| + |c.sender.out| && c.out <= d.out
            && (forall i | 0 <= i < |c.sender.out| :: OnlyStamped(c.sender.out[i], d.out[|c.out| + i]))
  {
    SetErrorsCarrying(c);
    SendsTwice(c.SetErrors().(needSendRst := true));
  }

  lemma SendsTwice(c: Connection)
    requires c.Valid() && Inv(c.sender) && c.synSended && c.sender.syn && SentAllItCan(c.sender)
    requires c.sender.nextSeqno < TWO64 && c.sender.out != []
    ensures var d := c.EnsureSegment().SegmentSends(false).SegmentSends(false);
            && |d.out| == |c.out| + |c.sender.out| && c.out <= d.out
            && (forall i | 0 <= i < |c.sender.out| :: OnlyStamped(c.sender.out[i], d.out[|c.out| + i]))
  {
    SendsOnlyQueue(c);
    SendsOnlyQueue(c.SegmentSends(false));
  }

  lemma StampedIsOldest(x: Segment, y: Segment, s: Sender)
    requires Oldest(x, s) && OnlyStamped(x, y)
    ensures Oldest(y, s)
  {
  }

  /** The tick at the sender, seen from the endpoint. */
  lemma ElapseFacts(c: Connection, ms: nat)
    requires ConnInv(c) && Passed(c) && c.active && |c.sender.stream.accepted| + 2 < TWO64
    ensures var e := c.Elapse(ms);
            && Inv(e.sender) && e.sender.syn == c.sender.syn && e.out == c.out
            && (e.sender.syn ==> SentAllItCan(e.sender)) && e.sender.nextSeqno < TWO64
            && |e.sender.out| == (if TimerExpires(c.sender, ms) then 1 else 0)
            && (TimerExpires(c.sender, ms) ==> e.sender.syn && Oldest(e.sender.out[0], c.sender))
  {
    TickKeepsInv(c.sender, ms);
    TickRetransmits(c.sender, ms);
    TickKeepsFill(c.sender, ms);
  }

  lemma TickKeepsFill(s: Sender, ms: nat)
    requires s.stream.Valid()
    ensures var t := s.Tick(ms);
            && t.syn == s.syn && t.nextSeqno == s.nextSeqno && (SentAllItCan(s) ==> SentAllItCan(t))
            && (t.consecutiveRetrans != s.consecutiveRetrans ==> t.out != [])
  {
  }

  /**
   * A tick hands over exactly one segment, the oldest one not acknowledged, if the timer expires, also when the
   * endpoint gives up; and otherwise none.
   */
  lemma TickSendsExactly(c: Connection, ms: nat)
    requires ConnInv(c) && Passed(c) && c.active && |c.sender.stream.accepted| + 2 < TWO64
    ensures var d := c.Tick(ms);
            if TimerExpires(c.sender, ms)
            then |d.out| == |c.out| + 1 && c.out <= d.out && Oldest(d.out[|c.out|], c.sender)
            else d.out == c.out
  {
    var e := c.Elapse(ms);
    ElapseFacts(c, ms);
    TickKeepsFill(c.sender, ms);
    if e.sender.consecutiveRetrans > MAX_RETX_ATTEMPTS {
      GivingUpOnlyQueues(e);
    } else {
      SendsOnlyQueue(e);
    }
    if TimerExpires(c.sender, ms) {
      StampedIsOldest(e.sender.out[0], c.Tick(ms).out[|c.out|], c.sender);
    }
  }

  /** From the start: over every run, every tick of an active endpoint. */
  lemma TicksRetransmit(rtTimeout: u16, recvCapacity: nat, sendCapacity: nat, isn: u32, events: seq<Event>, ms: nat)
    requires AllowedRun(NewConnection(rtTimeout, recvCapacity, sendCapacity, isn), events)
    ensures var c := After(NewConnection(rtTimeout, recvCapacity, sendCapacity, isn), events); var d := c.Tick(ms);
            c.active && |c.sender.stream.accepted| + 2 < TWO64 ==>
              if TimerExpires(c.sender, ms)
              then |d.out| == |c.out| + 1 && c.out <= d.out && Oldest(d.out[|c.out|], c.sender)
              else d.out == c.out
  {
    NewConnectionInv(rtTimeout, recvCapacity, sendCapacity, isn);
    AfterPasses(NewConnection(rtTimeout, recvCapacity, sendCapacity, isn), events);
    AfterKeepsInv(NewConnection(rtTimeout, recvCapacity, sendCapacity, isn), events);
    var c := After(NewConnection(rtTimeout, recvCapacity, sendCapacity, isn), events);
    if c.active && |c.sender.stream.accepted| + 2 < TWO64 {
      TickSendsExactly(c, ms);
    }
  }

  // ----- Whatever is in flight was handed over

  /** What an event hands over. */
  function Handed(c: Connection, e: Event): seq<Segment>
    requires c.Valid()
  {
    if e.OwnerTakes? || |Next(c, e).out| < |c.out| then [] else Next(c, e).out[|c.out|..]
  }

  function HandedOver(c: Connection, events: seq<Event>): seq<Segment>
    requires c.Valid()
    decreases |events|
  {
    if events == [] then [] else Handed(c, events[0]) + HandedOver(Next(c, events[0]), events[1..])
  }

  function TakenNow(c: Connection, e: Event): seq<Segment> {
    if e.OwnerTakes? then c.out[..Min(1, |c.out|)] else []
  }

  /** What the owner took for transmission. */
  function TakenAway(c: Connection, events: seq<Event>): seq<Segment>
    requires c.Valid()
    decreases |events|
  {
    if events == [] then [] else TakenNow(c, events[0]) + TakenAway(Next(c, events[0]), events[1..])
  }

  lemma EventIsFifo(c: Connection, e: Event)
    requires Marked(c)
    ensures TakenNow(c, e) + Next(c, e).out == c.out + Handed(c, e)
  {
    NextAppends(c, e);
  }

  /** The owner gets everything handed over, once and in order. */
  lemma {:induction false} HandoverIsFifo(c: Connection, events: seq<Event>)
    requires Marked(c)
    ensures TakenAway(c, events) + After(c, events).out == c.out + HandedOver(c, events)
    decreases |events|
  {
    if events == [] {
    } else {
      var d := Next(c, events[0]);
      NextAppends(c, events[0]);
      EventIsFifo(c, events[0]);
      HandoverIsFifo(d, events[1..]);
      Regroup(TakenNow(c, events[0]), TakenAway(d, events[1..]), After(d, events[1..]).out, d.out,
              HandedOver(d, events[1..]), c.out, Handed(c, events[0]));
    }
  }

  /** The same data is among these segments. */
  predicate Among(seg: Segment, segs: seq<Segment>) {
    exists h | h in segs :: SameData(h, seg)
  }

  /** d queued everything that waited in c, and whatever is newly in flight. */
  ghost predicate Ships(c: Connection, d: Connection) {
    && c.out <= d.out
    && (forall seg | seg in c.sender.out :: Among(seg, d.out[|c.out|..]))
    && (forall seg | seg in d.sender.inFlight :: seg in c.sender.inFlight || Among(seg, d.out[|c.out|..]))
  }

  lemma SendsShip(c: Connection, sendSyn: bool)
    requires c.Valid() && Inv(c.sender) && (sendSyn || c.synSended)
    ensures Ships(c, c.SegmentSends(sendSyn))
  {
    var sent := FillWindowEmits(c.sender);
    var f := c.(synSended := true, sender := c.sender.FillWindow());
    var d := f.Drain();
    DrainStamps(f);
    forall seg | seg in f.sender.out
      ensures Among(seg, d.out[|c.out|..])
    {
      var i :| 0 <= i < |f.sender.out| && f.sender.out[i] == seg;
      assert d.out[|c.out|..][i] == d.out[|c.out| + i] && SameData(d.out[|c.out|..][i], seg);
    }
    assert forall seg | seg in sent :: seg in f.sender.out;
  }

  lemma ReactShips(c: Connection, seg: Segment)
    requires Base(c) && c.active && (c.receiver.syn ==> c.synSended || seg.header.syn)
    requires seg.header.ack || c.sender.out == []
    requires !c.synSended ==> c.sender.out == []
    ensures !Errored(c.React(seg)) ==> Ships(c, c.React(seg))
  {
    if seg.header.syn && c.sender.nextSeqno == 0 {
      SendsShip(c, true);
    } else if seg.header.rst {
      assert c.React(seg) == c || Errored(c.React(seg));
    } else {
      if c.synSended {
        SendsShip(c, false);
        AnswerShips(c);
      }
    }
  }

  lemma AnswerShips(c: Connection)
    requires c.Valid() && Inv(c.sender) && c.synSended
    ensures Ships(c, c.EnsureSegment().SegmentSends(false))
  {
    EnsureFacts(c);
    assert c.sender.out == [] || c.EnsureSegment() == c;
    SendsShip(c.EnsureSegment(), false);
  }

  lemma ArrivalShips(c: Connection, seg: Segment)
    requires ConnInv(c) && Passed(c) && Young(c.sender)
    ensures var d := c.SegmentReceived(seg);
            !Errored(d) ==>
              c.out <= d.out
              && forall s | s in d.sender.inFlight :: s in c.sender.inFlight || Among(s, d.out[|c.out|..])
  {
    if c.active {
      var d := c.(timeSinceLastSegment := 0);
      if !d.Ignores(seg) {
        TakeInKeepsBase(d, seg);
        var sent := [];
        if seg.header.ack && d.sender.nextSeqno > 0 {
          sent := AckReceivedEmits(d.sender, seg.header.ackno, seg.header.win);
          AckKeepsSyn(d.sender, seg.header.ackno, seg.header.win);
        }
        ReactShips(d.TakeIn(seg), seg);
        assert forall s | s in sent :: s in d.TakeIn(seg).sender.out;
      }
    }
  }

  lemma TickShips(c: Connection, ms: nat)
    requires ConnInv(c) && Passed(c)
    ensures var d := c.Tick(ms);
            !Errored(d) ==>
              c.out <= d.out
              && forall s | s in d.sender.inFlight :: s in c.sender.inFlight || Among(s, d.out[|c.out|..])
  {
    if c.active {
      var d := c.Elapse(ms);
      StepKeepsInv(c.sender, TickOp(ms));
      StepKeepsSchedule(c.sender, TickOp(ms));
      if d.sender.consecutiveRetrans > MAX_RETX_ATTEMPTS {
        UncleanShutdownSettles(d, true);
        ErroredSends(d.UncleanShutdown(true));
      } else if d.synSended {
        SendsShip(d, false);
      }
    }
  }

  /** One event: what is newly in flight afterwards is among what the event handed over. */
  lemma NextShips(c: Connection, e: Event)
    requires ConnInv(c) && Passed(c) && Marked(c) && Allowed(c, e) && !Errored(Next(c, e))
    ensures forall s | s in Next(c, e).sender.inFlight :: s in c.sender.inFlight || Among(s, Handed(c, e))
  {
    NextAppends(c, e);
    match e {
      case Arrives(seg) => ArrivalShips(c, seg);
      case AppWrites(data) =>
        StepKeepsInv(c.sender, SenderOp.WriteOp(data));
        if c.synSended {
          SendsShip(c.(sender := c.sender.Write(data)), false);
        }
      case AppCloses =>
        StepKeepsInv(c.sender, EndInputOp);
        if c.synSended {
          SendsShip(c.(sender := c.sender.EndInput()), false);
        }
      case AppConnects => SendsShip(c, true);
      case TimePasses(ms) => TickShips(c, ms);
      case _ => IdleOnward(c, e);
    }
  }

  lemma {:induction false} FlightWasHandedOver(c: Connection, events: seq<Event>)
    requires ConnInv(c) && Passed(c) && Marked(c) && AllowedRun(c, events) && !Errored(After(c, events))
    ensures forall s | s in After(c, events).sender.inFlight ::
              s in c.sender.inFlight || Among(s, HandedOver(c, events))
    decreases |events|
  {
    if events == [] {
    } else {
      var d := Next(c, events[0]);
      NextKeepsInv(c, events[0]);
      NextPasses(c, events[0]);
      NextAppends(c, events[0]);
      ErrorStays(d, events[1..]);
      NextShips(c, events[0]);
      FlightWasHandedOver(d, events[1..]);
      forall s | s in After(c, events).sender.inFlight
        ensures s in c.sender.inFlight || Among(s, HandedOver(c, events))
      {
        AmongEither(s, Handed(c, events[0]), HandedOver(d, events[1..]));
      }
    }
  }

  lemma AmongEither(s: Segment, a: seq<Segment>, b: seq<Segment>)
    ensures Among(s, a) || Among(s, b) ==> Among(s, a + b)
  {
  }

  /** After every run of a fresh endpoint without error, all that is in flight was handed over, and so can be taken. */
  lemma AllInFlightWasHandedOver(rtTimeout: u16, recvCapacity: nat, sendCapacity: nat, isn: u32, events: seq<Event>)
    requires AllowedRun(NewConnection(rtTimeout, recvCapacity, sendCapacity, isn), events)
    ensures var start := NewConnection(rtTimeout, recvCapacity, sendCapacity, isn);
            && TakenAway(start, events) + After(start, events).out == HandedOver(start, events)
            && (!Errored(After(start, events)) ==>
                  forall s | s in After(start, events).sender.inFlight :: Among(s, HandedOver(start, events)))
  {
    var start := NewConnection(rtTimeout, recvCapacity, sendCapacity, isn);
    NewConnectionInv(rtTimeout, recvCapacity, sendCapacity, isn);
    HandoverIsFifo(start, events);
    assert start.out + HandedOver(start, events) == HandedOver(start, events);
    if !Errored(After(start, events)) {
      FlightWasHandedOver(start, events);
    }
  }
}
