/**
 * What a sender queues for the wire: every number once, in order, and the oldest segment again whenever the timer
 * expires, and only then (RFC 6298 section 5).
 */
module Retransmission {
  import opened Common
  import opened WrappingIntegers
  import opened Streams
  import opened Segments
  import opened SenderSpec
  import opened SenderInvariant
  import opened SenderWindow
  import opened SenderTimer

  /** The tick finds something in flight that was not acknowledged in time. */
  predicate TimerExpires(s: Sender, ms: nat) {
    s.bytesInFlight > 0 && s.clock + ms >= s.retransTimeout
  }

  /** The segment starts where the unacknowledged numbers do, and reaches beyond what is acknowledged. */
  ghost predicate Oldest(seg: Segment, s: Sender) {
    && Una(s) >= 0 && Carries(seg, Una(s), s.isn, s.stream)
    && seg.LengthInSequenceSpace() > 0 && Una(s) + seg.LengthInSequenceSpace() > s.receiveAck
  }

  lemma FlightIsCounted(s: Sender)
    requires Inv(s)
    ensures s.bytesInFlight > 0 <==> s.inFlight != []
  {
    ContiguousOrdered(s.inFlight, Una(s), s.nextSeqno, s.isn, s.stream);
  }

  /** An expiring tick queues exactly one segment, the oldest; any other tick queues none. */
  lemma TickRetransmits(s: Sender, ms: nat)
    requires Inv(s)
    ensures var t := s.Tick(ms);
            if TimerExpires(s, ms)
            then |t.out| == |s.out| + 1 && s.out <= t.out && Oldest(t.out[|s.out|], s)
            else t.out == s.out
  {
    FlightIsCounted(s);
  }

  // ----- The queue over runs

  /** What an operation puts into the queue. */
  function Added(s: Sender, op: SenderOp): seq<Segment>
    requires s.stream.Valid()
  {
    if op.TakeOp? || |Step(s, op).out| < |s.out| then [] else Step(s, op).out[|s.out|..]
  }

  function Queued(s: Sender, ops: seq<SenderOp>): seq<Segment>
    requires s.stream.Valid()
    decreases |ops|
  {
    if ops == [] then [] else Added(s, ops[0]) + Queued(Step(s, ops[0]), ops[1..])
  }

  /** What the owner takes out of it. */
  function Taken(s: Sender, ops: seq<SenderOp>): seq<Segment>
    requires s.stream.Valid()
    decreases |ops|
  {
    if ops == [] then []
    else TakenFirst(s, ops[0]) + Taken(Step(s, ops[0]), ops[1..])
  }

  function TakenFirst(s: Sender, op: SenderOp): seq<Segment> {
    if op.TakeOp? then s.out[..Min(1, |s.out|)] else []
  }

  /** Only filling the window and acknowledgments bring new segments, a tick at most an old one. */
  lemma StepQueues(s: Sender, op: SenderOp)
    requires Inv(s) && Enabled(s, op)
    ensures !op.TakeOp? ==> Step(s, op).out == s.out + Added(s, op)
    ensures op.WriteOp? || op.EndInputOp? || op.TakeOp? ==> Added(s, op) == []
    ensures op.TickOp? ==> |Added(s, op)| == if TimerExpires(s, op.ms) then 1 else 0
    ensures op.TickOp? && TimerExpires(s, op.ms) ==> Oldest(Added(s, op)[0], s)
    ensures op.FillOp? || op.AckOp? ==>
              Contiguous(Added(s, op), s.nextSeqno, Step(s, op).nextSeqno, s.isn, s.stream)
    ensures op.SendEmptyOp? ==> |Added(s, op)| == 1 && Added(s, op)[0].LengthInSequenceSpace() == 0
    ensures !op.FillOp? && !op.AckOp? ==> Step(s, op).nextSeqno == s.nextSeqno
  {
    match op {
      case FillOp =>
        var sent := FillWindowEmits(s);
        assert Added(s, op) == sent;
      case AckOp(ackno, window) =>
        var sent := AckReceivedEmits(s, ackno, window);
        assert Added(s, op) == sent;
      case TickOp(ms) => TickRetransmits(s, ms);
      case _ =>
    }
  }

  lemma StepIsFifo(s: Sender, op: SenderOp)
    requires Inv(s) && Enabled(s, op)
    ensures TakenFirst(s, op) + Step(s, op).out == s.out + Added(s, op)
  {
    StepQueues(s, op);
  }

  /** The queue is a FIFO: what was taken, followed by what is left, is what was there, followed by what was added. */
  lemma {:induction false} QueueIsFifo(s: Sender, ops: seq<SenderOp>)
    requires Inv(s) && EnabledRun(s, ops)
    ensures Taken(s, ops) + Run(s, ops).out == s.out + Queued(s, ops)
    decreases |ops|
  {
    if ops == [] {
    } else {
      var t := Step(s, ops[0]);
      StepKeepsInv(s, ops[0]);
      StepIsFifo(s, ops[0]);
      QueueIsFifo(t, ops[1..]);
      var taken, added := TakenFirst(s, ops[0]), Added(s, ops[0]);
      Regroup(taken, Taken(t, ops[1..]), Run(t, ops[1..]).out, t.out, Queued(t, ops[1..]), s.out, added);
    }
  }

  lemma Regroup(taken: seq<Segment>, later: seq<Segment>, end: seq<Segment>, next: seq<Segment>, queued: seq<Segment>,
                start: seq<Segment>, added: seq<Segment>)
    requires taken + next == start + added && later + end == next + queued
    ensures (taken + later) + end == start + (added + queued)
  {
    assert (taken + later) + end == taken + (later + end);
    assert taken + (next + queued) == (taken + next) + queued;
  }

  /** The segments of a run that were sent for the first time. */
  function Fresh(s: Sender, ops: seq<SenderOp>): seq<Segment>
    requires s.stream.Valid()
    decreases |ops|
  {
    if ops == [] then []
    else (if ops[0].FillOp? || ops[0].AckOp? then Added(s, ops[0]) else []) + Fresh(Step(s, ops[0]), ops[1..])
  }

  lemma StepExtends(s: Sender, op: SenderOp)
    requires Inv(s) && Enabled(s, op)
    ensures Step(s, op).isn == s.isn && Extends(Step(s, op).stream, s.stream)
    ensures Step(s, op).initialTimeout == s.initialTimeout && Step(s, op).nextSeqno >= s.nextSeqno
  {
    match op {
      case FillOp =>
        var sent := FillWindowEmits(s);
        ContiguousOrdered(sent, s.nextSeqno, Step(s, op).nextSeqno, s.isn, s.stream);
      case AckOp(ackno, window) =>
        var sent := AckReceivedEmits(s, ackno, window);
        ContiguousOrdered(sent, s.nextSeqno, Step(s, op).nextSeqno, s.isn, s.stream);
      case _ =>
    }
  }

  lemma {:induction false} RunExtends(s: Sender, ops: seq<SenderOp>)
    requires Inv(s) && EnabledRun(s, ops)
    ensures Run(s, ops).isn == s.isn && Extends(Run(s, ops).stream, s.stream)
    ensures Run(s, ops).nextSeqno >= s.nextSeqno
    decreases |ops|
  {
    if ops == [] {
    } else {
      StepKeepsInv(s, ops[0]);
      StepExtends(s, ops[0]);
      RunExtends(Step(s, ops[0]), ops[1..]);
    }
  }

  /** Between any two points of a run every number in between is sent for the first time exactly once, in order. */
  lemma {:induction false} FreshIsContiguous(s: Sender, ops: seq<SenderOp>)
    requires Inv(s) && EnabledRun(s, ops)
    ensures Contiguous(Fresh(s, ops), s.nextSeqno, Run(s, ops).nextSeqno, s.isn, Run(s, ops).stream)
    decreases |ops|
  {
    if ops == [] {
    } else {
      var op, t := ops[0], Step(s, ops[0]);
      StepQueues(s, op);
      StepKeepsInv(s, op);
      StepExtends(s, op);
      RunExtends(t, ops[1..]);
      FreshIsContiguous(t, ops[1..]);
      if op.FillOp? || op.AckOp? {
        ContiguousExtends(Added(s, op), s.nextSeqno, t.nextSeqno, s.isn, s.stream, Run(s, ops).stream);
        ContiguousConcat(Added(s, op), Fresh(t, ops[1..]), s.nextSeqno, t.nextSeqno, Run(s, ops).nextSeqno,
                         s.isn, Run(s, ops).stream);
      } else {
        assert Fresh(s, ops) == Fresh(t, ops[1..]);
      }
    }
  }

  // ----- Retransmissions over runs

  /** Along the run nothing new is acknowledged. */
  predicate Calm(s: Sender, ops: seq<SenderOp>)
    requires s.stream.Valid()
    decreases |ops|
  {
    ops != [] ==> Quiet(s, ops[0]) && Calm(Step(s, ops[0]), ops[1..])
  }

  lemma CalmStep(s: Sender, op: SenderOp)
    requires Inv(s) && Enabled(s, op) && Quiet(s, op) && s.inFlight != []
    ensures var t := Step(s, op);
            && Inv(t) && t.inFlight != [] && t.inFlight[0] == s.inFlight[0] && Una(t) == Una(s) && t.isn == s.isn
            && t.nextSeqno >= s.nextSeqno
            && t.consecutiveRetrans == s.consecutiveRetrans + |(if op.TickOp? then Added(s, op) else [])|
  {
    StepKeepsInv(s, op);
    StepQueues(s, op);
    StepExtends(s, op);
    FlightIsCounted(s);
    if op.FillOp? {
      var sent := FillWindowSends(s);
    }
  }

  lemma {:induction false} CalmRun(s: Sender, ops: seq<SenderOp>)
    requires Inv(s) && EnabledRun(s, ops) && Calm(s, ops) && s.inFlight != []
    ensures Una(Run(s, ops)) == Una(s) && Run(s, ops).nextSeqno >= s.nextSeqno
    decreases |ops|
  {
    if ops == [] {
    } else {
      CalmStep(s, ops[0]);
      CalmRun(Step(s, ops[0]), ops[1..]);
    }
  }

  lemma {:induction false} ContiguousAt(q: seq<Segment>, from: nat, to: nat, isn: u32, stream: Stream, seg: Segment)
      returns (at: nat)
    requires Contiguous(q, from, to, isn, stream) && seg in q
    ensures from <= at < to && Carries(seg, at, isn, stream)
    decreases |q|
  {
    ContiguousOrdered(q, from, to, isn, stream);
    if q[0] == seg {
      at := from;
    } else {
      at := ContiguousAt(q[1..], from + q[0].LengthInSequenceSpace(), to, isn, stream, seg);
    }
  }

  /** Segments sent for the first time are not the oldest, as long as numbers are unambiguous. */
  lemma FreshIsNotOldest(s: Sender, sent: seq<Segment>, to: nat)
    requires Inv(s) && s.inFlight != [] && Contiguous(sent, s.nextSeqno, to, s.isn, s.stream)
    requires to - Una(s) <= TWO32
    ensures s.inFlight[0] !in sent
  {
    FlightIsCounted(s);
    if s.inFlight[0] in sent {
      var at := ContiguousAt(sent, s.nextSeqno, to, s.isn, s.stream, s.inFlight[0]);
      WrapsDiffer(at, Una(s), s.isn);
    }
  }

  lemma WrapsDiffer(a: nat, b: nat, isn: u32)
    requires 0 < a - b < TWO32
    ensures Wrap(a, isn) != Wrap(b, isn)
  {
    WrapCongruent(a, b, isn);
  }

  /** Of the segments a calm operation adds, the oldest is exactly the retransmitted one. */
  lemma CalmAdds(s: Sender, op: SenderOp)
    requires Inv(s) && Enabled(s, op) && Quiet(s, op) && s.inFlight != []
    requires Step(s, op).nextSeqno - Una(s) <= TWO32
    ensures multiset(Added(s, op))[s.inFlight[0]] == Step(s, op).consecutiveRetrans - s.consecutiveRetrans
  {
    StepQueues(s, op);
    CalmStep(s, op);
    if op.FillOp? || op.AckOp? {
      FreshIsNotOldest(s, Added(s, op), Step(s, op).nextSeqno);
    } else if op.TickOp? && TimerExpires(s, op.ms) {
      assert Added(s, op) == [s.inFlight[0]];
    } else if op.SendEmptyOp? {
      assert Added(s, op) == [Added(s, op)[0]];
    }
  }

  /**
   * Between any two points of a run in which nothing new is acknowledged, the oldest segment is queued again, verbatim,
   * exactly as often as retransmissions are counted.
   */
  lemma {:induction false} RetransmitsOldest(s: Sender, ops: seq<SenderOp>)
    requires Inv(s) && EnabledRun(s, ops) && Calm(s, ops) && s.bytesInFlight > 0
    requires Run(s, ops).bytesInFlight <= TWO32
    ensures s.inFlight != [] && Oldest(s.inFlight[0], s)
    ensures multiset(Queued(s, ops))[s.inFlight[0]] == Retransmissions(s, ops)
    decreases |ops|
  {
    FlightIsCounted(s);
    if ops == [] {
    } else {
      var t := Step(s, ops[0]);
      CalmStep(s, ops[0]);
      CalmRun(t, ops[1..]);
      CalmAdds(s, ops[0]);
      FlightIsCounted(t);
      RetransmitsOldest(t, ops[1..]);
    }
  }

  // ----- New acknowledgments and the timer

  predicate NewlyAcknowledges(s: Sender, ackno: u32) {
    s.receiveAck < Unwrap(ackno, s.isn, s.checkpoint) <= s.nextSeqno
  }

  /**
   * A new acknowledgment ends the back-off and sends all that can be sent; the timer starts anew if anything is left
   * in flight, and runs on otherwise.
   */
  lemma NewAckRestartsTimer(s: Sender, ackno: u32, window: u16)
    requires Inv(s) && Young(s) && NewlyAcknowledges(s, ackno)
    ensures var t := s.AckReceived(ackno, window);
            && t.consecutiveRetrans == 0 && t.retransTimeout == t.initialTimeout == s.initialTimeout
            && t.clock == (if t.bytesInFlight > 0 then 0 else s.clock)
            && (t.bytesInFlight > 0 ==> t.clockIsCounting)
            && (|s.stream.accepted| + 2 < TWO64 ==> SentAllItCan(t))
  {
    var ack := Unwrap(ackno, s.isn, s.checkpoint);
    AckedKeepsInv(s, ack, window);
    PopAckedKeeps(s.(windowSize := window, receiveAck := ack, checkpoint := ack), ack);
    var a := s.Acked(ack, window);
    var sent := FillWindowSends(a);
    AckReceivedKeepsInv(s, ackno, window);
    FlightIsCounted(s.AckReceived(ackno, window));
    if |s.stream.accepted| + 2 < TWO64 {
      FillWindowEager(a);
    }
  }

  /** A tick that finds nothing in flight stops the timer. */
  lemma IdleTickStopsTimer(s: Sender, ms: nat)
    requires Inv(s) && s.bytesInFlight == 0
    ensures s.Tick(ms).bytesInFlight == 0 && !s.Tick(ms).clockIsCounting
  {
    FlightIsCounted(s);
  }

  /** A stopped timer stays stopped while nothing is in flight, and starts from zero with whatever is sent then. */
  lemma StoppedTimerStarts(s: Sender, op: SenderOp)
    requires Inv(s) && Enabled(s, op) && s.bytesInFlight == 0 && !s.clockIsCounting
    ensures var t := Step(s, op);
            if t.bytesInFlight == 0 then !t.clockIsCounting else t.clockIsCounting && t.clock == 0
  {
    FlightIsCounted(s);
    if op.FillOp? {
      FillStartsTimer(s);
    }
  }

  lemma FillStartsTimer(s: Sender)
    requires Inv(s) && s.inFlight == [] && !s.clockIsCounting
    ensures var t := s.FillWindow();
            if t.bytesInFlight == 0 then !t.clockIsCounting else t.clockIsCounting && t.clock == 0
  {
    FillWindowKeepsInv(s);
    FlightIsCounted(s);
    FlightIsCounted(s.FillWindow());
    if s.syn {
      var s0, win := s.(windowIsZero := s.windowSize == 0), s.Window();
      if s0.CanSend(win) {
        var seg := RoundSends(s0, win);
        var sent := FillLoopSends(s0.Round(win), win);
      }
    }
  }

  /**
   * Hence from wherever the clock is at zero, as after a new acknowledgment, a retransmission, or a send with the timer
   * stopped, n retransmissions take all of their doubled timeouts, counted in full.
   */
  lemma BackoffFromZero(s: Sender, ops: seq<SenderOp>, n: nat)
    requires Inv(s) && s.bytesInFlight > 0 && s.clock == 0
    requires EnabledRun(s, ops) && QuietRun(s, ops) && Retransmissions(s, ops) == n
    requires s.retransTimeout * Pow2(n) < TWO32
    ensures Elapsed(ops) >= s.retransTimeout * (Pow2(n) - 1)
  {
    FlightIsCounted(s);
    DueIs(s.retransTimeout, n);
    BackoffTakes(s, ops);
  }

  // ----- Probing a zero window

  /** No acknowledgment of the run opens the window. */
  predicate StaysShut(ops: seq<SenderOp>) {
    forall op | op in ops :: op.AckOp? ==> op.window == 0
  }

  ghost predicate Probing(s: Sender) {
    Inv(s) && s.syn && s.windowSize == 0 && s.windowIsZero && s.inFlight != []
  }

  lemma ProbingStep(s: Sender, op: SenderOp)
    requires Probing(s) && Enabled(s, op) && Quiet(s, op) && (op.AckOp? ==> op.window == 0)
    ensures Probing(Step(s, op)) && Step(s, op).retransTimeout == s.retransTimeout
  {
    QuietStep(s, op);
    if op.FillOp? {
      var sent := FillWindowSends(s);
      FillSetsFlag(s);
    }
  }

  lemma {:induction false} FillLoopKeepsWindow(s: Sender, win: nat)
    requires s.stream.Valid()
    ensures s.FillLoop(win).windowIsZero == s.windowIsZero && s.FillLoop(win).windowSize == s.windowSize
    ensures s.FillLoop(win).syn == s.syn
    decreases s.stream.BufferSize(), !s.fin
  {
    if s.CanSend(win) {
      FillLoopKeepsWindow(s.Round(win), win);
    }
  }

  /** The flag tells whether the window was zero when it was last filled, the SYN's own sending aside. */
  lemma FillSetsFlag(s: Sender)
    requires s.stream.Valid()
    ensures s.FillWindow().windowIsZero == (if s.syn then s.windowSize == 0 else s.windowIsZero)
    ensures s.FillWindow().windowSize == s.windowSize && s.FillWindow().syn
  {
    if s.syn {
      FillLoopKeepsWindow(s.(windowIsZero := s.windowSize == 0), s.Window());
    }
  }

  lemma {:induction false} ProbingRun(s: Sender, ops: seq<SenderOp>)
    requires Probing(s) && EnabledRun(s, ops) && Calm(s, ops) && StaysShut(ops)
    ensures Probing(Run(s, ops)) && TimeoutAfter(s, ops) == s.retransTimeout
    decreases |ops|
  {
    if ops == [] {
    } else {
      assert ops[0] in ops;
      ProbingStep(s, ops[0]);
      ProbingRun(Step(s, ops[0]), ops[1..]);
    }
  }

  /**
   * A zero window is probed without backing off: from the moment it is filled, and until an acknowledgment opens it or
   * acknowledges something new, the timeout stays as it is however often it expires. A SYN counts as sent into a zero
   * window as soon as the window is filled again.
   */
  lemma ZeroWindowNeverBacksOff(s: Sender, ops: seq<SenderOp>)
    requires Inv(s) && s.syn && s.windowSize == 0 && s.bytesInFlight > 0
    requires EnabledRun(s.FillWindow(), ops) && Calm(s.FillWindow(), ops) && StaysShut(ops)
    ensures TimeoutAfter(s.FillWindow(), ops) == s.retransTimeout
  {
    FlightIsCounted(s);
    QuietStep(s, FillOp);
    FillSetsFlag(s);
    ProbingRun(s.FillWindow(), ops);
  }

  // ----- Sizes

  /** No segment carries more than 1000 bytes. */
  ghost predicate Small(segs: seq<Segment>) {
    forall seg | seg in segs :: |seg.payload| <= 1000
  }

  ghost predicate SmallSender(s: Sender) {
    Small(s.inFlight) && Small(s.out)
  }

  lemma {:induction false} FillLoopSmall(s: Sender, win: nat)
    requires s.stream.Valid() && SmallSender(s)
    ensures SmallSender(s.FillLoop(win))
    decreases s.stream.BufferSize(), !s.fin
  {
    if s.CanSend(win) {
      FillLoopSmall(s.Round(win), win);
    }
  }

  lemma FillWindowSmall(s: Sender)
    requires s.stream.Valid() && SmallSender(s)
    ensures SmallSender(s.FillWindow())
  {
    if s.syn {
      FillLoopSmall(s.(windowIsZero := s.windowSize == 0), s.Window());
    }
  }

  lemma StepSmall(s: Sender, op: SenderOp)
    requires s.stream.Valid() && SmallSender(s)
    ensures SmallSender(Step(s, op))
  {
    match op {
      case FillOp => FillWindowSmall(s);
      case AckOp(ackno, window) => AckReceivedSmall(s, ackno, window);
      case _ => QueueingSmall(s, op);
    }
  }

  lemma AckReceivedSmall(s: Sender, ackno: u32, window: u16)
    requires s.stream.Valid() && SmallSender(s)
    ensures SmallSender(s.AckReceived(ackno, window))
  {
    var ack := Unwrap(ackno, s.isn, s.checkpoint);
    if s.receiveAck < ack <= s.nextSeqno {
      PopAckedKeeps(s.(windowSize := window, receiveAck := ack, checkpoint := ack), ack);
      FillWindowSmall(s.Acked(ack, window));
    }
  }

  lemma QueueingSmall(s: Sender, op: SenderOp)
    requires s.stream.Valid() && SmallSender(s) && !op.FillOp? && !op.AckOp?
    ensures SmallSender(Step(s, op))
  {
  }

  lemma {:induction false} RunSmall(s: Sender, ops: seq<SenderOp>)
    requires s.stream.Valid() && SmallSender(s)
    ensures SmallSender(Run(s, ops))
    decreases |ops|
  {
    if ops == [] {
    } else {
      StepSmall(s, ops[0]);
      RunSmall(Step(s, ops[0]), ops[1..]);
    }
  }

  /** Over every run, whatever is acknowledged, no segment queued or in flight carries more than 1000 bytes. */
  lemma SegmentsAreSmall(capacity: nat, timeout: u16, isn: u32, ops: seq<SenderOp>)
    ensures SmallSender(Run(NewSender(capacity, timeout, isn), ops))
  {
    RunSmall(NewSender(capacity, timeout, isn), ops);
  }
}
