/**
 * Closed-loop flow control: when acknowledgments may be lost but arrive in order, the right edge of the window never
 * moves left, the sender's window arithmetic never underflows, and no data overruns the receiver's room, except for
 * the one byte that probes a closed window.
 */
module FlowControl {
  import opened Common
  import opened WrappingIntegers
  import opened Segments
  import opened SenderSpec
  import opened SenderInvariant
  import opened SenderWindow
  import opened ReceiverSpec
  import opened Segmentation
  import opened AckExactness

  /** An acknowledgment as the sender reads it: absolute number, and the right edge of the window it grants. */
  datatype Grant = Grant(ack: nat, edge: nat)

  predicate NotAfter(x: Grant, y: Grant) {
    x.ack <= y.ack && x.edge <= y.edge
  }

  function GrantOf(a: Ack, isn: u32): Grant {
    var n := (a.ackno - isn) % TWO32;
    Grant(n, n + a.window)
  }

  /** What the sender acts on now. */
  function Held(s: Sender): Grant {
    Grant(s.receiveAck, s.receiveAck + s.windowSize)
  }

  /** What the receiver would grant now; its edge is 1 + bytes_read + capacity, and one more after the FIN. */
  function Current(r: Receiver): Grant
    requires r.Valid()
  {
    if r.syn then Grant(Expected(r), Expected(r) + r.WindowSize()) else Grant(0, 0)
  }

  lemma EdgeIsReadPlusCapacity(r: Receiver)
    requires r.Valid() && r.syn
    ensures Current(r).edge == 1 + r.reassembler.output.popped + r.capacity + (if r.finNotCount then 0 else 1)
  {
  }

  /** From the grant the sender holds, over those under way, to the receiver's current one, nothing moves left. */
  ghost predicate InOrder(l: Loop)
    requires l.r.Valid()
  {
    && NotAfter(Held(l.s), Current(l.r))
    && (forall a | a in l.acks ::
          NotAfter(Held(l.s), GrantOf(a, l.s.isn)) && NotAfter(GrantOf(a, l.s.isn), Current(l.r)))
    && (forall i, j | 0 <= i < j < |l.acks| :: NotAfter(GrantOf(l.acks[i], l.s.isn), GrantOf(l.acks[j], l.s.isn)))
  }

  /** Data lies within the room granted, or is a single byte that starts where the room ends. */
  predicate WithinRoom(seg: Segment, isn: u32, room: nat) {
    seg.payload == [] || End(seg, isn) <= room || (|seg.payload| == 1 && Start(seg, isn) == room)
  }

  /** The sender acts on no more than the receiver grants, and everything sent lies within its room. */
  ghost predicate Guarded(l: Loop) {
    && Exact(l) && NotAfter(Held(l.s), Current(l.r)) && WithinWindow(l.s)
    && (forall seg | seg in l.wire :: WithinRoom(seg, l.s.isn, l.r.reassembler.output.popped + l.r.capacity))
  }

  ghost predicate Closed(l: Loop) {
    Guarded(l) && InOrder(l)
  }

  lemma GuardedNeverStraddles(l: Loop)
    requires Guarded(l)
    ensures NoStraddling(l)
  {
  }

  /** The receiver never expects more than was sent. */
  lemma ExpectedWasSent(l: Loop)
    requires Exact(l) && l.r.syn
    ensures Expected(l.r) <= l.s.nextSeqno
  {
  }

  // ----- The receiver's side: its grant only moves right

  /** A FIN is counted only once it was seen and nothing is pending. */
  ghost predicate CountsLate(r: Receiver) {
    r.Valid() && (!r.finNotCount ==> r.fin && r.reassembler.Empty())
  }

  lemma DeliveryMovesRight(r: Receiver, seg: Segment)
    requires CountsLate(r)
    ensures CountsLate(r.SegmentReceived(seg)) && NotAfter(Current(r), Current(r.SegmentReceived(seg)))
    ensures r.SegmentReceived(seg).reassembler.output.popped == r.reassembler.output.popped
    ensures r.SegmentReceived(seg).capacity == r.capacity
  {
  }

  lemma ReadMovesRight(r: Receiver, len: nat)
    requires CountsLate(r)
    ensures CountsLate(r.Read(len)) && NotAfter(Current(r), Current(r.Read(len)))
  {
  }

  datatype ReceiverOp = Takes(seg: Segment) | HandsOut(len: nat)

  function ReceiverNext(r: Receiver, op: ReceiverOp): (t: Receiver)
    requires r.Valid()
    ensures t.Valid()
  {
    match op
    case Takes(seg) => r.SegmentReceived(seg)
    case HandsOut(len) => r.Read(len)
  }

  function ReceiverRun(r: Receiver, ops: seq<ReceiverOp>): (t: Receiver)
    requires r.Valid()
    ensures t.Valid()
    decreases |ops|
  {
    if ops == [] then r else ReceiverRun(ReceiverNext(r, ops[0]), ops[1..])
  }

  lemma {:induction false} RunMovesRight(r: Receiver, ops: seq<ReceiverOp>)
    requires CountsLate(r)
    ensures CountsLate(ReceiverRun(r, ops)) && NotAfter(Current(r), Current(ReceiverRun(r, ops)))
    decreases |ops|
  {
    if ops == [] {
    } else {
      match ops[0] {
        case Takes(seg) => DeliveryMovesRight(r, seg);
        case HandsOut(len) => ReadMovesRight(r, len);
      }
      RunMovesRight(ReceiverNext(r, ops[0]), ops[1..]);
    }
  }

  /**
   * What a receiver grants, the number it asks for and the right edge of its window, never moves left: between any two
   * points of any run, whatever segments arrive and whatever is read.
   */
  lemma RightEdgeNeverMovesLeft(capacity: nat, before: seq<ReceiverOp>, after: seq<ReceiverOp>)
    ensures var r := ReceiverRun(NewReceiver(capacity), before); NotAfter(Current(r), Current(ReceiverRun(r, after)))
  {
    RunMovesRight(NewReceiver(capacity), before);
    RunMovesRight(ReceiverRun(NewReceiver(capacity), before), after);
  }

  lemma InOrderAdvances(l: Loop, k: Loop)
    requires l.r.Valid() && k.r.Valid() && InOrder(l)
    requires k.s.isn == l.s.isn && Held(k.s) == Held(l.s) && k.acks == l.acks && NotAfter(Current(l.r), Current(k.r))
    ensures InOrder(k)
  {
  }

  // ----- The sender's side: what it newly sends stays within the grant it holds

  /** Newly sent data ends within the window in force afterwards, counted as at least one. */
  lemma FreshWithinWindow(l: Loop, t: Sender, seg: Segment)
    requires Exact(l) && Inv(t) && t.isn == l.s.isn && WithinWindow(t) && !l.s.fin
    requires Placed(seg, t) && At(seg, l.s.isn) >= l.s.nextSeqno && t.receiveAck <= l.s.nextSeqno
    requires l.r.syn ==> t.receiveAck <= Expected(l.r) && t.receiveAck + t.windowSize <= Current(l.r).edge
    requires !l.r.syn ==> t.receiveAck == 0 && t.windowSize == 0
    ensures WithinRoom(seg, l.s.isn, l.r.reassembler.output.popped + l.r.capacity)
  {
  }

  /** The grant held after reading an acknowledgment that is not older than the one held before is the new one. */
  lemma AckTakesGrant(l: Loop, a: Ack)
    requires Exact(l) && NotAfter(Held(l.s), GrantOf(a, l.s.isn)) && NotAfter(GrantOf(a, l.s.isn), Current(l.r))
    ensures var t := l.s.AckReceived(a.ackno, a.window);
            Held(t) == GrantOf(a, l.s.isn) && t.isn == l.s.isn && t.receiveAck <= l.s.nextSeqno
    ensures WithinWindow(l.s) ==> NonShrinking(l.s, a.ackno, a.window)
  {
    GrantUnwraps(l, a);
    var sent := AckReceivedEmits(l.s, a.ackno, a.window);
  }

  lemma GrantUnwraps(l: Loop, a: Ack)
    requires Exact(l) && NotAfter(Held(l.s), GrantOf(a, l.s.isn)) && NotAfter(GrantOf(a, l.s.isn), Current(l.r))
    ensures Unwrap(a.ackno, l.s.isn, l.s.checkpoint) == GrantOf(a, l.s.isn).ack <= l.s.nextSeqno
  {
    var g := GrantOf(a, l.s.isn);
    WrapAt(a.ackno, l.s.isn);
    if l.r.syn {
      ExpectedWasSent(l);
    }
    UnwrapWrap(g.ack, l.s.isn, l.s.checkpoint);
  }

  /** A sender operation that leaves the sender holding a grant the receiver has made keeps the loop closed. */
  lemma SendingKeepsRoom(l: Loop, op: SenderOp)
    requires Guarded(l) && Enabled(l.s, op) && Short(l.s, op)
    requires var t := SenderInvariant.Step(l.s, op);
             WithinWindow(t) && NotAfter(Held(t), Current(l.r)) && t.receiveAck <= l.s.nextSeqno
    ensures var k := SenderActs(l, op);
            forall seg | seg in k.wire :: WithinRoom(seg, k.s.isn, k.r.reassembler.output.popped + k.r.capacity)
  {
    var t := SenderInvariant.Step(l.s, op);
    StepAdds(l, op);
    forall seg | seg in Sent(l.wire, t.out)
      ensures WithinRoom(seg, t.isn, l.r.reassembler.output.popped + l.r.capacity)
    {
      if seg !in l.wire {
        if l.s.fin {
          FinSendsNoData(l, op, seg);
        } else {
          FreshWithinWindow(l, t, seg);
        }
      }
    }
  }

  /** After the FIN the sender puts no new data on the wire. */
  lemma FinSendsNoData(l: Loop, op: SenderOp, seg: Segment)
    requires Exact(l) && Enabled(l.s, op) && l.s.fin
    requires seg in SenderInvariant.Step(l.s, op).out && seg !in l.wire
    ensures seg.payload == []
  {
    match op {
      case FillOp =>
        var sent := FillWindowEmits(l.s);
      case AckOp(ackno, window) =>
        var sent := AckReceivedEmits(l.s, ackno, window);
      case _ =>
    }
  }

  lemma OrdinaryOpKeepsClosed(l: Loop, op: SenderOp)
    requires Closed(l) && Enabled(l.s, op) && Short(l.s, op) && !op.AckOp?
    ensures Closed(SenderActs(l, op))
  {
    SenderActsExact(l, op);
    StepBound(l.s, op);
    OrdinaryOpKeepsGrant(l.s, op);
    SendingKeepsRoom(l, op);
    InOrderAdvances(l, SenderActs(l, op));
  }

  lemma OrdinaryOpKeepsGrant(s: Sender, op: SenderOp)
    requires Inv(s) && !op.AckOp?
    ensures var t := SenderInvariant.Step(s, op); Held(t) == Held(s) && t.isn == s.isn
  {
    if op.FillOp? {
      var sent := FillWindowEmits(s);
    }
  }

  lemma TailInOrder(l: Loop, k: Loop)
    requires l.r.Valid() && InOrder(l) && l.acks != []
    requires k.acks == l.acks[1..] && k.r == l.r && k.s.isn == l.s.isn && Held(k.s) == GrantOf(l.acks[0], l.s.isn)
    ensures InOrder(k)
  {
  }

  /** The oldest acknowledgment, read by the sender: it takes over the grant and stays within it. */
  lemma AckStaysWithin(l: Loop)
    requires Closed(l) && l.acks != []
    ensures var a := l.acks[0]; var k := SenderActs(l, AckOp(a.ackno, a.window));
            && Held(k.s) == GrantOf(a, l.s.isn) && k.s.isn == l.s.isn && WithinWindow(k.s)
            && forall seg | seg in k.wire :: WithinRoom(seg, k.s.isn, k.r.reassembler.output.popped + k.r.capacity)
  {
    var a := l.acks[0];
    assert a in l.acks;
    OldestAckBound(l, a);
    SendingKeepsRoom(l, AckOp(a.ackno, a.window));
  }

  lemma OldestAckBound(l: Loop, a: Ack)
    requires Closed(l) && a in l.acks
    ensures var t := l.s.AckReceived(a.ackno, a.window);
            && Held(t) == GrantOf(a, l.s.isn) && t.isn == l.s.isn && WithinWindow(t)
            && t.receiveAck <= l.s.nextSeqno && NotAfter(Held(t), Current(l.r))
  {
    AckTakesGrant(l, a);
    AckReceivedBound(l.s, a.ackno, a.window);
  }

  lemma AckKeepsClosed(l: Loop)
    requires Closed(l) && l.acks != []
    ensures Closed(LoopNext(l, DeliversAck))
  {
    LoopNextExact(l, DeliversAck);
    AckStaysWithin(l);
    TailInOrder(l, LoopNext(l, DeliversAck));
  }

  lemma EmittedGrant(l: Loop)
    requires Closed(l) && l.r.Ackno().Some?
    ensures var acks := LoopNext(l, EmitsAck).acks;
            |acks| == |l.acks| + 1 && acks[..|l.acks|] == l.acks && GrantOf(acks[|l.acks|], l.s.isn) == Current(l.r)
  {
    var probe := NewSegment(false, false, []).(header := DEFAULT_HEADER.(seqno := l.r.ackno));
    AtIsPosition(probe, Expected(l.r), l.s.isn);
  }

  lemma EmissionKeepsClosed(l: Loop)
    requires Closed(l) && l.r.Ackno().Some?
    ensures Closed(LoopNext(l, EmitsAck))
  {
    EmittedGrant(l);
    var k := LoopNext(l, EmitsAck);
    var a := k.acks[|l.acks|];
    assert k.acks == l.acks + [a];
    forall b | b in k.acks
      ensures NotAfter(Held(k.s), GrantOf(b, k.s.isn)) && NotAfter(GrantOf(b, k.s.isn), Current(k.r))
    {
      assert b in l.acks || b == a;
    }
    forall i, j | 0 <= i < j < |k.acks|
      ensures NotAfter(GrantOf(k.acks[i], k.s.isn), GrantOf(k.acks[j], k.s.isn))
    {
      assert k.acks[i] in l.acks;
    }
  }

  lemma DeliveryInOrder(l: Loop, seg: Segment)
    requires Exact(l) && InOrder(l)
    ensures InOrder(LoopNext(l, Delivers(seg)))
    ensures var r := LoopNext(l, Delivers(seg)).r;
            r.reassembler.output.popped == l.r.reassembler.output.popped && r.capacity == l.r.capacity
  {
    DeliveryMovesRight(l.r, seg);
    InOrderAdvances(l, LoopNext(l, Delivers(seg)));
  }

  lemma DeliveryKeepsClosed(l: Loop, seg: Segment)
    requires Closed(l) && seg in l.wire
    ensures Closed(LoopNext(l, Delivers(seg)))
  {
    DeliveryKeepsGuarded(l, seg);
    DeliveryInOrder(l, seg);
  }

  /** Acknowledgments reach the sender only through the channel. */
  predicate ThroughChannel(m: LoopMove) {
    m.Sends? ==> !m.op.AckOp?
  }

  lemma LossKeepsClosed(l: Loop, i: nat)
    requires Closed(l) && i < |l.acks|
    ensures Closed(LoopNext(l, LosesAck(i)))
  {
    LoopNextExact(l, LosesAck(i));
    LossKeepsOrder(l, i);
  }

  lemma LossKeepsOrder(l: Loop, i: nat)
    requires l.r.Valid() && InOrder(l) && i < |l.acks|
    ensures InOrder(l.(acks := l.acks[..i] + l.acks[i + 1..]))
  {
    var k := l.(acks := l.acks[..i] + l.acks[i + 1..]);
    forall x, y | 0 <= x < y < |k.acks|
      ensures NotAfter(GrantOf(k.acks[x], k.s.isn), GrantOf(k.acks[y], k.s.isn))
    {
      var x', y' := if x < i then x else x + 1, if y < i then y else y + 1;
      assert k.acks[x] == l.acks[x'] && k.acks[y] == l.acks[y'];
    }
  }

  lemma LoopNextClosed(l: Loop, m: LoopMove)
    requires Closed(l) && LoopAllowed(l, m) && ThroughChannel(m)
    ensures Closed(LoopNext(l, m))
  {
    match m {
      case Sends(op) => OrdinaryOpKeepsClosed(l, op);
      case Delivers(seg) => DeliveryKeepsClosed(l, seg);
      case EmitsAck => if l.r.Ackno().Some? { EmissionKeepsClosed(l); }
      case LosesAck(i) => if i < |l.acks| { LossKeepsClosed(l, i); }
      case DeliversAck => if l.acks != [] { AckKeepsClosed(l); }
      case Reads(len) =>
        ReadKeepsGuarded(l, len);
        ReadMovesRight(l.r, len);
        InOrderAdvances(l, LoopNext(l, m));
    }
  }

  lemma {:induction false} LoopRunClosed(l: Loop, moves: seq<LoopMove>)
    requires Closed(l) && LoopAllowedRun(l, moves) && (forall m | m in moves :: ThroughChannel(m))
    ensures Closed(LoopRun(l, moves))
    decreases |moves|
  {
    if moves == [] {
    } else {
      assert moves[0] in moves;
      LoopNextClosed(l, moves[0]);
      LoopRunClosed(LoopNext(l, moves[0]), moves[1..]);
    }
  }

  ghost predicate Safe(l: Loop)
    requires l.r.Valid()
  {
    && (!l.s.fin ==> l.s.Remain(l.s.Window()) == l.s.Window() - (l.s.nextSeqno - l.s.receiveAck))
    && (forall seg | seg in l.wire :: WithinRoom(seg, l.s.isn, l.r.reassembler.output.popped + l.r.capacity))
    && Held(l.s).edge <= Current(l.r).edge
    && (l.r.syn ==> l.r.ackno == Wrap(Expected(l.r), l.s.isn))
  }

  /**
   * Flow control: over every run whose acknowledgments may be lost but arrive in order, the window subtraction is exact
   * until the FIN is sent, every data byte ever sent lies below bytes_read + capacity, except for a single probe byte
   * right there, the right edge held by the sender is not beyond the receiver's, and acknowledgments stay exact.
   */
  lemma NoOverrun(sendCapacity: nat, recvCapacity: nat, timeout: u16, isn: u32, moves: seq<LoopMove>)
    requires recvCapacity < TWO16
    requires LoopAllowedRun(NewLoop(sendCapacity, recvCapacity, timeout, isn), moves)
    requires forall m | m in moves :: ThroughChannel(m)
    ensures var l := LoopRun(NewLoop(sendCapacity, recvCapacity, timeout, isn), moves);
            Safe(l)
  {
    NewLoopClosed(sendCapacity, recvCapacity, timeout, isn);
    LoopRunClosed(NewLoop(sendCapacity, recvCapacity, timeout, isn), moves);
    GuardedIsSafe(LoopRun(NewLoop(sendCapacity, recvCapacity, timeout, isn), moves));
  }

  lemma NewLoopClosed(sendCapacity: nat, recvCapacity: nat, timeout: u16, isn: u32)
    requires recvCapacity < TWO16
    ensures Closed(NewLoop(sendCapacity, recvCapacity, timeout, isn))
  {
  }

  lemma GuardedIsSafe(l: Loop)
    requires Guarded(l)
    ensures Safe(l)
  {
  }

  // ----- Acknowledgments in any order, as long as each fits when it is read

  /**
   * The acknowledgment, if it is in range at all, leaves the sender with a number and a right edge that the receiver
   * grants, and does not pull that edge below what was sent.
   */
  predicate AckFits(l: Loop, ackno: u32, window: u16)
    requires l.r.Valid()
  {
    var ack := Unwrap(ackno, l.s.isn, l.s.checkpoint);
    ack <= l.s.nextSeqno ==>
      && Max(ack, l.s.receiveAck) <= Current(l.r).ack
      && Max(ack, l.s.receiveAck) + window <= Current(l.r).edge
      && NonShrinking(l.s, ackno, window)
  }

  /** What is held after an acknowledgment stays within what the receiver grants exactly if the acknowledgment fits. */
  lemma AckFitsExactly(l: Loop, ackno: u32, window: u16)
    requires Guarded(l) && Young(l.s)
    ensures var t := l.s.AckReceived(ackno, window);
            AckFits(l, ackno, window) <==> NotAfter(Held(t), Current(l.r)) && WithinWindow(t)
    ensures l.s.AckReceived(ackno, window).receiveAck <= l.s.nextSeqno
  {
    AckBoundExactly(l.s, ackno, window);
    var sent := AckReceivedEmits(l.s, ackno, window);
  }

  lemma SendingKeepsGrant(l: Loop, op: SenderOp)
    requires Guarded(l) && Enabled(l.s, op) && Short(l.s, op) && (op.AckOp? ==> AckFits(l, op.ackno, op.window))
    ensures var t := SenderInvariant.Step(l.s, op);
            WithinWindow(t) && NotAfter(Held(t), Current(l.r)) && t.receiveAck <= l.s.nextSeqno
  {
    if op.AckOp? {
      AckFitsExactly(l, op.ackno, op.window);
    } else {
      StepBound(l.s, op);
      OrdinaryOpKeepsGrant(l.s, op);
    }
  }

  lemma SendingKeepsGuarded(l: Loop, op: SenderOp)
    requires Guarded(l) && Enabled(l.s, op) && Short(l.s, op) && (op.AckOp? ==> AckFits(l, op.ackno, op.window))
    ensures Guarded(SenderActs(l, op))
  {
    SenderActsExact(l, op);
    SendingKeepsGrant(l, op);
    SendingKeepsRoom(l, op);
  }

  lemma DeliveryKeepsGuarded(l: Loop, seg: Segment)
    requires Guarded(l) && seg in l.wire
    ensures Guarded(LoopNext(l, Delivers(seg)))
  {
    GuardedNeverStraddles(l);
    LoopNextExact(l, Delivers(seg));
    DeliveryMovesRight(l.r, seg);
  }

  lemma ReadKeepsGuarded(l: Loop, len: nat)
    requires Guarded(l)
    ensures Guarded(LoopNext(l, Reads(len)))
  {
    var k := LoopNext(l, Reads(len));
    LoopNextExact(l, Reads(len));
    ReadMovesRight(l.r, len);
    forall seg | seg in k.wire
      ensures WithinRoom(seg, k.s.isn, k.r.reassembler.output.popped + k.r.capacity)
    {
      assert WithinRoom(seg, l.s.isn, l.r.reassembler.output.popped + l.r.capacity);
    }
  }

  /** The acknowledgment that the move has the sender read, if any, fits. */
  predicate MoveFits(l: Loop, m: LoopMove)
    requires l.r.Valid()
  {
    && (m.Sends? && m.op.AckOp? ==> AckFits(l, m.op.ackno, m.op.window))
    && (m.DeliversAck? && l.acks != [] ==> AckFits(l, l.acks[0].ackno, l.acks[0].window))
  }

  lemma NextGuarded(l: Loop, m: LoopMove)
    requires Guarded(l) && LoopAllowed(l, m) && MoveFits(l, m)
    ensures Guarded(LoopNext(l, m))
  {
    match m {
      case Sends(op) => SendingKeepsGuarded(l, op);
      case Delivers(seg) => DeliveryKeepsGuarded(l, seg);
      case DeliversAck =>
        if l.acks != [] {
          SendingKeepsGuarded(l, AckOp(l.acks[0].ackno, l.acks[0].window));
        }
      case Reads(len) => ReadKeepsGuarded(l, len);
      case _ =>
    }
  }

  predicate FittingAcks(l: Loop, moves: seq<LoopMove>)
    requires l.s.stream.Valid() && l.r.Valid()
    decreases |moves|
  {
    moves != [] ==> MoveFits(l, moves[0]) && FittingAcks(LoopNext(l, moves[0]), moves[1..])
  }

  lemma {:induction false} RunGuarded(l: Loop, moves: seq<LoopMove>)
    requires Guarded(l) && LoopAllowedRun(l, moves) && FittingAcks(l, moves)
    ensures Guarded(LoopRun(l, moves))
    decreases |moves|
  {
    if moves == [] {
    } else {
      NextGuarded(l, moves[0]);
      RunGuarded(LoopNext(l, moves[0]), moves[1..]);
    }
  }

  /**
   * The flow-control guarantees for acknowledgments in any order, lost and repeated, each of which fits when it is
   * read.
   */
  lemma NoOverrunIfAcksFit(sendCapacity: nat, recvCapacity: nat, timeout: u16, isn: u32, moves: seq<LoopMove>)
    requires recvCapacity < TWO16
    requires LoopAllowedRun(NewLoop(sendCapacity, recvCapacity, timeout, isn), moves)
    requires FittingAcks(NewLoop(sendCapacity, recvCapacity, timeout, isn), moves)
    ensures Safe(LoopRun(NewLoop(sendCapacity, recvCapacity, timeout, isn), moves))
  {
    NewLoopClosed(sendCapacity, recvCapacity, timeout, isn);
    RunGuarded(NewLoop(sendCapacity, recvCapacity, timeout, isn), moves);
    GuardedIsSafe(LoopRun(NewLoop(sendCapacity, recvCapacity, timeout, isn), moves));
  }
}
