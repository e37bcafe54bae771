/**
 * What is acknowledged was received: however acknowledgments are lost, repeated and reordered, and whatever windows
 * they carry, as long as none claims more than was received.
 */
module Delivery {
  import opened Common
  import opened WrappingIntegers
  import opened SenderSpec
  import opened SenderInvariant
  import opened ReceiverSpec
  import opened Segments
  import opened Segmentation
  import opened AckExactness
  import opened AckLag

  /** The most that can be acknowledged of what the receiver has. */
  function Limit(r: Receiver): nat {
    if r.syn then Expected(r) else 0
  }

  function Claimed(ackno: u32, isn: u32): nat {
    (ackno - isn) % TWO32
  }

  /** An acknowledgment that claims no more than the limit does not take the sender beyond it. */
  lemma ReadingStaysWithin(s: Sender, ackno: u32, window: u16, limit: nat)
    requires Inv(s) && Young(s) && s.nextSeqno < TWO31
    requires s.receiveAck <= limit < TWO31 && Claimed(ackno, s.isn) <= limit
    ensures s.AckReceived(ackno, window).receiveAck <= limit
  {
    WrapAt(ackno, s.isn);
    UnwrapWrap(Claimed(ackno, s.isn), s.isn, s.checkpoint);
    var sent := AckReceivedEmits(s, ackno, window);
  }

  lemma DeliveryRaisesLimit(r: Receiver, seg: Segment)
    requires r.Valid()
    ensures Limit(r) <= Limit(r.SegmentReceived(seg))
  {
  }

  // ----- One sender and one receiver

  ghost predicate Backed(l: Loop, lag: nat) {
    && Lagging(l, lag) && l.s.receiveAck <= Limit(l.r)
    && forall a | a in l.acks :: Claimed(a.ackno, l.s.isn) <= Limit(l.r)
  }

  /** An acknowledgment from elsewhere than the queue, if the move reads one, claims no more than was received. */
  predicate ClaimsWithin(l: Loop, m: LoopMove) {
    m.Sends? && m.op.AckOp? ==> Claimed(m.op.ackno, l.s.isn) <= Limit(l.r)
  }

  lemma LimitIsShort(l: Loop)
    requires Basic(l)
    ensures Limit(l.r) <= |l.s.stream.accepted| + 2 < TWO31 && l.s.nextSeqno < TWO31
  {
  }

  lemma SendingKeepsAck(s: Sender, op: SenderOp)
    requires Inv(s) && !op.AckOp?
    ensures SenderInvariant.Step(s, op).receiveAck == s.receiveAck
  {
    if op.FillOp? {
      var sent := FillWindowEmits(s);
    }
  }

  lemma SendingStaysBacked(l: Loop, op: SenderOp, lag: nat)
    requires Backed(l, lag) && Enabled(l.s, op) && Short(l.s, op)
    requires op.AckOp? ==> Claimed(op.ackno, l.s.isn) <= Limit(l.r)
    ensures Backed(SenderActs(l, op), lag)
  {
    SendingLag(l, op, lag);
    StepAdds(l, op);
    LimitIsShort(l);
    if op.AckOp? {
      ReadingStaysWithin(l.s, op.ackno, op.window, Limit(l.r));
    } else {
      SendingKeepsAck(l.s, op);
    }
  }

  /** What the receiver tells never claims more than it has. */
  lemma ToldIsWithin(l: Loop, lag: nat)
    requires Lagging(l, lag) && l.r.syn
    ensures Claimed(l.r.ackno, l.s.isn) <= Limit(l.r)
  {
    LimitIsShort(l);
    var probe := NewSegment(false, false, []).(header := DEFAULT_HEADER.(seqno := l.r.ackno));
    AtIsPosition(probe, Expected(l.r) - lag, l.s.isn);
  }

  lemma NextBacked(l: Loop, m: LoopMove, lag: nat) returns (later: nat)
    requires Backed(l, lag) && LoopAllowed(l, m) && ClaimsWithin(l, m)
    ensures Backed(LoopNext(l, m), later)
  {
    later := NextLag(l, m, lag);
    IsnStays(l, m);
    match m {
      case Sends(op) => SendingStaysBacked(l, op, lag);
      case Delivers(seg) => DeliveryRaisesLimit(l.r, seg);
      case EmitsAck =>
        if l.r.Ackno().Some? {
          ToldIsWithin(l, lag);
        }
      case LosesAck(i) =>
      case DeliversAck =>
        if l.acks != [] {
          SendingStaysBacked(l, AckOp(l.acks[0].ackno, l.acks[0].window), lag);
        }
      case Reads(len) =>
    }
  }

  predicate ClaimingWithin(l: Loop, moves: seq<LoopMove>)
    requires l.s.stream.Valid() && l.r.Valid()
    decreases |moves|
  {
    moves != [] ==> ClaimsWithin(l, moves[0]) && ClaimingWithin(LoopNext(l, moves[0]), moves[1..])
  }

  lemma {:induction false} RunBacked(l: Loop, moves: seq<LoopMove>, lag: nat) returns (later: nat)
    requires Backed(l, lag) && LoopAllowedRun(l, moves) && ClaimingWithin(l, moves)
    ensures Backed(LoopRun(l, moves), later)
    decreases |moves|
  {
    if moves == [] {
      later := lag;
    } else {
      var next := NextBacked(l, moves[0], lag);
      later := RunBacked(LoopNext(l, moves[0]), moves[1..], next);
    }
  }

  predicate AllReceived(l: Loop) {
    l.s.fin && l.s.receiveAck == l.s.nextSeqno ==>
      l.r.reassembler.output.accepted == l.s.stream.accepted && !l.r.finNotCount
  }

  /**
   * Over every run in which acknowledgments claim no more than the receiver has when they are read: once the sender's
   * FIN and all before it are acknowledged, the receiver has output the whole stream, whatever FINs arrived when.
   */
  lemma AllAcknowledgedMeansReceived(sendCapacity: nat, recvCapacity: nat, timeout: u16, isn: u32, moves: seq<LoopMove>)
    requires recvCapacity < TWO16
    requires LoopAllowedRun(NewLoop(sendCapacity, recvCapacity, timeout, isn), moves)
    requires ClaimingWithin(NewLoop(sendCapacity, recvCapacity, timeout, isn), moves)
    ensures AllReceived(LoopRun(NewLoop(sendCapacity, recvCapacity, timeout, isn), moves))
  {
    NewLoopExact(sendCapacity, recvCapacity, timeout, isn);
    var lag := RunBacked(NewLoop(sendCapacity, recvCapacity, timeout, isn), moves, 0);
    BackedIsReceived(LoopRun(NewLoop(sendCapacity, recvCapacity, timeout, isn), moves), lag);
  }

  lemma BackedIsReceived(l: Loop, lag: nat)
    requires Backed(l, lag)
    ensures AllReceived(l)
  {
  }
}
