/**
 * When the acknowledgment number is exact. The receiver advances it only for the segment that starts at the head, so a
 * segment that brings bytes on both sides of the head moves the head without it, and it stays behind for good.
 */
module AckLag {
  import opened Common
  import opened WrappingIntegers
  import opened Streams
  import opened Segments
  import opened Blocks
  import opened Reassembly
  import opened SenderInvariant
  import opened ReceiverSpec
  import opened EndToEnd
  import opened Segmentation
  import opened AckExactness

  /** The acknowledgment number is `lag` behind what the receiver should ask for next. */
  predicate Behind(r: Receiver, isn: u32, lag: nat) {
    if r.syn then lag < Expected(r) && r.ackno == Wrap(Expected(r) - lag, isn) else lag == 0
  }

  /** After the SYN the number counts it, every byte written to the output and, once it is counted, the FIN. */
  predicate ExactNumber(r: Receiver, isn: u32) {
    r.syn ==> r.ackno == Wrap(1 + r.reassembler.output.BytesWritten() + (if r.finNotCount then 0 else 1), isn)
  }

  /** The segment has bytes below the head and bytes that the output has room for above it. */
  predicate Crosses(l: Loop, seg: Segment) {
    var r := l.r.reassembler;
    Start(seg, l.s.isn) < r.head < End(seg, l.s.isn) && r.head < r.output.popped + l.r.capacity
  }

  /** The receiver takes in such a segment. */
  predicate TakesCrossing(l: Loop, seg: Segment) {
    l.r.syn && l.r.Taking() && Crosses(l, seg)
  }

  ghost predicate Lagging(l: Loop, lag: nat) {
    Basic(l) && Consistent(l.r, l.s) && Behind(l.r, l.s.isn, lag)
  }

  /** How a delivery moves the head, by where the segment lies. */
  lemma HeadMoves(l: Loop, seg: Segment)
    requires Basic(l) && seg in l.wire && l.r.syn
    ensures var r := l.r.reassembler;
            var p := r.Push(seg.payload, l.r.IndexOf(seg.header.seqno), seg.header.fin);
            p.head >= r.head && (Start(seg, l.s.isn) != r.head ==> (p.head > r.head <==> Crosses(l, seg)))
  {
    var r, index := l.r.reassembler, l.r.IndexOf(seg.header.seqno);
    assert Placed(seg, l.s);
    IndexIsStart(l, seg);
    if index < r.head < index + |seg.payload| {
      PushReaches(r, seg.payload, index, seg.header.fin);
    } else if index != r.head {
      PushOffHead(r, seg.payload, index, seg.header.fin);
    }
  }

  /** The number is expected exactly if the segment starts `lag` below the head. */
  lemma ExpectedAtLag(l: Loop, seg: Segment, lag: nat)
    requires Lagging(l, lag) && seg in l.wire && l.r.syn && l.r.finNotCount
    ensures l.r.ackno == seg.header.seqno <==> Start(seg, l.s.isn) == l.r.reassembler.head - lag
  {
    assert Placed(seg, l.s);
    WrapSeparates(At(seg, l.s.isn), Expected(l.r) - lag, l.s.isn);
  }

  /** A lag never shrinks, and arises exactly when a crossing segment is taken in. */
  lemma AcceptLag(l: Loop, seg: Segment, lag: nat) returns (later: nat)
    requires Lagging(l, lag) && seg in l.wire && l.r.syn && l.r.finNotCount
    ensures Behind(l.r.Accept(seg, false), l.s.isn, later) && later >= lag
    ensures later == 0 <==> lag == 0 && !Crosses(l, seg)
  {
    HeadMoves(l, seg);
    ExpectedAtLag(l, seg, lag);
    later := AdvanceLag(l.r, seg, l.s.isn, lag);
  }

  /** The number advances with the head if it is the segment's, and falls back by as much if it is not. */
  lemma AdvanceLag(r: Receiver, seg: Segment, isn: u32, lag: nat) returns (later: nat)
    requires r.Valid() && r.syn && Behind(r, isn, lag)
    ensures Behind(r.Accept(seg, false), isn, later)
    ensures var advance := r.Accept(seg, false).reassembler.head - r.reassembler.head;
            later == lag + (if r.ackno == seg.header.seqno then 0 else advance)
    ensures later >= lag
  {
    var a := r.Accept(seg, false);
    var advance := a.reassembler.head - r.reassembler.head;
    later := if r.ackno == seg.header.seqno then lag else lag + advance;
    assert Expected(a) == Expected(r) + advance;
    PlusWrap(Expected(r) - lag, advance, isn);
  }

  /** One delivery to an exact receiver leaves the number exact if and only if the segment does not cross the head. */
  lemma AckFollowsExactly(l: Loop, seg: Segment)
    requires Basic(l) && Counting(l.r, l.s) && seg in l.wire && l.r.syn && l.r.finNotCount
    ensures var a := l.r.Accept(seg, false);
            a.ackno == Wrap(1 + a.reassembler.head, l.s.isn) <==> !Crosses(l, seg)
  {
    var a := l.r.Accept(seg, false);
    var later := AcceptLag(l, seg, 0);
    AcceptBasic(l, seg);
    WrapSeparates(Expected(a) - later, Expected(a), l.s.isn);
  }

  lemma AcceptBasic(l: Loop, seg: Segment)
    requires Basic(l) && seg in l.wire && l.r.syn
    ensures Tracks(l.r.Accept(seg, seg.header.syn), l.s.isn, l.s.stream)
  {
    assert Placed(seg, l.s);
    AcceptTracks(l.r, seg, At(seg, l.s.isn), l.s.isn, l.s.stream);
  }

  lemma CloseLag(r: Receiver, fin: bool, isn: u32, lag: nat)
    requires Behind(r, isn, lag) && (!r.finNotCount ==> r.fin && r.reassembler.Empty())
    ensures Behind(r.Close(fin), isn, lag)
  {
    if r.syn {
      PlusWrap(Expected(r) - lag, 1, isn);
    }
  }

  lemma GreetLag(l: Loop, seg: Segment)
    requires Lagging(l, 0) && seg in l.wire && seg.header.syn && !l.r.syn
    ensures var a := l.r.Greet(seg).Accept(seg, true);
            Behind(a, l.s.isn, 0) && a.syn && a.finNotCount && a.fin == l.r.fin
  {
    assert Placed(seg, l.s);
    WrapZero(l.s.isn);
    PlusWrap(0, 1, l.s.isn);
  }

  lemma DeliveryBasic(l: Loop, seg: Segment)
    requires Basic(l) && Consistent(l.r, l.s) && seg in l.wire
    ensures var k := l.(r := l.r.SegmentReceived(seg)); Basic(k) && Consistent(k.r, k.s)
  {
    assert Placed(seg, l.s);
    DeliverBasic(l, seg);
  }

  lemma DeliverLag(l: Loop, seg: Segment, lag: nat) returns (later: nat)
    requires Lagging(l, lag) && seg in l.wire
    ensures Lagging(l.(r := l.r.SegmentReceived(seg)), later) && later >= lag
    ensures later == 0 <==> lag == 0 && !TakesCrossing(l, seg)
  {
    DeliveryBasic(l, seg);
    assert Placed(seg, l.s);
    later := lag;
    if seg.header.syn {
      if !l.r.syn {
        GreetLag(l, seg);
        CloseLag(l.r.Greet(seg).Accept(seg, true), seg.header.fin, l.s.isn, 0);
      }
    } else if l.r.Taking() && l.r.syn {
      later := AcceptLag(l, seg, lag);
      CloseLag(l.r.Accept(seg, false), seg.header.fin, l.s.isn, later);
    } else {
      CloseLag(l.r, seg.header.fin, l.s.isn, lag);
    }
  }

  // ----- Runs

  lemma SendingLag(l: Loop, op: SenderOp, lag: nat)
    requires Lagging(l, lag) && Enabled(l.s, op) && Short(l.s, op)
    ensures Lagging(SenderActs(l, op), lag)
  {
    SenderActsBasic(l, op);
    StepAdds(l, op);
  }

  lemma NextLag(l: Loop, m: LoopMove, lag: nat) returns (later: nat)
    requires Lagging(l, lag) && LoopAllowed(l, m)
    ensures Lagging(LoopNext(l, m), later) && later >= lag
    ensures later == 0 <==> lag == 0 && (m.Delivers? ==> !TakesCrossing(l, m.seg))
  {
    later := lag;
    match m {
      case Sends(op) => SendingLag(l, op, lag);
      case Delivers(seg) => later := DeliverLag(l, seg, lag);
      case DeliversAck =>
        if l.acks != [] {
          SendingLag(l, AckOp(l.acks[0].ackno, l.acks[0].window), lag);
        }
      case _ =>
    }
  }

  /** At no delivery of the run does the receiver take in a segment that crosses its head. */
  predicate NeverCrossing(l: Loop, moves: seq<LoopMove>)
    requires l.s.stream.Valid() && l.r.Valid()
    decreases |moves|
  {
    moves != [] ==>
      (moves[0].Delivers? ==> !TakesCrossing(l, moves[0].seg)) && NeverCrossing(LoopNext(l, moves[0]), moves[1..])
  }

  lemma {:induction false} RunLag(l: Loop, moves: seq<LoopMove>, lag: nat) returns (later: nat)
    requires Lagging(l, lag) && LoopAllowedRun(l, moves)
    ensures Lagging(LoopRun(l, moves), later) && later >= lag && LoopRun(l, moves).s.isn == l.s.isn
    ensures later == 0 <==> lag == 0 && NeverCrossing(l, moves)
    decreases |moves|
  {
    if moves == [] {
      later := lag;
    } else {
      var next := NextLag(l, moves[0], lag);
      IsnStays(l, moves[0]);
      later := RunLag(LoopNext(l, moves[0]), moves[1..], next);
    }
  }

  /**
   * Ack exactness: after any run, with segments lost, repeated and reordered and acknowledgments of any content, the
   * acknowledgment number is the wrapped count of SYN, bytes written and, at most once, the FIN, if and only if no
   * segment that crosses the head was ever taken in.
   */
  lemma AckIsExact(sendCapacity: nat, recvCapacity: nat, timeout: u16, isn: u32, moves: seq<LoopMove>)
    requires recvCapacity < TWO16
    requires LoopAllowedRun(NewLoop(sendCapacity, recvCapacity, timeout, isn), moves)
    ensures var r := LoopRun(NewLoop(sendCapacity, recvCapacity, timeout, isn), moves).r;
            ExactNumber(r, isn) <==> NeverCrossing(NewLoop(sendCapacity, recvCapacity, timeout, isn), moves)
  {
    var l := NewLoop(sendCapacity, recvCapacity, timeout, isn);
    NewLoopExact(sendCapacity, recvCapacity, timeout, isn);
    var later := RunLag(l, moves, 0);
    ExactWithoutLag(LoopRun(l, moves), later);
  }

  lemma ExactWithoutLag(l: Loop, lag: nat)
    requires Lagging(l, lag)
    ensures ExactNumber(l.r, l.s.isn) <==> lag == 0
  {
    if l.r.syn {
      WrapSeparates(Expected(l.r) - lag, Expected(l.r), l.s.isn);
    }
  }

  /** The next number expected, once there was a SYN, except that a number that wraps to 0 is not told. */
  predicate TellsExpected(r: Receiver, isn: u32) {
    r.Ackno() == if !r.syn || (isn + Expected(r)) % TWO32 == 0 then None else Some(Wrap(Expected(r), isn))
  }

  lemma AcknoOfExact(r: Receiver, isn: u32)
    requires r.Valid() && ExactNumber(r, isn)
    ensures TellsExpected(r, isn)
  {
  }

  /** Over the same runs, `ackno()` is empty exactly before the SYN and whenever the next number expected wraps to 0. */
  lemma AcknoTellsExpected(sendCapacity: nat, recvCapacity: nat, timeout: u16, isn: u32, moves: seq<LoopMove>)
    requires recvCapacity < TWO16
    requires LoopAllowedRun(NewLoop(sendCapacity, recvCapacity, timeout, isn), moves)
    requires NeverCrossing(NewLoop(sendCapacity, recvCapacity, timeout, isn), moves)
    ensures TellsExpected(LoopRun(NewLoop(sendCapacity, recvCapacity, timeout, isn), moves).r, isn)
  {
    AckIsExact(sendCapacity, recvCapacity, timeout, isn, moves);
    AcknoOfExact(LoopRun(NewLoop(sendCapacity, recvCapacity, timeout, isn), moves).r, isn);
  }

  // ----- What keeps segments from crossing

  /** With everything on the boundaries of one fixed segmentation, no segment lies across the head. */
  lemma ExactNeverCrosses(l: Loop, seg: Segment)
    requires Exact(l) && seg in l.wire
    ensures !Crosses(l, seg)
  {
    assert Misses(l.r.reassembler.head, seg, l.s.isn);
  }

  lemma {:induction false} UndamagedRunNeverCrosses(l: Loop, moves: seq<LoopMove>)
    requires Exact(l) && LoopAllowedRun(l, moves) && NeverDamaging(l, moves)
    ensures NeverCrossing(l, moves)
    decreases |moves|
  {
    if moves == [] {
    } else {
      if moves[0].Delivers? {
        ExactNeverCrosses(l, moves[0].seg);
      }
      LoopNextExact(l, moves[0]);
      UndamagedRunNeverCrosses(LoopNext(l, moves[0]), moves[1..]);
    }
  }

  /**
   * Only truncation makes segments cross: while every write to the output takes all it is given, the number is exact.
   */
  lemma UntruncatedIsExact(sendCapacity: nat, recvCapacity: nat, timeout: u16, isn: u32, moves: seq<LoopMove>)
    requires recvCapacity < TWO16
    requires LoopAllowedRun(NewLoop(sendCapacity, recvCapacity, timeout, isn), moves)
    requires NeverDamaging(NewLoop(sendCapacity, recvCapacity, timeout, isn), moves)
    ensures var r := LoopRun(NewLoop(sendCapacity, recvCapacity, timeout, isn), moves).r;
            ExactNumber(r, isn)
  {
    NewLoopExact(sendCapacity, recvCapacity, timeout, isn);
    UndamagedRunNeverCrosses(NewLoop(sendCapacity, recvCapacity, timeout, isn), moves);
    AckIsExact(sendCapacity, recvCapacity, timeout, isn, moves);
  }

  /** Bytes 1, 2 and 3 of a stream with initial number 0, in one segment. */
  const THREE_BYTES: Segment := Segment(DEFAULT_HEADER.(seqno := 1), [1, 2, 3])

  /** A receiver with room for two bytes that has taken in the SYN, and then the three bytes. */
  const GREETED: Receiver := NewReceiver(2).(syn := true, ackno := 1)

  const CUT_SHORT: Receiver :=
    GREETED.(ackno := 3, reassembler := Reassembler([], 1, 2, false, Stream(2, [1, 2], 0, false, false)))

  lemma ExampleGreets()
    ensures NewReceiver(2).SegmentReceived(NewSegment(true, false, [])) == GREETED
  {
  }

  lemma ExampleCutsShort()
    ensures GREETED.SegmentReceived(THREE_BYTES) == CUT_SHORT
  {
    var r := GREETED.reassembler;
    assert GREETED.IndexOf(1) == 0;
    assert r.Push([1, 2, 3], 0, false) == CUT_SHORT.reassembler by {
      assert Insert(r.blocks, Block(0, [1, 2, 3])) == [Block(0, [1, 2, 3])];
      assert [] + [1, 2, 3][..2] == [1, 2];
    }
  }

  /** A segment without SYN to a connected receiver that is not done yet: push it, then close. */
  lemma PlainDelivery(r: Receiver, seg: Segment)
    requires r.Valid() && r.syn && r.Taking() && !seg.header.syn
    ensures r.SegmentReceived(seg)
         == r.PushAt(seg, r.IndexOf(seg.header.seqno), r.ackno == seg.header.seqno).Close(seg.header.fin)
  {
  }

  const READ_OUT: Receiver :=
    CUT_SHORT.(reassembler := Reassembler([], 1, 2, false, Stream(2, [1, 2], 2, false, false)))

  lemma ExampleReads()
    ensures CUT_SHORT.Read(2) == READ_OUT
  {
  }

  lemma ReadOutFacts()
    ensures READ_OUT.Valid() && READ_OUT.IndexOf(1) == 0 && Faithful(READ_OUT.reassembler, [1, 2, 3])
  {
    assert [1, 2, 3][..2] == [1, 2];
    IndexOfPosition(READ_OUT, 1, 1);
  }

  lemma HeadReachesThree(r: Reassembler)
    requires Faithful(r, [1, 2, 3]) && r.head == r.output.popped == r.output.capacity == 2
    ensures r.Push([1, 2, 3], 0, false).head == 3
  {
    PushReaches(r, [1, 2, 3], 0, false);
    PushFaithful(r, [1, 2, 3], [1, 2, 3], 0, false);
  }

  lemma ExampleCrosses()
    ensures READ_OUT.SegmentReceived(THREE_BYTES).reassembler.head == 3
    ensures READ_OUT.SegmentReceived(THREE_BYTES).ackno == 3
  {
    ReadOutFacts();
    PlainDelivery(READ_OUT, THREE_BYTES);
    HeadReachesThree(READ_OUT.reassembler);
  }

  /** Instance: with room for two bytes the third is cut off; its retransmission moves the head but not the number. */
  lemma CrossingExample()
    ensures var r := NewReceiver(2).SegmentReceived(NewSegment(true, false, [])).SegmentReceived(THREE_BYTES).Read(2);
            r.reassembler.head == 2 && r.ackno == 3
            && r.SegmentReceived(THREE_BYTES).reassembler.head == 3 && r.SegmentReceived(THREE_BYTES).ackno == 3
  {
    ExampleGreets();
    ExampleCutsShort();
    ExampleReads();
    ExampleCrosses();
  }
}
