/**
 * Progress: when the oldest segment in flight reaches the receiver and the acknowledgment comes back, exactly when is
 * it all acknowledged.
 */
module Progress {
  import opened Common
  import opened Segments
  import opened Blocks
  import opened Reassembly
  import opened SenderInvariant
  import opened ReceiverSpec
  import opened Segmentation
  import opened AckExactness
  import opened AckLag
  import opened FlowControl

  /** The oldest segment in flight starts at or below what the receiver expects. */
  lemma OldestIsExpected(l: Loop)
    requires Closed(l) && l.s.inFlight != []
    ensures var seg := l.s.inFlight[0];
            && seg in l.wire && At(seg, l.s.isn) == Una(l.s) && Una(l.s) + seg.LengthInSequenceSpace() > l.s.receiveAck
            && (if l.r.syn then Una(l.s) <= Expected(l.r) else Una(l.s) == 0)
  {
    AtIsPosition(l.s.inFlight[0], Una(l.s), l.s.isn);
  }

  predicate FitsRoom(l: Loop, seg: Segment) {
    seg.payload != [] ==> End(seg, l.s.isn) <= l.r.reassembler.output.popped + l.r.capacity
  }

  /**
   * The receiver will ask for what follows the segment: it takes it in, has room for its data and, if it carries the
   * FIN, lost no byte so far; or it is done, and its number lies beyond the segment already.
   */
  predicate Welcome(l: Loop, seg: Segment) {
    if l.r.Taking() then FitsRoom(l, seg) && (seg.header.fin ==> Leaked(l.r.reassembler) == 0)
    else l.r.reassembler.head + 2 >= Una(l.s) + seg.LengthInSequenceSpace()
  }

  /** The last piece of the stream, when everything before it was output, leaves nothing pending. */
  lemma LastPieceEmpties(r: Reassembler, stream: seq<byte>, data: seq<byte>, index: nat, eof: bool)
    requires Faithful(r, stream) && Leaked(r) == 0 && index <= r.head && index + |data| == |stream|
    requires Agrees(Block(index, data), stream) && (data != [] ==> |stream| <= r.output.popped + r.output.capacity)
    ensures r.Push(data, index, eof).Empty()
  {
    var p := r.Push(data, index, eof);
    PushFaithful(r, stream, data, index, eof);
    RunEndsWithin(r, stream, data, index);
    PushLeaks(r, data, index, eof);
    if r.head < index + |data| {
      PushReaches(r, data, index, eof);
    }
    NothingBeyond(p.blocks, stream, p.head);
  }

  lemma RunEndsWithin(r: Reassembler, stream: seq<byte>, data: seq<byte>, index: nat)
    requires Faithful(r, stream) && index <= r.head && index + |data| == |stream|
    requires Agrees(Block(index, data), stream) && (data != [] ==> |stream| <= r.output.popped + r.output.capacity)
    ensures HeadRun(r, data, index).End() <= r.output.popped + r.output.capacity
  {
    if r.head < index + |data| {
      InsertAgrees(r.blocks, r.Trim(data, index), stream);
      InsertInFront(r.blocks, r.Trim(data, index));
      var stored := Insert(r.blocks, r.Trim(data, index));
      assert stored[0] in stored;
    }
  }

  lemma {:induction false} NothingBeyond(blocks: seq<Block>, stream: seq<byte>, head: nat)
    requires AllAgree(blocks, stream) && AllAbove(blocks, head) && head >= |stream|
    ensures Total(blocks) == 0
  {
    if blocks != [] {
      assert blocks[0] in blocks;
      NothingBeyond(blocks[1..], stream, head);
    }
  }

  /** What fits is output; the FIN then finds nothing pending exactly if no byte was lost. */
  lemma OldestAccepted(l: Loop)
    requires Closed(l) && l.s.inFlight != [] && l.r.Taking() && l.r.syn && !l.s.inFlight[0].header.syn
    requires FitsRoom(l, l.s.inFlight[0])
    ensures var seg := l.s.inFlight[0]; var a := l.r.Accept(seg, false);
            a.reassembler.head >= End(seg, l.s.isn)
            && (seg.header.fin ==> (a.reassembler.Empty() <==> Leaked(l.r.reassembler) == 0))
  {
    var seg, r := l.s.inFlight[0], l.r.reassembler;
    OldestIndex(l);
    var index := l.r.IndexOf(seg.header.seqno);
    if r.head < index + |seg.payload| {
      PushReaches(r, seg.payload, index, seg.header.fin);
    }
    if seg.header.fin {
      PushLeaks(r, seg.payload, index, true);
      if Leaked(r) == 0 {
        LastPieceEmpties(r, l.s.stream.accepted, seg.payload, index, true);
      }
    }
  }

  /** What does not fit is cut off where the room ends, and leaks, or dropped. */
  lemma OldestTruncated(l: Loop)
    requires Closed(l) && l.s.inFlight != [] && l.r.Taking() && l.r.syn && !l.s.inFlight[0].header.syn
    requires !FitsRoom(l, l.s.inFlight[0])
    ensures var seg := l.s.inFlight[0]; var a := l.r.Accept(seg, false);
            && a.reassembler.head < End(seg, l.s.isn)
            && (a.reassembler.Empty() ==> a.reassembler.head == Start(seg, l.s.isn) && l.r.reassembler.Empty())
  {
    OldestIndex(l);
    CutOrDropped(l.r.reassembler, l.s.inFlight[0].payload, l.r.IndexOf(l.s.inFlight[0].header.seqno),
                 l.s.inFlight[0].header.fin);
  }

  lemma CutOrDropped(r: Reassembler, data: seq<byte>, index: nat, eof: bool)
    requires r.Valid() && index <= r.head && index + |data| > r.output.popped + r.output.capacity && data != []
    ensures var p := r.Push(data, index, eof);
            p.head < index + |data| && (p.Empty() ==> p.head == index && r.Empty())
  {
    if index < r.head + r.output.capacity {
      InsertInFront(r.blocks, r.Trim(data, index));
      PushLeaks(r, data, index, eof);
    }
  }

  lemma OldestIndex(l: Loop)
    requires Closed(l) && l.s.inFlight != [] && l.r.Taking() && l.r.syn && !l.s.inFlight[0].header.syn
    ensures var seg := l.s.inFlight[0]; var index := l.r.IndexOf(seg.header.seqno);
            && index == Start(seg, l.s.isn) <= l.r.reassembler.head
            && Agrees(Block(index, seg.payload), l.s.stream.accepted)
            && (seg.header.fin ==> index + |seg.payload| == |l.s.stream.accepted|)
  {
    var seg := l.s.inFlight[0];
    OldestIsExpected(l);
    assert Placed(seg, l.s);
    IndexIsStart(l, seg);
  }

  /** After its delivery the receiver asks for what follows the oldest segment in flight exactly if it was welcome. */
  lemma OldestDelivered(l: Loop)
    requires Closed(l) && l.s.inFlight != []
    ensures var seg := l.s.inFlight[0]; var t := l.r.SegmentReceived(seg);
            && t.syn && (Expected(t) >= Una(l.s) + seg.LengthInSequenceSpace() <==> Welcome(l, seg))
            && (l.r.Taking() && FitsRoom(l, seg) ==> Expected(t) >= Una(l.s) + |seg.payload|)
  {
    var seg := l.s.inFlight[0];
    OldestIsExpected(l);
    assert Placed(seg, l.s);
    if l.r.syn && !seg.header.syn {
      if !l.r.Taking() {
        DoneStays(l.r, seg);
      } else {
        OldestTaken(l);
      }
    }
  }

  /** A receiver that is done counts the FIN and changes nothing else. */
  lemma DoneStays(r: Receiver, seg: Segment)
    requires r.Valid() && !r.Taking()
    ensures var t := r.SegmentReceived(seg);
            t.reassembler.head == r.reassembler.head && (!seg.header.syn ==> !t.finNotCount) && (r.syn ==> t.syn)
  {
  }

  lemma OldestTaken(l: Loop)
    requires Closed(l) && l.s.inFlight != [] && l.r.Taking() && l.r.syn && !l.s.inFlight[0].header.syn
    ensures var seg := l.s.inFlight[0]; var t := l.r.SegmentReceived(seg);
            && t.syn && (Expected(t) >= Una(l.s) + seg.LengthInSequenceSpace() <==> Welcome(l, seg))
            && (FitsRoom(l, seg) ==> Expected(t) >= Una(l.s) + |seg.payload|)
  {
    var seg := l.s.inFlight[0];
    TakenHead(l.r, seg);
    if FitsRoom(l, seg) {
      OldestAccepted(l);
      FittingExpected(l);
    } else {
      OldestTruncated(l);
      TruncatedExpected(l);
    }
  }

  lemma FittingExpected(l: Loop)
    requires Closed(l) && l.s.inFlight != [] && l.r.Taking() && l.r.syn && !l.s.inFlight[0].header.syn
    requires FitsRoom(l, l.s.inFlight[0])
    requires var seg := l.s.inFlight[0]; var a := l.r.Accept(seg, false).reassembler;
             a.head >= End(seg, l.s.isn) && (seg.header.fin ==> (a.Empty() <==> Leaked(l.r.reassembler) == 0))
    ensures var seg := l.s.inFlight[0]; var t := l.r.SegmentReceived(seg);
            && (Expected(t) >= Una(l.s) + seg.LengthInSequenceSpace() <==> Welcome(l, seg))
            && Expected(t) >= Una(l.s) + |seg.payload|
  {
    var seg := l.s.inFlight[0];
    OldestIsExpected(l);
    assert Placed(seg, l.s);
    TakenHead(l.r, seg);
    AcceptBasic(l, seg);
  }

  lemma TruncatedExpected(l: Loop)
    requires Closed(l) && l.s.inFlight != [] && l.r.Taking() && l.r.syn && !l.s.inFlight[0].header.syn
    requires !FitsRoom(l, l.s.inFlight[0])
    requires var seg := l.s.inFlight[0]; var a := l.r.Accept(seg, false).reassembler;
             a.head < End(seg, l.s.isn) && (a.Empty() ==> a.head == Start(seg, l.s.isn) && l.r.reassembler.Empty())
    ensures var seg := l.s.inFlight[0];
            Expected(l.r.SegmentReceived(seg)) < Una(l.s) + seg.LengthInSequenceSpace()
  {
    OldestIsExpected(l);
    TakenHead(l.r, l.s.inFlight[0]);
  }

  /** What a connected receiver expects after taking a segment in. */
  lemma TakenHead(r: Receiver, seg: Segment)
    requires r.Valid() && r.syn && r.Taking() && !seg.header.syn && (r.finNotCount || r.fin)
    ensures var t := r.SegmentReceived(seg); var a := r.Accept(seg, false);
            && t.syn && t.reassembler.head == a.reassembler.head
            && (r.finNotCount ==> (t.finNotCount <==> !((r.fin || seg.header.fin) && a.reassembler.Empty())))
  {
    PlainDelivery(r, seg);
  }

  /** The acknowledgment the receiver would send now, read by the sender, takes it to what the receiver expects. */
  lemma AckBringsExpected(l: Loop)
    requires Closed(l) && l.r.Ackno().Some?
    ensures l.s.AckReceived(l.r.ackno, l.r.WindowSize() % TWO16).receiveAck == Expected(l.r)
  {
    EmittedGrant(l);
    AckTakesGrant(l, Ack(l.r.ackno, l.r.WindowSize() % TWO16));
  }

  /**
   * Progress: after any run whose acknowledgments arrive in order, deliver the oldest segment in flight, and then the
   * receiver's acknowledgment. All of that segment is acknowledged, something of which was not before, if and only if
   * it is welcome; and all of its data is if the receiver takes it in and has room for it.
   */
  lemma DeliveryMakesProgress(sendCapacity: nat, recvCapacity: nat, timeout: u16, isn: u32, moves: seq<LoopMove>)
    requires recvCapacity < TWO16
    requires LoopAllowedRun(NewLoop(sendCapacity, recvCapacity, timeout, isn), moves)
    requires forall m | m in moves :: ThroughChannel(m)
    requires var l := LoopRun(NewLoop(sendCapacity, recvCapacity, timeout, isn), moves);
             l.s.inFlight != [] && l.r.SegmentReceived(l.s.inFlight[0]).Ackno().Some?
    ensures Progresses(LoopRun(NewLoop(sendCapacity, recvCapacity, timeout, isn), moves))
  {
    NewLoopClosed(sendCapacity, recvCapacity, timeout, isn);
    LoopRunClosed(NewLoop(sendCapacity, recvCapacity, timeout, isn), moves);
    ClosedProgress(LoopRun(NewLoop(sendCapacity, recvCapacity, timeout, isn), moves));
  }

  ghost predicate Progresses(l: Loop)
    requires l.s.stream.Valid() && l.r.Valid() && l.s.inFlight != []
  {
    var seg := l.s.inFlight[0];
    var r := l.r.SegmentReceived(seg);
    var ack := l.s.AckReceived(r.ackno, r.WindowSize() % TWO16).receiveAck;
    && Una(l.s) + seg.LengthInSequenceSpace() > l.s.receiveAck
    && (ack >= Una(l.s) + seg.LengthInSequenceSpace() <==> Welcome(l, seg))
    && (l.r.Taking() && FitsRoom(l, seg) ==> ack >= Una(l.s) + |seg.payload|)
  }

  lemma ClosedProgress(l: Loop)
    requires Closed(l) && l.s.inFlight != [] && l.r.SegmentReceived(l.s.inFlight[0]).Ackno().Some?
    ensures Progresses(l)
  {
    var seg := l.s.inFlight[0];
    OldestIsExpected(l);
    OldestDelivered(l);
    DeliveryKeepsClosed(l, seg);
    AckBringsExpected(l.(r := l.r.SegmentReceived(seg)));
  }
}
