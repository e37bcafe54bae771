/**
 * When a FIN can end the inbound stream early. The receiver declares the end as soon as it has seen a FIN and nothing
 * is pending. A FIN that does not bring the last byte itself, because it has no payload or lies beyond the window and
 * is dropped, misleads it exactly if the end is not secure when it arrives.
 */
module EarlyFin {
  import opened Common
  import opened WrappingIntegers
  import opened Streams
  import opened Segments
  import opened Blocks
  import opened Reassembly
  import opened Confluence
  import opened SenderSpec
  import opened SenderInvariant
  import opened ReceiverSpec
  import opened Segmentation
  import opened AckExactness
  import opened AckLag
  import opened CompleteOnClose

  // ----- Every byte cut off the stream is in a segment on the wire

  predicate Covers(seg: Segment, i: int, isn: u32) {
    Start(seg, isn) <= i < End(seg, isn)
  }

  ghost predicate InSome(i: nat, segs: set<Segment>, isn: u32) {
    exists seg | seg in segs :: Covers(seg, i, isn)
  }

  ghost predicate Covered(l: Loop) {
    forall i: nat | i < l.s.stream.popped :: InSome(i, l.wire, l.s.isn)
  }

  lemma {:induction false} ContiguousCovers(q: seq<Segment>, from: nat, to: nat, isn: u32, stream: Stream, i: nat)
    requires Contiguous(q, from, to, isn, stream) && from <= i + 1 < to < TWO32 && i < |stream.accepted|
    ensures InSome(i, (set seg | seg in q), isn)
    decreases |q|
  {
    var next := from + q[0].LengthInSequenceSpace();
    AtIsPosition(q[0], from, isn);
    if i + 1 < next {
      assert q[0] in (set seg | seg in q) && Covers(q[0], i, isn);
    } else {
      ContiguousCovers(q[1..], next, to, isn, stream, i);
    }
  }

  lemma EmissionCovers(l: Loop, t: Sender, sent: seq<Segment>)
    requires Basic(l) && Covered(l) && Emits(l.s, t, sent) && Inv(t) && t.nextSeqno < TWO32
    ensures Covered(l.(s := t.(out := []), wire := Sent(l.wire, t.out)))
  {
    forall i: nat | i < t.stream.popped
      ensures InSome(i, Sent(l.wire, t.out), t.isn)
    {
      if i < l.s.stream.popped {
        InMore(i, l.wire, Sent(l.wire, t.out), t.isn);
      } else {
        ContiguousCovers(sent, l.s.nextSeqno, t.nextSeqno, l.s.isn, l.s.stream, i);
        assert t.out == sent;
        InMore(i, (set seg | seg in sent), Sent(l.wire, t.out), t.isn);
      }
    }
  }

  lemma InMore(i: nat, segs: set<Segment>, more: set<Segment>, isn: u32)
    requires InSome(i, segs, isn) && segs <= more
    ensures InSome(i, more, isn)
  {
  }

  lemma SendingKeepsCovered(l: Loop, op: SenderOp)
    requires Basic(l) && Covered(l) && Enabled(l.s, op) && Short(l.s, op)
    ensures Covered(SenderActs(l, op))
  {
    StepAdds(l, op);
    match op {
      case FillOp =>
        var sent := FillWindowEmits(l.s);
        EmissionCovers(l, l.s.FillWindow(), sent);
      case AckOp(ackno, window) =>
        var sent := AckReceivedEmits(l.s, ackno, window);
        EmissionCovers(l, l.s.AckReceived(ackno, window), sent);
      case _ => StillCovered(l, SenderActs(l, op));
    }
  }

  lemma StillCovered(l: Loop, k: Loop)
    requires Covered(l) && l.wire <= k.wire && k.s.isn == l.s.isn && k.s.stream.popped == l.s.stream.popped
    ensures Covered(k)
  {
    forall i: nat | i < k.s.stream.popped
      ensures InSome(i, k.wire, k.s.isn)
    {
      InMore(i, l.wire, k.wire, k.s.isn);
    }
  }

  // ----- Loops reached by proper deliveries

  ghost predicate Reached(l: Loop) {
    Whole(l) && Covered(l)
  }

  lemma NextKeepsCovered(l: Loop, m: LoopMove)
    requires Basic(l) && Covered(l) && LoopAllowed(l, m)
    ensures Covered(LoopNext(l, m))
  {
    match m {
      case Sends(op) => SendingKeepsCovered(l, op);
      case DeliversAck =>
        if l.acks != [] {
          SendingKeepsCovered(l, AckOp(l.acks[0].ackno, l.acks[0].window));
        }
      case _ => StillCovered(l, LoopNext(l, m));
    }
  }

  lemma {:induction false} RunKeepsReached(l: Loop, moves: seq<LoopMove>)
    requires Reached(l) && LoopAllowedRun(l, moves) && ProperRun(l, moves)
    ensures Reached(LoopRun(l, moves))
    decreases |moves|
  {
    if moves == [] {
    } else {
      NextKeepsWhole(l, moves[0]);
      NextKeepsCovered(l, moves[0]);
      RunKeepsReached(LoopNext(l, moves[0]), moves[1..]);
    }
  }

  // ----- Once the end is secure at the FIN, no continuation ends early

  /** Whatever follows, an ended stream is the sender's entire stream. */
  ghost predicate NeverEndsEarly(l: Loop)
    requires l.s.stream.Valid() && l.r.Valid()
  {
    forall moves | LoopAllowedRun(l, moves) :: CompleteIfEnded(LoopRun(l, moves))
  }

  lemma {:induction false} FinKeepsWhole(l: Loop, moves: seq<LoopMove>)
    requires Whole(l) && l.r.fin && LoopAllowedRun(l, moves)
    ensures Whole(LoopRun(l, moves))
    decreases |moves|
  {
    if moves == [] {
    } else {
      NextKeepsWhole(l, moves[0]);
      FinStays(l, moves[0]);
      FinKeepsWhole(LoopNext(l, moves[0]), moves[1..]);
    }
  }

  lemma FinStays(l: Loop, m: LoopMove)
    requires l.s.stream.Valid() && l.r.Valid() && l.r.fin
    ensures LoopNext(l, m).r.fin
  {
  }

  // ----- Otherwise the gaps below what is stored can be filled, and the stream ends early

  /** A FIN was seen although the end is not secure; an empty store has ended the stream. */
  ghost predicate Misled(l: Loop) {
    && Exact(l) && Covered(l) && l.r.fin && !Secure(l)
    && (l.r.reassembler.Empty() ==> l.r.reassembler.output.inputEnded)
  }

  /** A push adds no bytes but its own. */
  lemma PushHoldsOnly(r: Reassembler, data: seq<byte>, index: nat, eof: bool, i: nat)
    requires r.Valid() && !Holds(r, i) && !(index <= i < index + |data|)
    ensures !Holds(r.Push(data, index, eof), i)
  {
    if index < r.head + r.output.capacity && r.head < index + |data| {
      var elm := r.Trim(data, index);
      var stored := Insert(r.blocks, elm);
      IndicesOfInsert(r.blocks, elm);
      InsertSeparated(r.blocks, elm, r.head - 1);
      assert i < r.head || i in Indices(stored) ==> i < r.head || i in Indices(r.blocks) || index <= i < index + |data|;
      if stored != [] && stored[0].begin == r.head {
        FirstRun(stored);
        FirstIsIndexed(stored);
      }
    }
  }

  lemma {:induction false} BlockWithData(blocks: seq<Block>) returns (b: Block)
    requires Total(blocks) > 0
    ensures b in blocks && b.data != []
  {
    if blocks[0].data != [] {
      b := blocks[0];
    } else {
      b := BlockWithData(blocks[1..]);
    }
  }

  lemma {:induction false} DataIsIndexed(blocks: seq<Block>, b: Block, i: nat)
    requires b in blocks && b.begin <= i < b.End()
    ensures i in Indices(blocks)
  {
    if b != blocks[0] {
      assert b in blocks[1..];
      DataIsIndexed(blocks[1..], b, i);
    }
    assert Indices(blocks) == Range(blocks[0].begin, blocks[0].End()) + Indices(blocks[1..]);
  }

  /** Data blocks that were there before do not make a receiver stuck that was not. */
  lemma FewerBlocks(r: Reassembler, t: Reassembler, P: int -> bool)
    requires forall b | b in t.blocks && b.data != [] :: b in r.blocks
    requires r.head <= t.head && t.output.capacity == r.output.capacity
    ensures Stuck(t, P) ==> Stuck(r, P)
  {
    if Stuck(t, P) {
      var b, e: int :| b in t.blocks && OutOfReach(t.output.capacity, b, e, P) && b.data != [] && t.head < e <= b.begin;
      StuckWitness(r, P, b, e);
    }
  }

  // A FIN that brings nothing: without payload beyond the head, or dropped beyond the window.

  lemma {:induction false} InsertNothing(blocks: seq<Block>, i: nat)
    requires Separated(blocks)
    ensures forall b | b in Insert(blocks, Block(i, [])) && b.data != [] :: b in blocks
  {
    if blocks == [] || i < blocks[0].begin {
    } else if blocks[0].End() < i {
      InsertNothing(blocks[1..], i);
    } else {
      assert (if blocks[0].begin < i then Join(blocks[0], Block(i, [])) else Join(Block(i, []), blocks[0]))
          == blocks[0];
      assert |blocks| > 1 ==> blocks[0].End() < blocks[1].begin;
      assert Insert(blocks, Block(i, [])) == [blocks[0]] + blocks[1..];
    }
  }

  lemma NothingPushed(r: Reassembler, data: seq<byte>, index: nat, eof: bool, i: nat, P: int -> bool)
    requires r.Valid() && ((data == [] && index > r.head) || index >= r.head + r.output.capacity)
    ensures var p := r.Push(data, index, eof);
            && Leaked(p) == Leaked(r) && (Stuck(p, P) ==> Stuck(r, P)) && (Holds(p, i) ==> Holds(r, i))
  {
    var p := r.Push(data, index, eof);
    if index < r.head + r.output.capacity {
      PushLeaks(r, data, index, eof);
      PushOffHead(r, data, index, eof);
      InsertNothing(r.blocks, index);
      NothingStored(r, index);
      if !Holds(r, i) {
        PushHoldsOnly(r, data, index, eof, i);
      }
    }
    FewerBlocks(r, p, P);
  }

  /** Storing an empty block beyond the head writes nothing out. */
  lemma NothingStored(r: Reassembler, index: nat)
    requires r.Valid() && index > r.head
    ensures r.Store(Block(index, [])).blocks == Insert(r.blocks, Block(index, []))
    ensures HeadRun(r, [], index) == Block(r.head, [])
  {
    InsertSeparated(r.blocks, Block(index, []), r.head);
    var stored := Insert(r.blocks, Block(index, []));
    if stored != [] {
      assert stored[0] in stored;
    }
  }

  // A segment that fills the gap from the head up to stored data or another gap.

  /** An element that ends at or before all blocks joins at most the first of them. */
  lemma InsertBefore(blocks: seq<Block>, elm: Block)
    requires Separated(blocks) && AllAbove(blocks, elm.begin) && forall b | b in blocks :: b.begin >= elm.End()
    ensures var stored := Insert(blocks, elm);
            && stored != [] && stored[0].begin == elm.begin
            && stored[0].End() == (if blocks != [] && blocks[0].begin == elm.End() then blocks[0].End() else elm.End())
            && forall b | b in stored[1..] :: b in blocks
  {
    if blocks == [] || elm.End() < blocks[0].begin {
      assert Insert(blocks, elm)[1..] == blocks;
    } else {
      assert blocks[0] in blocks;
      var joined := Join(elm, blocks[0]);
      assert |blocks| > 1 ==> blocks[0].End() < blocks[1].begin;
      assert Insert(blocks, elm) == [joined] + blocks[1..];
    }
  }

  /**
   * The gap is as long as the data, and neither it nor a block that follows right behind takes more than the capacity.
   */
  ghost predicate GapAtHead(r: Reassembler, data: seq<byte>) {
    && data != [] && |data| <= r.output.capacity && r.output.popped == r.head
    && forall b | b in r.blocks ::
         b.begin >= r.head + |data| && (b.begin == r.head + |data| ==> b.End() - r.head <= r.output.capacity)
  }

  lemma GapFilled(r: Reassembler, data: seq<byte>, eof: bool, i: nat, P: int -> bool)
    requires r.Valid() && GapAtHead(r, data) && i >= r.head + |data|
    ensures var p := r.Push(data, r.head, eof);
            && Leaked(p) == Leaked(r) && p.head > r.head
            && (Stuck(p, P) ==> Stuck(r, P)) && (Holds(p, i) ==> Holds(r, i))
  {
    var elm := r.Trim(data, r.head);
    var p := r.Push(data, r.head, eof);
    InsertBefore(r.blocks, elm);
    var stored := Insert(r.blocks, elm);
    assert stored[0].End() - r.head <= r.output.capacity by {
      if r.blocks != [] {
        assert r.blocks[0] in r.blocks;
      }
    }
    PushLeaks(r, data, r.head, eof);
    PushReaches(r, data, r.head, eof);
    FewerBlocks(r, p, P);
    if !Holds(r, i) {
      PushHoldsOnly(r, data, r.head, eof, i);
    }
  }

  /** The way from the head to a misled receiver's data: the segment at the head, which fits with what is behind it. */
  lemma NextGapSegment(l: Loop) returns (seg: Segment)
    requires Misled(l) && !l.r.reassembler.Empty() && l.r.reassembler.output.popped == l.r.reassembler.head
    ensures seg in l.wire && Start(seg, l.s.isn) == l.r.reassembler.head && End(seg, l.s.isn) < |l.s.stream.accepted|
    ensures GapAtHead(l.r.reassembler, seg.payload)
  {
    var r, isn := l.r.reassembler, l.s.isn;
    var d := BlockWithData(r.blocks);
    BeforeLast(l, d);
    assert InSome(r.head, l.wire, isn);
    seg :| seg in l.wire && Covers(seg, r.head, isn);
    assert Misses(r.head, seg, isn);
    forall b | b in r.blocks
      ensures b.begin >= End(seg, isn)
    {
      assert Cut(l.wire, l.s)(b.begin);
      assert Misses(b.begin, seg, isn);
    }
    FitsFromHead(l, seg, d);
    forall b | b in r.blocks
      ensures b.begin == End(seg, isn) ==> b.End() - r.head <= r.output.capacity
    {
      if b.begin == End(seg, isn) && b.data != [] {
        FitsFromHead(l, seg, b);
      }
    }
  }

  lemma BeforeLast(l: Loop, b: Block)
    requires Misled(l) && b in l.r.reassembler.blocks && b.data != []
    ensures b.End() < |l.s.stream.accepted|
  {
    var last := |l.s.stream.accepted| - 1;
    if b.End() > last {
      assert Agrees(b, l.s.stream.accepted);
      DataIsIndexed(l.r.reassembler.blocks, b, last);
    }
  }

  /** From the head, output gets to the end of the segment there, and through data that follows right behind. */
  lemma FitsFromHead(l: Loop, seg: Segment, b: Block)
    requires Misled(l) && seg in l.wire && Start(seg, l.s.isn) == l.r.reassembler.head
    requires b in l.r.reassembler.blocks && b.data != [] && l.r.reassembler.head < End(seg, l.s.isn) <= b.begin
    ensures Reach(b, End(seg, l.s.isn)) - l.r.reassembler.head <= l.r.capacity
  {
    var r, e, P := l.r.reassembler, End(seg, l.s.isn), Bounds(l.wire, l.s.isn);
    if OutOfReach(r.output.capacity, b, e, P) {
      StuckWitness(r, P, b, e);
    }
    var p: int :| P(p) && p < e && Reach(b, e) - p <= r.output.capacity;
    assert Boundary(p, l.wire, l.s.isn);
    assert Misses(p, seg, l.s.isn);
  }

  // ----- Misled once, misled until the end

  /** What a push must have left as it was for the receiver to be misled after it. */
  lemma MisledAfter(l: Loop, seg: Segment)
    requires Intact(l) && Covered(l) && seg in l.wire && !seg.header.syn
    requires l.r.syn && l.r.Taking() && (l.r.fin || seg.header.fin) && |l.s.stream.accepted| > 0
    requires var p := l.r.reassembler.Push(seg.payload, l.r.IndexOf(seg.header.seqno), seg.header.fin);
             Leaked(p) == 0 && !Stuck(p, Bounds(l.wire, l.s.isn)) && !Holds(p, |l.s.stream.accepted| - 1)
    ensures Misled(l.(r := l.r.SegmentReceived(seg)))
  {
    var k := l.(r := l.r.SegmentReceived(seg));
    StoreAfter(l.r, seg);
    NotSecure(k, l.r.reassembler.Push(seg.payload, l.r.IndexOf(seg.header.seqno), seg.header.fin));
    DeliverIntact(l, seg);
    StillCovered(l, k);
  }

  lemma NotSecure(l: Loop, p: Reassembler)
    requires l.r.reassembler == p.(output := l.r.reassembler.output)
    requires l.r.reassembler.output.capacity == p.output.capacity
    requires Leaked(p) == 0 && !Stuck(p, Bounds(l.wire, l.s.isn))
    requires |l.s.stream.accepted| > 0 && !Holds(p, |l.s.stream.accepted| - 1)
    ensures Leaked(l.r.reassembler) == 0 && !Secure(l)
  {
    SameStore(p, l.r.reassembler, Bounds(l.wire, l.s.isn));
  }

  /** A delivery leaves the store as the push does; with the FIN seen, an empty store ends the stream. */
  lemma StoreAfter(r: Receiver, seg: Segment)
    requires r.Valid() && r.syn && r.Taking() && !seg.header.syn
    ensures var t := r.SegmentReceived(seg);
            var p := r.reassembler.Push(seg.payload, r.IndexOf(seg.header.seqno), seg.header.fin);
            && t.reassembler == p.(output := t.reassembler.output) && t.fin == (r.fin || seg.header.fin)
            && t.reassembler.output == p.output.(inputEnded := t.reassembler.output.inputEnded)
            && (t.fin && t.reassembler.Empty() ==> t.reassembler.output.inputEnded)
  {
    PlainDelivery(r, seg);
    ClosedStore(r.PushAt(seg, r.IndexOf(seg.header.seqno), r.ackno == seg.header.seqno), seg.header.fin);
  }

  lemma ClosedStore(r: Receiver, fin: bool)
    requires r.syn
    ensures var t := r.Close(fin);
            && t.reassembler == r.reassembler.(output := t.reassembler.output) && t.fin == (r.fin || fin)
            && t.reassembler.output == r.reassembler.output.(inputEnded := t.reassembler.output.inputEnded)
            && (t.fin && t.reassembler.Empty() ==> t.reassembler.output.inputEnded)
  {
  }

  lemma GapDelivered(l: Loop, seg: Segment)
    requires Misled(l) && !l.r.reassembler.Empty() && seg in l.wire && GapAtHead(l.r.reassembler, seg.payload)
    requires Start(seg, l.s.isn) == l.r.reassembler.head && End(seg, l.s.isn) < |l.s.stream.accepted|
    ensures var k := l.(r := l.r.SegmentReceived(seg)); Misled(k) && k.r.reassembler.head > l.r.reassembler.head
  {
    var r, last := l.r.reassembler, |l.s.stream.accepted| - 1;
    assert Placed(seg, l.s);
    IndexIsStart(l, seg);
    GapFilled(r, seg.payload, seg.header.fin, last, Bounds(l.wire, l.s.isn));
    MisledAfter(l, seg);
    StoreAfter(l.r, seg);
  }

  lemma ReadKeepsMisled(l: Loop)
    requires Misled(l)
    ensures var k := LoopNext(l, Reads(l.r.reassembler.head));
            && Misled(k) && k.r.reassembler == l.r.reassembler.(output := k.r.reassembler.output)
            && k.r.reassembler.output.popped == l.r.reassembler.head && k.s == l.s && k.wire == l.wire
  {
    var k := LoopNext(l, Reads(l.r.reassembler.head));
    LoopNextExact(l, Reads(l.r.reassembler.head));
    StillCovered(l, k);
    SameStore(l.r.reassembler, k.r.reassembler, Bounds(l.wire, l.s.isn));
  }

  /** The application reads what there is, the segment at the head arrives, and so on until nothing is pending. */
  lemma {:induction false} FillGaps(l: Loop) returns (moves: seq<LoopMove>)
    requires Misled(l)
    ensures LoopAllowedRun(l, moves) && !CompleteIfEnded(LoopRun(l, moves))
    decreases |l.s.stream.accepted| - l.r.reassembler.head
  {
    if l.r.reassembler.Empty() {
      moves := [];
    } else {
      var k := LoopNext(l, Reads(l.r.reassembler.head));
      ReadKeepsMisled(l);
      var seg := NextGapSegment(k);
      GapDelivered(k, seg);
      var rest := FillGaps(LoopNext(k, Delivers(seg)));
      BothMoves(l, Reads(l.r.reassembler.head), Delivers(seg), rest);
      moves := [Reads(l.r.reassembler.head), Delivers(seg)] + rest;
    }
  }

  lemma BothMoves(l: Loop, a: LoopMove, b: LoopMove, rest: seq<LoopMove>)
    requires l.s.stream.Valid() && l.r.Valid() && LoopAllowed(l, a) && LoopAllowed(LoopNext(l, a), b)
    requires LoopAllowedRun(LoopNext(LoopNext(l, a), b), rest)
    ensures LoopAllowedRun(l, [a, b] + rest) && LoopRun(l, [a, b] + rest) == LoopRun(LoopNext(LoopNext(l, a), b), rest)
  {
    assert ([a, b] + rest)[1..] == [b] + rest && ([b] + rest)[1..] == rest;
  }

  // ----- The exact condition

  /**
   * After any run of proper deliveries, let a FIN arrive. Every continuation, whatever it delivers, ends with the whole
   * stream if it ends at all, if and only if the FIN brings the last byte or the end is secure.
   */
  lemma EarlyFinExactly(sendCapacity: nat, recvCapacity: nat, timeout: u16, isn: u32,
                        before: seq<LoopMove>, seg: Segment)
    requires recvCapacity < TWO16
    requires LoopAllowedRun(NewLoop(sendCapacity, recvCapacity, timeout, isn), before)
    requires ProperRun(NewLoop(sendCapacity, recvCapacity, timeout, isn), before)
    requires var l := LoopRun(NewLoop(sendCapacity, recvCapacity, timeout, isn), before);
             seg in l.wire && seg.header.fin && l.r.syn
    ensures var l := LoopRun(NewLoop(sendCapacity, recvCapacity, timeout, isn), before);
            NeverEndsEarly(LoopNext(l, Delivers(seg))) <==> BringsLast(l, seg) || Secure(l)
  {
    NewLoopWhole(sendCapacity, recvCapacity, timeout, isn);
    RunKeepsReached(NewLoop(sendCapacity, recvCapacity, timeout, isn), before);
    var l := LoopRun(NewLoop(sendCapacity, recvCapacity, timeout, isn), before);
    if BringsLast(l, seg) || Secure(l) {
      SafeFin(l, seg);
    } else {
      MisleadingFin(l, seg);
    }
  }

  lemma SafeFin(l: Loop, seg: Segment)
    requires Whole(l) && seg in l.wire && seg.header.fin && l.r.syn && (BringsLast(l, seg) || Secure(l))
    ensures NeverEndsEarly(LoopNext(l, Delivers(seg)))
  {
    var k := LoopNext(l, Delivers(seg));
    NextKeepsWhole(l, Delivers(seg));
    FinEndsStream(l, seg);
    forall moves | LoopAllowedRun(k, moves)
      ensures CompleteIfEnded(LoopRun(k, moves))
    {
      FinKeepsWhole(k, moves);
    }
  }

  lemma MisleadingFin(l: Loop, seg: Segment)
    requires Reached(l) && seg in l.wire && seg.header.fin && l.r.syn && !BringsLast(l, seg) && !Secure(l)
    ensures !NeverEndsEarly(LoopNext(l, Delivers(seg)))
  {
    FinEndsStream(l, seg);
    IndexIsStart(l, seg);
    var last := |l.s.stream.accepted| - 1;
    var index := l.r.IndexOf(seg.header.seqno);
    NothingPushed(l.r.reassembler, seg.payload, index, true, last, Bounds(l.wire, l.s.isn));
    MisledAfter(l, seg);
    var moves := FillGaps(LoopNext(l, Delivers(seg)));
  }

  // ----- Instances

  /** Segments of a three-byte stream with initial number 0: one byte each, and the FIN on its own. */
  const FIRST_BYTE: Segment := Segment(DEFAULT_HEADER.(seqno := 1), [1])
  const SECOND_BYTE: Segment := Segment(DEFAULT_HEADER.(seqno := 2), [2])
  const BARE_FIN: Segment := Segment(DEFAULT_HEADER.(seqno := 4, fin := true), [])

  /** A receiver with room for ten bytes that has taken in the SYN. */
  const OPEN: Receiver := NewReceiver(10).(syn := true, ackno := 1)

  lemma InstanceOpens()
    ensures NewReceiver(10).SegmentReceived(NewSegment(true, false, [])) == OPEN
  {
  }

  /** A FIN that overtakes all three bytes makes the receiver report an ended, empty stream and count the FIN. */
  lemma EarlyFinExample()
    ensures var r := NewReceiver(10).SegmentReceived(NewSegment(true, false, [])).SegmentReceived(BARE_FIN);
            r.reassembler.output.inputEnded && r.reassembler.output.accepted == [] && r.ackno == 2
  {
    InstanceOpens();
    assert OPEN.IndexOf(4) == 3;
    var p := OPEN.reassembler.Push([], 3, true);
    assert Insert([], Block(3, [])) == [Block(3, [])];
    assert p.output == Stream(10, [], 0, true, false) && p.Empty();
  }

  /** The last byte and the FIN of a stream of four. */
  const LAST_BYTE: Segment := Segment(DEFAULT_HEADER.(seqno := 4, fin := true), [4])

  /** A FIN with payload beyond the window: the payload is dropped, but the FIN ends an empty stream all the same. */
  lemma DroppedFinExample()
    ensures var r := NewReceiver(2).SegmentReceived(NewSegment(true, false, [])).SegmentReceived(LAST_BYTE);
            r.reassembler.output.inputEnded && r.reassembler.output.accepted == [] && r.ackno == 2
  {
    ExampleGreets();
    IndexOfPosition(GREETED, 4, 4);
    PlainDelivery(GREETED, LAST_BYTE);
  }

  /**
   * The second byte stored keeps the FIN from ending the stream at once; the first byte then ends it without the third.
   */
  const SECOND_STORED: Receiver :=
    OPEN.(reassembler := Reassembler([Block(1, [2])], 1, 0, false, NewStream(10)))

  const FIN_SEEN: Receiver :=
    SECOND_STORED.(fin := true, reassembler := Reassembler([Block(1, [2]), Block(3, [])], 1, 0, true, NewStream(10)))

  lemma InstanceStores()
    ensures OPEN.SegmentReceived(SECOND_BYTE) == SECOND_STORED
  {
    assert OPEN.IndexOf(2) == 1;
    assert Insert([], Block(1, [2])) == [Block(1, [2])];
  }

  lemma InstanceSeesFin()
    ensures SECOND_STORED.SegmentReceived(BARE_FIN) == FIN_SEEN
  {
    assert SECOND_STORED.IndexOf(4) == 3;
    assert Insert([Block(1, [2])], Block(3, [])) == [Block(1, [2]), Block(3, [])];
  }

  lemma InsertMeetsFirst(first: Block, rest: seq<Block>, elm: Block)
    requires elm.begin <= first.begin <= elm.End()
    ensures Insert([first] + rest, elm) == Insert(rest, Join(elm, first))
  {
    assert ([first] + rest)[1..] == rest;
  }

  lemma InstanceJoins()
    ensures Insert([Block(1, [2]), Block(3, [])], Block(0, [1])) == [Block(0, [1, 2]), Block(3, [])]
  {
    InsertMeetsFirst(Block(1, [2]), [Block(3, [])], Block(0, [1]));
    assert [Block(1, [2])] + [Block(3, [])] == [Block(1, [2]), Block(3, [])];
    assert Join(Block(0, [1]), Block(1, [2])) == Block(0, [1, 2]);
    assert Insert([Block(3, [])], Block(0, [1, 2])) == [Block(0, [1, 2]), Block(3, [])];
  }

  /** With the first byte stored, and then written out together with the second. */
  const JOINED: Reassembler := Reassembler([Block(0, [1, 2]), Block(3, [])], 2, 0, true, NewStream(10))
  const WRITTEN: Reassembler := Reassembler([Block(3, [])], 0, 2, true, Stream(10, [1, 2], 0, false, false))

  lemma InstanceWrites()
    ensures JOINED.WriteHead() == WRITTEN
  {
    assert [Block(0, [1, 2]), Block(3, [])][1..] == [Block(3, [])];
    assert [] + [1, 2][..2] == [1, 2];
  }

  lemma InstanceStoresFirst()
    ensures FIN_SEEN.reassembler.Store(Block(0, [1])) == WRITTEN
  {
    InstanceJoins();
    InstanceWrites();
    assert Total([Block(0, [1, 2]), Block(3, [])]) == 2 && Total([Block(1, [2]), Block(3, [])]) == 1;
  }

  lemma InstancePushes()
    ensures FIN_SEEN.reassembler.Push([1], 0, false) == WRITTEN.(output := Stream(10, [1, 2], 0, true, false))
  {
    InstanceStoresFirst();
    assert FIN_SEEN.reassembler.Trim([1], 0) == Block(0, [1]);
    assert FIN_SEEN.reassembler.Absorb([1], 0) == WRITTEN;
  }

  lemma ExpectedPush(r: Receiver, seg: Segment, index: nat, t: Reassembler)
    requires r.Valid() && t == r.reassembler.Push(seg.payload, index, seg.header.fin)
    ensures var advance := t.output.BytesWritten() - r.reassembler.output.BytesWritten();
            r.PushAt(seg, index, true) == r.(reassembler := t, ackno := Plus(r.ackno, advance))
  {
  }

  lemma InstanceAccepts()
    ensures var t := FIN_SEEN.PushAt(FIRST_BYTE, 0, true);
            && t.ackno == 3 && t.syn && t.fin && t.finNotCount
            && t.reassembler.output.accepted == [1, 2] && t.reassembler.Empty()
  {
    FinSeenIsValid();
    InstancePushes();
    ExpectedPush(FIN_SEEN, FIRST_BYTE, 0, WRITTEN.(output := Stream(10, [1, 2], 0, true, false)));
  }

  lemma InstanceIndex()
    ensures FIN_SEEN.IndexOf(1) == 0
  {
  }

  lemma InstanceEnds()
    ensures var r := FIN_SEEN.SegmentReceived(FIRST_BYTE);
            r.reassembler.output.inputEnded && r.reassembler.output.accepted == [1, 2] && !r.finNotCount && r.ackno == 4
  {
    FinSeenIsValid();
    PlainDelivery(FIN_SEEN, FIRST_BYTE);
    InstanceIndex();
    InstanceAccepts();
  }

  lemma FinSeenIsValid()
    ensures FIN_SEEN.Valid()
  {
  }

  lemma DelayedEarlyFinExample()
    ensures var r := NewReceiver(10).SegmentReceived(NewSegment(true, false, []))
                       .SegmentReceived(SECOND_BYTE).SegmentReceived(BARE_FIN).SegmentReceived(FIRST_BYTE);
            r.reassembler.output.inputEnded && r.reassembler.output.accepted == [1, 2] && !r.finNotCount && r.ackno == 4
  {
    InstanceOpens();
    InstanceStores();
    InstanceSeesFin();
    InstanceEnds();
  }
}
