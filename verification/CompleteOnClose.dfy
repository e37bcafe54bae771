/**
 * When the receiver declares the stream ended, it has all of it. The only assumption is on FIN segments: one whose
 * payload brings the last byte is always right, and any other must find the end secure: the last byte held, bytes lost
 * for good, or stored data that can never be output whole.
 */
module CompleteOnClose {
  import opened Common
  import opened Streams
  import opened Segments
  import opened Blocks
  import opened Reassembly
  import opened Confluence
  import opened SenderInvariant
  import opened ReceiverSpec
  import opened EndToEnd
  import opened Segmentation
  import opened AckExactness

  // ----- Bytes held, and bytes lost

  /** The byte at this index was received: it is below the head, or in a block. */
  ghost predicate Holds(r: Reassembler, i: int) {
    i < r.head || i in Indices(r.blocks)
  }

  lemma FirstIsIndexed(blocks: seq<Block>)
    requires blocks != []
    ensures Range(blocks[0].begin, blocks[0].End()) <= Indices(blocks)
  {
  }

  /** A push keeps every byte held and adds those it brings, unless a write is truncated, which is never made up for. */
  lemma PushHolds(r: Reassembler, data: seq<byte>, index: nat, eof: bool, i: nat)
    requires r.Valid()
    requires Leaked(r) > 0 || Holds(r, i) || (index <= i < index + |data| && index < r.head + r.output.capacity)
    ensures Leaked(r.Push(data, index, eof)) > 0 || Holds(r.Push(data, index, eof), i)
  {
    PushLeaks(r, data, index, eof);
    if index < r.head + r.output.capacity && r.head < index + |data| {
      StoreHolds(r, r.Trim(data, index), i);
    }
  }

  lemma StoreHolds(r: Reassembler, elm: Block, i: nat)
    requires r.Valid() && elm.begin >= r.head
    requires Leaked(r) > 0 || Holds(r, i) || elm.begin <= i < elm.End()
    ensures Leaked(r.Store(elm)) > 0 || Holds(r.Store(elm), i)
  {
    var stored := Insert(r.blocks, elm);
    IndicesOfInsert(r.blocks, elm);
    InsertSeparated(r.blocks, elm, r.head - 1);
    if stored != [] && stored[0].begin == r.head {
      FirstRun(stored);
    }
  }

  // ----- Stored data that cannot be output whole

  /** How far output gets once it reaches e: through the block if e is where it begins. */
  function Reach(b: Block, e: int): int {
    if e == b.begin then b.End() else e
  }

  /** From every boundary before e it is further than the capacity to where output gets at e. */
  ghost predicate OutOfReach(capacity: nat, b: Block, e: int, P: int -> bool) {
    forall p: int | P(p) && p < e :: Reach(b, e) - p > capacity
  }

  /** On the way to some stored data there is a stretch that does not fit the output, wherever the head comes from. */
  ghost predicate Stuck(r: Reassembler, P: int -> bool) {
    exists b, e: int | b in r.blocks && OutOfReach(r.output.capacity, b, e, P) :: b.data != [] && r.head < e <= b.begin
  }

  /** Whatever the element is joined with, every block stays part of a stored one. */
  lemma {:induction false} InsertCovers(blocks: seq<Block>, elm: Block, b: Block) returns (c: Block)
    requires b in blocks || b == elm
    ensures c in Insert(blocks, elm) && c.begin <= b.begin && b.End() <= c.End()
  {
    if blocks == [] || elm.End() < blocks[0].begin {
      c := b;
    } else if blocks[0].End() < elm.begin {
      if b == blocks[0] {
        c := b;
      } else {
        c := InsertCovers(blocks[1..], elm, b);
      }
    } else {
      var joined := if blocks[0].begin < elm.begin then Join(blocks[0], elm) else Join(elm, blocks[0]);
      c := InsertCovers(blocks[1..], joined, if b == elm || b == blocks[0] then joined else b);
    }
  }

  lemma StuckWitness(r: Reassembler, P: int -> bool, b: Block, e: int)
    requires b in r.blocks && b.data != [] && r.head < e <= b.begin && OutOfReach(r.output.capacity, b, e, P)
    ensures Stuck(r, P)
  {
  }

  /** A stuck receiver stays so until a write is truncated. */
  lemma PushKeepsStuck(r: Reassembler, data: seq<byte>, index: nat, eof: bool, P: int -> bool)
    requires r.Valid() && Leaked(r) == 0 && P(r.head) && Stuck(r, P)
    ensures Leaked(r.Push(data, index, eof)) > 0 || Stuck(r.Push(data, index, eof), P)
  {
    if index < r.head + r.output.capacity && r.head < index + |data| {
      StoreKeepsStuck(r, r.Trim(data, index), P);
      var mid, p := r.Store(r.Trim(data, index)), r.Push(data, index, eof);
      SameStore(mid, p, P);
    } else {
      SameStore(r, r.Push(data, index, eof), P);
    }
  }

  lemma SameStore(r: Reassembler, t: Reassembler, P: int -> bool)
    requires t.blocks == r.blocks && t.head == r.head && t.unassembled == r.unassembled
    requires t.output.capacity == r.output.capacity
    ensures Stuck(r, P) <==> Stuck(t, P)
    ensures Leaked(t) == Leaked(r)
  {
  }

  lemma StoreKeepsStuck(r: Reassembler, elm: Block, P: int -> bool)
    requires r.Valid() && Leaked(r) == 0 && elm.begin >= r.head && P(r.head) && Stuck(r, P)
    ensures Leaked(r.Store(elm)) > 0 || Stuck(r.Store(elm), P)
  {
    var t, stored := r.Store(elm), Insert(r.blocks, elm);
    var b, e: int :| b in r.blocks && OutOfReach(r.output.capacity, b, e, P) && b.data != [] && r.head < e <= b.begin;
    var c := InsertCovers(r.blocks, elm, b);
    InsertSeparated(r.blocks, elm, r.head - 1);
    assert Reach(b, e) - r.head > r.output.capacity;
    if Leaked(t) == 0 {
      StillAhead(r, elm, b, c, e);
      var f := if e < c.begin then e else c.begin;
      assert OutOfReach(r.output.capacity, c, f, P);
      StuckWitness(t, P, c, f);
    }
  }

  /** If nothing leaks, the output has not reached e, and the block that took over b is still stored. */
  lemma StillAhead(r: Reassembler, elm: Block, b: Block, c: Block, e: int)
    requires r.Valid() && Leaked(r) == 0 && elm.begin >= r.head && Leaked(r.Store(elm)) == 0
    requires b.data != [] && r.head < e <= b.begin && Reach(b, e) - r.head > r.output.capacity
    requires c in Insert(r.blocks, elm) && c.begin <= b.begin && b.End() <= c.End()
    ensures c in r.Store(elm).blocks && r.Store(elm).head < e && r.Store(elm).head < c.begin
  {
    var stored := Insert(r.blocks, elm);
    InsertSeparated(r.blocks, elm, r.head - 1);
    if stored != [] && stored[0].begin == r.head {
      assert stored[0].End() <= r.output.popped + r.output.capacity;
      assert c != stored[0];
      assert c in stored[1..];
    }
  }

  // ----- The end of the stream is secure

  ghost predicate LastHeld(r: Reassembler, stream: Stream) {
    |stream.accepted| == 0 || Holds(r, |stream.accepted| - 1)
  }

  /** Ends of the segments on the wire. */
  ghost function Bounds(wire: set<Segment>, isn: u32): int -> bool {
    p => Boundary(p, wire, isn)
  }

  /** The stream cannot end early any more: the last byte is held, or something pending will never be output. */
  ghost predicate Secure(l: Loop) {
    var r := l.r.reassembler;
    Leaked(r) > 0 || LastHeld(r, l.s.stream) || Stuck(r, Bounds(l.wire, l.s.isn))
  }

  /** With a secure end and nothing pending, everything was output. */
  lemma EmptyMeansComplete(l: Loop)
    requires Basic(l) && Secure(l) && l.r.reassembler.Empty()
    ensures l.r.reassembler.head == |l.s.stream.accepted|
  {
    TotalIsSize(l.r.reassembler.blocks);
    if Stuck(l.r.reassembler, Bounds(l.wire, l.s.isn)) {
      StuckIsPending(l.r.reassembler, Bounds(l.wire, l.s.isn));
    }
  }

  lemma StuckIsPending(r: Reassembler, P: int -> bool)
    requires Stuck(r, P)
    ensures Total(r.blocks) > 0
  {
    var b, e: int :| b in r.blocks && OutOfReach(r.output.capacity, b, e, P) && b.data != [] && r.head < e <= b.begin;
    TotalOfMember(r.blocks, b);
  }

  lemma {:induction false} TotalOfMember(blocks: seq<Block>, b: Block)
    requires b in blocks
    ensures Total(blocks) >= |b.data|
  {
    if b != blocks[0] {
      TotalOfMember(blocks[1..], b);
    }
  }

  /** A FIN that the receiver heeds brings the last byte itself, or finds the end secure. */
  ghost predicate Proper(l: Loop, seg: Segment) {
    seg.header.fin && l.r.syn ==> BringsLast(l, seg) || Secure(l)
  }

  predicate BringsLast(l: Loop, seg: Segment) {
    seg.payload != [] && Start(seg, l.s.isn) < l.r.reassembler.head + l.r.capacity
  }

  /** What a FIN says about where its segment lies. */
  lemma FinEndsStream(l: Loop, seg: Segment)
    requires Basic(l) && seg in l.wire && seg.header.fin
    ensures l.s.stream.inputEnded && End(seg, l.s.isn) == |l.s.stream.accepted| && Start(seg, l.s.isn) >= 0
    ensures !seg.header.syn
  {
  }

  // ----- Loops whose end is secure from the first FIN on

  /** Segmentation holds as long as no write was truncated. */
  ghost predicate Intact(l: Loop) {
    Basic(l) && (Leaked(l.r.reassembler) == 0 ==> Exact(l))
  }

  ghost predicate Whole(l: Loop) {
    && Intact(l)
    && (l.r.reassembler.eofFlag ==> l.r.fin)
    && (l.r.fin ==> l.r.syn && l.s.stream.inputEnded && Secure(l))
    && (l.r.reassembler.output.inputEnded ==> l.s.stream.inputEnded && l.r.reassembler.head == |l.s.stream.accepted|)
    && (!l.r.syn ==> l.r.reassembler == NewReassembler(l.r.capacity).(output := l.r.reassembler.output)
                     && l.r.reassembler.output.accepted == [] && !l.r.reassembler.output.inputEnded)
  }

  lemma AcceptKeepsSecure(l: Loop, seg: Segment)
    requires Intact(l) && seg in l.wire && l.r.syn
    requires Secure(l) || (seg.header.fin && BringsLast(l, seg))
    ensures Secure(l.(r := l.r.Accept(seg, false)))
  {
    var r, index := l.r.reassembler, l.r.IndexOf(seg.header.seqno);
    PushLeaks(r, seg.payload, index, seg.header.fin);
    if LastHeld(r, l.s.stream) || (seg.header.fin && BringsLast(l, seg)) {
      AcceptHoldsLast(l, seg);
    } else if Leaked(r) == 0 {
      PushKeepsStuck(r, seg.payload, index, seg.header.fin, Bounds(l.wire, l.s.isn));
    }
  }

  lemma AcceptHoldsLast(l: Loop, seg: Segment)
    requires Basic(l) && seg in l.wire && l.r.syn
    requires LastHeld(l.r.reassembler, l.s.stream) || (seg.header.fin && BringsLast(l, seg))
    ensures var r := l.r.Accept(seg, false).reassembler; Leaked(r) > 0 || LastHeld(r, l.s.stream)
  {
    var last := |l.s.stream.accepted| - 1;
    if seg.header.fin {
      FinEndsStream(l, seg);
    }
    IndexIsStart(l, seg);
    if last >= 0 {
      PushHolds(l.r.reassembler, seg.payload, l.r.IndexOf(seg.header.seqno), seg.header.fin, last);
    }
  }

  lemma AcceptEndsComplete(l: Loop, seg: Segment)
    requires Whole(l) && seg in l.wire && Proper(l, seg) && l.r.syn && !seg.header.syn
    ensures var k := l.(r := l.r.Accept(seg, false)); var r := k.r.reassembler;
            && Basic(k) && (l.r.fin || seg.header.fin ==> l.s.stream.inputEnded && Secure(k))
            && (r.eofFlag ==> l.r.fin || seg.header.fin)
            && (r.output.inputEnded ==> l.s.stream.inputEnded && r.head == |l.s.stream.accepted|)
  {
    var k := l.(r := l.r.Accept(seg, false));
    assert Placed(seg, l.s);
    AcceptTracks(l.r, seg, At(seg, l.s.isn), l.s.isn, l.s.stream);
    if seg.header.fin {
      FinEndsStream(l, seg);
    }
    if l.r.fin || seg.header.fin {
      AcceptKeepsSecure(l, seg);
      if k.r.reassembler.Empty() {
        EmptyMeansComplete(k);
      }
    }
  }

  lemma CloseKeepsWhole(l: Loop, fin: bool)
    requires Basic(l) && l.r.syn
    requires l.r.fin || fin ==> l.s.stream.inputEnded && Secure(l)
    requires var r := l.r.reassembler;
             && (r.eofFlag ==> l.r.fin || fin)
             && (r.output.inputEnded ==> l.s.stream.inputEnded && r.head == |l.s.stream.accepted|)
    requires Intact(l.(r := l.r.Close(fin)))
    ensures Whole(l.(r := l.r.Close(fin)))
  {
    SameStore(l.r.reassembler, l.r.Close(fin).reassembler, Bounds(l.wire, l.s.isn));
    if l.r.Close(fin).fin && l.r.reassembler.Empty() {
      EmptyMeansComplete(l);
    }
  }

  // ----- Deliveries keep the segmentation as long as nothing is truncated

  lemma DeliveryLeaks(r: Receiver, seg: Segment)
    requires r.Valid()
    ensures var t := r.SegmentReceived(seg).reassembler; Leaked(t) >= Leaked(r.reassembler)
    ensures var t := r.SegmentReceived(seg).reassembler;
            r.syn && r.Taking() && !seg.header.syn && Leaked(t) == Leaked(r.reassembler) ==>
              HeadRun(r.reassembler, seg.payload, r.IndexOf(seg.header.seqno)).End()
              <= r.reassembler.output.popped + r.reassembler.output.capacity
  {
    if !(seg.header.syn && r.syn) {
      var g := r.Greet(seg);
      PushLeaks(g.reassembler, seg.payload, if seg.header.syn then 0 else g.IndexOf(seg.header.seqno), seg.header.fin);
    }
  }

  lemma DeliverIntact(l: Loop, seg: Segment)
    requires Intact(l) && seg in l.wire
    ensures Intact(l.(r := l.r.SegmentReceived(seg)))
  {
    DeliverBasic(l, seg);
    DeliveryLeaks(l.r, seg);
    if Leaked(l.r.SegmentReceived(seg).reassembler) == 0 {
      if l.r.syn && l.r.Taking() && seg.header.syn {
        IndexIsStart(l, seg);
      }
      assert Undamaging(l, seg);
      DeliverExact(l, seg);
    }
  }

  lemma GreetKeepsWhole(l: Loop, seg: Segment)
    requires Whole(l) && seg in l.wire && seg.header.syn && !l.r.syn
    ensures Whole(l.(r := l.r.SegmentReceived(seg)))
  {
    assert Placed(seg, l.s);
    DeliverIntact(l, seg);
    var k := l.(r := l.r.Greet(seg).Accept(seg, true));
    assert k.r.reassembler.Push([], 0, false) == k.r.reassembler;
    CloseKeepsWhole(k, false);
  }

  lemma DeliverKeepsWhole(l: Loop, seg: Segment)
    requires Whole(l) && seg in l.wire && Proper(l, seg)
    ensures Whole(l.(r := l.r.SegmentReceived(seg)))
  {
    DeliverIntact(l, seg);
    if seg.header.fin {
      FinEndsStream(l, seg);
    }
    if seg.header.syn {
      if !l.r.syn {
        GreetKeepsWhole(l, seg);
      }
    } else if l.r.syn {
      if l.r.Taking() {
        AcceptEndsComplete(l, seg);
        CloseKeepsWhole(l.(r := l.r.Accept(seg, false)), seg.header.fin);
      } else {
        CloseKeepsWhole(l, seg.header.fin);
      }
    }
  }

  // ----- Runs

  /** With more segments on the wire there are fewer boundaries to come from. */
  lemma StuckWithMore(r: Reassembler, P: int -> bool, Q: int -> bool)
    requires Stuck(r, P) && forall p: int | Q(p) :: P(p)
    ensures Stuck(r, Q)
  {
    var b, e: int :| b in r.blocks && OutOfReach(r.output.capacity, b, e, P) && b.data != [] && r.head < e <= b.begin;
    assert OutOfReach(r.output.capacity, b, e, Q);
    StuckWitness(r, Q, b, e);
  }

  lemma SendingKeepsSecure(l: Loop, op: SenderOp)
    requires Basic(l) && Enabled(l.s, op) && Short(l.s, op) && l.s.stream.inputEnded && Secure(l)
    ensures Secure(SenderActs(l, op))
  {
    var k := SenderActs(l, op);
    StepAdds(l, op);
    assert k.s.stream.accepted == l.s.stream.accepted;
    if Stuck(l.r.reassembler, Bounds(l.wire, l.s.isn)) {
      forall p: int | Bounds(k.wire, k.s.isn)(p)
        ensures Bounds(l.wire, l.s.isn)(p)
      {
        assert Boundary(p, k.wire, k.s.isn) && l.wire <= k.wire;
      }
      StuckWithMore(l.r.reassembler, Bounds(l.wire, l.s.isn), Bounds(k.wire, k.s.isn));
    }
  }

  lemma SendingKeepsWhole(l: Loop, op: SenderOp)
    requires Whole(l) && Enabled(l.s, op) && Short(l.s, op)
    ensures Whole(SenderActs(l, op))
  {
    SenderActsBasic(l, op);
    StepAdds(l, op);
    if Leaked(l.r.reassembler) == 0 {
      SenderActsExact(l, op);
    }
    if l.r.fin {
      SendingKeepsSecure(l, op);
    }
  }

  lemma ReadKeepsWhole(l: Loop, len: nat)
    requires Whole(l)
    ensures Whole(LoopNext(l, Reads(len)))
  {
    LoopNextBasicReads(l, len);
    SameStore(l.r.reassembler, l.r.Read(len).reassembler, Bounds(l.wire, l.s.isn));
    if Leaked(l.r.reassembler) == 0 {
      LoopNextExact(l, Reads(len));
    }
  }

  lemma LoopNextBasicReads(l: Loop, len: nat)
    requires Basic(l)
    ensures Basic(LoopNext(l, Reads(len)))
  {
  }

  lemma NextKeepsWhole(l: Loop, m: LoopMove)
    requires Whole(l) && LoopAllowed(l, m) && (m.Delivers? ==> Proper(l, m.seg))
    ensures Whole(LoopNext(l, m))
  {
    match m {
      case Sends(op) => SendingKeepsWhole(l, op);
      case Delivers(seg) => DeliverKeepsWhole(l, seg);
      case DeliversAck =>
        if l.acks != [] {
          var op := AckOp(l.acks[0].ackno, l.acks[0].window);
          SendingKeepsWhole(l, op);
          OtherAcks(SenderActs(l, op), l.acks[1..]);
        }
      case EmitsAck => OtherAcks(l, LoopNext(l, m).acks);
      case LosesAck(i) => OtherAcks(l, LoopNext(l, m).acks);
      case Reads(len) => ReadKeepsWhole(l, len);
    }
  }

  lemma OtherAcks(l: Loop, acks: seq<Ack>)
    requires Whole(l)
    ensures Whole(l.(acks := acks))
  {
  }

  ghost predicate ProperRun(l: Loop, moves: seq<LoopMove>)
    requires l.s.stream.Valid() && l.r.Valid()
    decreases |moves|
  {
    moves != [] ==> (moves[0].Delivers? ==> Proper(l, moves[0].seg)) && ProperRun(LoopNext(l, moves[0]), moves[1..])
  }

  lemma {:induction false} RunKeepsWhole(l: Loop, moves: seq<LoopMove>)
    requires Whole(l) && LoopAllowedRun(l, moves) && ProperRun(l, moves)
    ensures Whole(LoopRun(l, moves))
    decreases |moves|
  {
    if moves == [] {
    } else {
      NextKeepsWhole(l, moves[0]);
      RunKeepsWhole(LoopNext(l, moves[0]), moves[1..]);
    }
  }

  lemma NewLoopWhole(sendCapacity: nat, recvCapacity: nat, timeout: u16, isn: u32)
    requires recvCapacity < TWO16
    ensures Whole(NewLoop(sendCapacity, recvCapacity, timeout, isn))
  {
    NewLoopExact(sendCapacity, recvCapacity, timeout, isn);
  }

  predicate CompleteIfEnded(l: Loop) {
    l.r.reassembler.output.inputEnded ==>
      l.s.stream.inputEnded && l.r.reassembler.output.accepted == l.s.stream.accepted
  }

  /**
   * Over every run, whatever data is delivered in whatever order and multiplicity, fitting or not: if every FIN
   * delivered is proper, an ended stream is the sender's entire stream.
   */
  lemma EndedMeansComplete(sendCapacity: nat, recvCapacity: nat, timeout: u16, isn: u32, moves: seq<LoopMove>)
    requires recvCapacity < TWO16
    requires LoopAllowedRun(NewLoop(sendCapacity, recvCapacity, timeout, isn), moves)
    requires ProperRun(NewLoop(sendCapacity, recvCapacity, timeout, isn), moves)
    ensures CompleteIfEnded(LoopRun(NewLoop(sendCapacity, recvCapacity, timeout, isn), moves))
  {
    NewLoopWhole(sendCapacity, recvCapacity, timeout, isn);
    RunKeepsWhole(NewLoop(sendCapacity, recvCapacity, timeout, isn), moves);
  }
}
