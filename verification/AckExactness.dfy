/**
 * One sender and one receiver joined by a channel for segments and a channel for acknowledgments. Against a sender
 * that retransmits verbatim, head, blocks and acknowledgment number stay on the boundaries of one segmentation while
 * no delivery is truncated.
 */
module AckExactness {
  import opened Common
  import opened WrappingIntegers
  import opened Segments
  import opened Reassembly
  import opened SenderSpec
  import opened SenderInvariant
  import opened ReceiverSpec
  import opened EndToEnd
  import opened Segmentation

  datatype Ack = Ack(ackno: u32, window: u16)

  /** `wire` holds every segment ever sent; `acks` are the acknowledgments under way, oldest first. */
  datatype Loop = Loop(s: Sender, r: Receiver, wire: set<Segment>, acks: seq<Ack>)

  /** Boundaries of the segmentation, within what was sent. */
  ghost function Cut(wire: set<Segment>, s: Sender): int -> bool {
    p => Boundary(p, wire, s.isn) && (p < s.nextSeqno || p == 0)
  }

  /** The receiver's flags agree with each other and with what the sender has sent. */
  ghost predicate Consistent(r: Receiver, s: Sender) {
    && (!r.finNotCount ==> r.fin && r.reassembler.Empty())
    && (r.fin ==> r.syn && s.fin) && (r.syn ==> s.syn)
    && (!r.syn ==> r.reassembler.head == 0)
  }

  ghost predicate Counting(r: Receiver, s: Sender) {
    (r.syn ==> r.ackno == Wrap(Expected(r), s.isn)) && Consistent(r, s)
  }

  /** The part that no delivery can endanger. */
  ghost predicate Basic(l: Loop) {
    && Inv(l.s) && |l.s.stream.accepted| + 2 < TWO31 && l.s.out == []
    && l.r.capacity < TWO16
    && Tracks(l.r, l.s.isn, l.s.stream)
    && (forall seg | seg in l.wire :: Placed(seg, l.s))
    && (forall seg | seg in l.s.inFlight :: seg in l.wire)
  }

  ghost predicate Exact(l: Loop) {
    && Basic(l)
    && Segmented(l.wire, l.s)
    && Cut(l.wire, l.s)(l.r.reassembler.head) && Ends(l.r.reassembler.blocks, Cut(l.wire, l.s))
    && Counting(l.r, l.s)
  }

  /** No segment on the wire straddles the point up to which the receiver has room; one-byte probes cannot. */
  ghost predicate NoStraddling(l: Loop) {
    Boundary(l.r.reassembler.output.popped + l.r.capacity, l.wire, l.s.isn)
  }

  /** The output takes all that the delivery makes contiguous with the head. */
  predicate Untruncated(l: Loop, seg: Segment)
    requires l.r.Valid()
  {
    HeadRun(l.r.reassembler, seg.payload, l.r.IndexOf(seg.header.seqno)).End()
        <= l.r.reassembler.output.popped + l.r.capacity
  }

  /** Whatever the receiver takes in leaves its head and blocks on the boundaries of the segmentation. */
  ghost predicate Undamaging(l: Loop, seg: Segment)
    requires l.r.Valid()
  {
    l.r.syn && l.r.Taking() ==> Untruncated(l, seg) || NoStraddling(l)
  }

  // ----- Deliveries

  /** The index at which a segment's payload is pushed is its place in the stream. */
  lemma IndexIsStart(l: Loop, seg: Segment)
    requires Basic(l) && seg in l.wire && l.r.syn
    ensures l.r.IndexOf(seg.header.seqno) == if At(seg, l.s.isn) == 0 then TWO64 - 1 else At(seg, l.s.isn) - 1
    ensures At(seg, l.s.isn) == 0 ==> seg.payload == []
  {
    assert Placed(seg, l.s);
    IndexOfPosition(l.r, seg.header.seqno, At(seg, l.s.isn));
  }

  lemma IndexOfPosition(r: Receiver, seqno: u32, at: nat)
    requires r.Valid() && seqno == Wrap(at, r.isn) && at < TWO31 && r.reassembler.head < TWO31
    ensures r.IndexOf(seqno) == if at == 0 then TWO64 - 1 else at - 1
  {
    UnwrapWrap(at, r.isn, r.reassembler.head);
    assert r.IndexOf(seqno) == (at - 1) % TWO64;
    assert at > 0 ==> (at - 1) % TWO64 == at - 1;
  }

  lemma PushExact(l: Loop, seg: Segment)
    requires Exact(l) && Undamaging(l, seg) && seg in l.wire && l.r.syn && l.r.Taking()
    ensures var p := l.r.reassembler.Push(seg.payload, l.r.IndexOf(seg.header.seqno), seg.header.fin);
            Faithful(p, l.s.stream.accepted) && Cut(l.wire, l.s)(p.head) && Ends(p.blocks, Cut(l.wire, l.s))
  {
    var r, index := l.r.reassembler, l.r.IndexOf(seg.header.seqno);
    assert Placed(seg, l.s);
    IndexIsStart(l, seg);
    PushFaithful(r, l.s.stream.accepted, seg.payload, index, seg.header.fin);
    PushKeepsEnds(r, seg.payload, index, seg.header.fin, Cut(l.wire, l.s));
  }

  /** The acknowledgment number moves by as much as the head does, since only the expected segment moves the head. */
  lemma AckFollowsHead(l: Loop, seg: Segment)
    requires Exact(l) && seg in l.wire && l.r.syn && l.r.finNotCount
    ensures l.r.Accept(seg, false).ackno == Wrap(1 + l.r.Accept(seg, false).reassembler.head, l.s.isn)
  {
    var index := l.r.IndexOf(seg.header.seqno);
    NextExactlyAtHead(l, seg);
    if index == l.r.reassembler.head {
      AcceptAdvances(l.r, seg);
      var a := l.r.Accept(seg, false);
      PlusWrap(Expected(l.r), a.reassembler.head - l.r.reassembler.head, l.s.isn);
    } else {
      UnexpectedKeepsHead(l, seg);
    }
  }

  lemma AcceptAdvances(r: Receiver, seg: Segment)
    requires r.Valid() && r.ackno == seg.header.seqno
    ensures var a := r.Accept(seg, false);
            && a.reassembler.head >= r.reassembler.head
            && a.ackno == Plus(r.ackno, a.reassembler.head - r.reassembler.head)
  {
  }

  lemma UnexpectedKeepsHead(l: Loop, seg: Segment)
    requires Exact(l) && seg in l.wire && l.r.syn && l.r.finNotCount
    requires l.r.IndexOf(seg.header.seqno) != l.r.reassembler.head
    ensures var r := l.r.reassembler;
            r.Push(seg.payload, l.r.IndexOf(seg.header.seqno), seg.header.fin).head == r.head
  {
    var r := l.r.reassembler;
    NextExactlyAtHead(l, seg);
    assert Misses(r.head, seg, l.s.isn);
    PushOffHead(r, seg.payload, l.r.IndexOf(seg.header.seqno), seg.header.fin);
  }

  /** The receiver's test for the expected sequence number succeeds exactly when the payload starts at the head. */
  lemma NextExactlyAtHead(l: Loop, seg: Segment)
    requires Basic(l) && Counting(l.r, l.s) && seg in l.wire && l.r.syn && l.r.finNotCount
    ensures var index := l.r.IndexOf(seg.header.seqno);
            && (l.r.ackno == seg.header.seqno <==> index == l.r.reassembler.head)
            && (index == TWO64 - 1 || index == Start(seg, l.s.isn))
            && (index == TWO64 - 1 ==> seg.payload == [])
  {
    assert Placed(seg, l.s);
    IndexIsStart(l, seg);
    assert seg.header.seqno == Wrap(At(seg, l.s.isn), l.s.isn);
    WrapSeparates(At(seg, l.s.isn), 1 + l.r.reassembler.head, l.s.isn);
  }

  lemma AcceptExact(l: Loop, seg: Segment)
    requires Exact(l) && Undamaging(l, seg) && seg in l.wire && l.r.syn && l.r.Taking()
    ensures var a := l.r.Accept(seg, false);
            && Tracks(a, l.s.isn, l.s.stream) && a.ackno == Wrap(1 + a.reassembler.head, l.s.isn)
            && Cut(l.wire, l.s)(a.reassembler.head) && Ends(a.reassembler.blocks, Cut(l.wire, l.s))
  {
    PushExact(l, seg);
    AckFollowsHead(l, seg);
  }

  /** A FIN on the wire means that the sender has sent its FIN. */
  lemma FinWasSent(l: Loop, seg: Segment)
    requires Basic(l) && seg in l.wire && seg.header.fin
    ensures l.s.fin
  {
  }

  lemma CloseExact(l: Loop, r: Receiver, fin: bool)
    requires Exact(l) && Tracks(r, l.s.isn, l.s.stream) && r.capacity == l.r.capacity
    requires Cut(l.wire, l.s)(r.reassembler.head) && Ends(r.reassembler.blocks, Cut(l.wire, l.s))
    requires Counting(r, l.s) && (fin ==> l.s.fin)
    ensures Exact(l.(r := r.Close(fin)))
  {
    PlusWrap(Expected(r), 1, l.s.isn);
  }

  lemma GreetExact(l: Loop, seg: Segment)
    requires Exact(l) && seg in l.wire && seg.header.syn && !l.r.syn
    ensures Exact(l.(r := l.r.Greet(seg).Accept(seg, true)))
  {
  }

  lemma DeliverBasic(l: Loop, seg: Segment)
    requires Basic(l) && seg in l.wire
    ensures Basic(l.(r := l.r.SegmentReceived(seg)))
  {
    assert Placed(seg, l.s);
    SegmentReceivedTracks(l.r, seg, At(seg, l.s.isn), l.s.isn, l.s.stream);
  }

  lemma DeliverExact(l: Loop, seg: Segment)
    requires Exact(l) && Undamaging(l, seg) && seg in l.wire
    ensures Exact(l.(r := l.r.SegmentReceived(seg)))
  {
    if seg.header.fin {
      FinWasSent(l, seg);
    }
    if seg.header.syn {
      if !l.r.syn {
        GreetExact(l, seg);
        var a := l.r.Greet(seg).Accept(seg, true);
        CloseExact(l.(r := a), a, seg.header.fin);
      }
    } else if l.r.Taking() && l.r.syn {
      AcceptExact(l, seg);
      CloseExact(l, l.r.Accept(seg, false), seg.header.fin);
    } else {
      CloseExact(l, l.r, seg.header.fin);
    }
  }

  // ----- Sender operations

  lemma EmissionAdds(wire: set<Segment>, s: Sender, t: Sender, sent: seq<Segment>)
    requires Inv(s) && s.out == [] && Emits(s, t, sent) && t.nextSeqno < TWO32
    requires forall seg | seg in s.inFlight :: seg in wire
    ensures Adds(wire, t.out, s, t) && (forall seg | seg in t.inFlight :: seg in Sent(wire, t.out))
  {
    assert t.out == sent;
    ContiguousWithin(sent, s.nextSeqno, t.nextSeqno, s.isn, s.stream);
    ContiguousApart(sent, s.nextSeqno, t.nextSeqno, s.isn, s.stream);
    ContiguousOrdered(sent, s.nextSeqno, t.nextSeqno, s.isn, s.stream);
    forall seg | seg in sent
      ensures Placed(seg, t)
    {
      CarriesExtends(seg, At(seg, s.isn), s.isn, s.stream, t.stream);
    }
  }

  /** The operation, given that the application's stream stays under 2^31 - 2 bytes. */
  predicate Short(s: Sender, op: SenderOp) {
    op.WriteOp? ==> |s.stream.accepted| + |op.data| + 2 < TWO31
  }

  lemma StepAdds(l: Loop, op: SenderOp)
    requires Basic(l) && Enabled(l.s, op) && Short(l.s, op)
    ensures var t := SenderInvariant.Step(l.s, op);
            && Inv(t) && |t.stream.accepted| + 2 < TWO31 && (l.s.fin ==> t.fin) && (l.s.syn ==> t.syn)
            && Adds(l.wire, t.out, l.s, t) && (forall seg | seg in t.inFlight :: seg in Sent(l.wire, t.out))
  {
    var s, t := l.s, SenderInvariant.Step(l.s, op);
    StepKeepsInv(s, op);
    match op {
      case FillOp => FillAdds(l.wire, s);
      case AckOp(ackno, window) => AckAdds(l.wire, s, ackno, window);
      case SendEmptyOp => EmptyAdds(l.wire, s);
      case TickOp(ms) => TickAdds(l.wire, s, ms);
      case _ =>
    }
  }

  lemma FillAdds(wire: set<Segment>, s: Sender)
    requires Inv(s) && s.out == [] && |s.stream.accepted| + 2 < TWO31
    requires forall seg | seg in s.inFlight :: seg in wire
    ensures var t := s.FillWindow();
            && (s.fin ==> t.fin) && (s.syn ==> t.syn) && t.stream.accepted == s.stream.accepted
            && Adds(wire, t.out, s, t) && (forall seg | seg in t.inFlight :: seg in Sent(wire, t.out))
  {
    FillWindowKeepsInv(s);
    var sent := FillWindowEmits(s);
    EmissionAdds(wire, s, s.FillWindow(), sent);
  }

  lemma AckAdds(wire: set<Segment>, s: Sender, ackno: u32, window: u16)
    requires Inv(s) && Young(s) && s.out == [] && |s.stream.accepted| + 2 < TWO31
    requires forall seg | seg in s.inFlight :: seg in wire
    ensures var t := s.AckReceived(ackno, window);
            && (s.fin ==> t.fin) && (s.syn ==> t.syn) && t.stream.accepted == s.stream.accepted
            && Adds(wire, t.out, s, t) && (forall seg | seg in t.inFlight :: seg in Sent(wire, t.out))
  {
    AckReceivedKeepsInv(s, ackno, window);
    var sent := AckReceivedEmits(s, ackno, window);
    EmissionAdds(wire, s, s.AckReceived(ackno, window), sent);
  }

  lemma EmptyAdds(wire: set<Segment>, s: Sender)
    requires Inv(s) && s.out == [] && s.nextSeqno < TWO32
    requires forall seg | seg in s.inFlight :: seg in wire
    ensures Adds(wire, s.SendEmptySegment().out, s, s.SendEmptySegment())
  {
    AtIsPosition(s.SendEmptySegment().out[0], s.nextSeqno, s.isn);
  }

  lemma TickAdds(wire: set<Segment>, s: Sender, ms: nat)
    requires Inv(s) && s.out == [] && (forall seg | seg in s.inFlight :: seg in wire)
    ensures Adds(wire, s.Tick(ms).out, s, s.Tick(ms)) && s.Tick(ms).inFlight == s.inFlight
  {
  }

  /** The sender acts, and everything it queues goes onto the wire. */
  function SenderActs(l: Loop, op: SenderOp): Loop
    requires l.s.stream.Valid()
  {
    var t := SenderInvariant.Step(l.s, op);
    l.(s := t.(out := []), wire := Sent(l.wire, t.out))
  }

  lemma CutKept(l: Loop, t: Sender, p: int)
    requires Adds(l.wire, t.out, l.s, t) && Cut(l.wire, l.s)(p)
    ensures Cut(Sent(l.wire, t.out), t.(out := []))(p)
  {
  }

  lemma SegmentedDrained(wire: set<Segment>, s: Sender)
    requires Segmented(wire, s)
    ensures Segmented(wire, s.(out := []))
  {
  }

  lemma SenderActsBasic(l: Loop, op: SenderOp)
    requires Basic(l) && Enabled(l.s, op) && Short(l.s, op)
    ensures Basic(SenderActs(l, op))
  {
    var t := SenderInvariant.Step(l.s, op);
    StepAdds(l, op);
    TracksExtends(l.r, l.s.isn, l.s.stream, t.stream);
    AddsPlaced(l, t);
  }

  lemma AddsPlaced(l: Loop, t: Sender)
    requires Basic(l) && Adds(l.wire, t.out, l.s, t)
    ensures forall seg | seg in Sent(l.wire, t.out) :: Placed(seg, t.(out := []))
  {
    forall seg | seg in Sent(l.wire, t.out)
      ensures Placed(seg, t.(out := []))
    {
      if seg in l.wire {
        PlacedExtends(seg, l.s, t.(out := []));
      } else {
        assert Placed(seg, t);
      }
    }
  }

  lemma SenderActsExact(l: Loop, op: SenderOp)
    requires Exact(l) && Enabled(l.s, op) && Short(l.s, op)
    ensures Exact(SenderActs(l, op))
  {
    var t := SenderInvariant.Step(l.s, op);
    StepAdds(l, op);
    AddsKeepsSegmented(l.wire, t.out, l.s, t);
    SegmentedDrained(Sent(l.wire, t.out), t);
    SenderActsBasic(l, op);
    CutKept(l, t, l.r.reassembler.head);
    forall b | b in l.r.reassembler.blocks
      ensures Cut(Sent(l.wire, t.out), t.(out := []))(b.begin) && Cut(Sent(l.wire, t.out), t.(out := []))(b.End())
    {
      CutKept(l, t, b.begin);
      CutKept(l, t, b.End());
    }
  }

  // ----- Moves of the loop

  datatype LoopMove =
    | Sends(op: SenderOp)       // includes acknowledgments of any content, from anywhere
    | Delivers(seg: Segment)
    | EmitsAck
    | LosesAck(i: nat)
    | DeliversAck               // the oldest acknowledgment under way reaches the sender
    | Reads(len: nat)

  function LoopNext(l: Loop, m: LoopMove): (k: Loop)
    requires l.s.stream.Valid() && l.r.Valid()
    ensures k.s.stream.Valid() && k.r.Valid()
  {
    match m
    case Sends(op) => SenderActs(l, op)
    case Delivers(seg) => l.(r := l.r.SegmentReceived(seg))
    case EmitsAck => if l.r.Ackno().Some? then l.(acks := l.acks + [Ack(l.r.ackno, l.r.WindowSize() % TWO16)]) else l
    case LosesAck(i) => if i < |l.acks| then l.(acks := l.acks[..i] + l.acks[i + 1..]) else l
    case DeliversAck =>
      if l.acks == [] then l
      else SenderActs(l, AckOp(l.acks[0].ackno, l.acks[0].window)).(acks := l.acks[1..])
    case Reads(len) => l.(r := l.r.Read(len))
  }

  ghost predicate LoopAllowed(l: Loop, m: LoopMove) {
    && (m.Sends? ==> Enabled(l.s, m.op) && Short(l.s, m.op))
    && (m.Delivers? ==> m.seg in l.wire)
  }

  lemma LoopNextExact(l: Loop, m: LoopMove)
    requires Exact(l) && LoopAllowed(l, m) && (m.Delivers? ==> Undamaging(l, m.seg))
    ensures Exact(LoopNext(l, m))
  {
    match m {
      case Sends(op) => SenderActsExact(l, op);
      case Delivers(seg) => DeliverExact(l, seg);
      case EmitsAck =>
      case LosesAck(i) =>
      case DeliversAck =>
        if l.acks != [] {
          SenderActsExact(l, AckOp(l.acks[0].ackno, l.acks[0].window));
        }
      case Reads(len) =>
    }
  }

  function LoopRun(l: Loop, moves: seq<LoopMove>): (k: Loop)
    requires l.s.stream.Valid() && l.r.Valid()
    ensures k.s.stream.Valid() && k.r.Valid()
    decreases |moves|
  {
    if moves == [] then l else LoopRun(LoopNext(l, moves[0]), moves[1..])
  }

  ghost predicate LoopAllowedRun(l: Loop, moves: seq<LoopMove>)
    requires l.s.stream.Valid() && l.r.Valid()
    decreases |moves|
  {
    moves != [] ==> LoopAllowed(l, moves[0]) && LoopAllowedRun(LoopNext(l, moves[0]), moves[1..])
  }

  /** No delivery is truncated, unless nothing on the wire straddles the end of the room: a probe of one byte cannot. */
  ghost predicate NeverDamaging(l: Loop, moves: seq<LoopMove>)
    requires l.s.stream.Valid() && l.r.Valid()
    decreases |moves|
  {
    moves != [] ==>
      (moves[0].Delivers? ==> Undamaging(l, moves[0].seg)) && NeverDamaging(LoopNext(l, moves[0]), moves[1..])
  }

  lemma {:induction false} LoopRunExact(l: Loop, moves: seq<LoopMove>)
    requires Exact(l) && LoopAllowedRun(l, moves) && NeverDamaging(l, moves)
    ensures Exact(LoopRun(l, moves))
    decreases |moves|
  {
    if moves == [] {
    } else {
      LoopNextExact(l, moves[0]);
      LoopRunExact(LoopNext(l, moves[0]), moves[1..]);
    }
  }

  function NewLoop(sendCapacity: nat, recvCapacity: nat, timeout: u16, isn: u32): Loop {
    Loop(NewSender(sendCapacity, timeout, isn), NewReceiver(recvCapacity), {}, [])
  }

  lemma NewLoopExact(sendCapacity: nat, recvCapacity: nat, timeout: u16, isn: u32)
    requires recvCapacity < TWO16
    ensures Exact(NewLoop(sendCapacity, recvCapacity, timeout, isn))
  {
  }

  lemma IsnStays(l: Loop, m: LoopMove)
    requires Basic(l) && LoopAllowed(l, m)
    ensures LoopNext(l, m).s.isn == l.s.isn
  {
    match m {
      case Sends(op) => StepAdds(l, op);
      case DeliversAck =>
        if l.acks != [] {
          StepAdds(l, AckOp(l.acks[0].ackno, l.acks[0].window));
        }
      case _ =>
    }
  }
}
