/**
 * What a clean close is worth: between two endpoints of this implementation, over channels that lose, duplicate, delay
 * and reorder whole segments, an endpoint that closed cleanly has a peer that received everything it wrote.
 */
module CleanDelivery {
  import opened Common
  import opened WrappingIntegers
  import opened Segments
  import opened SenderInvariant
  import opened ReceiverSpec
  import opened ConnectionSpec
  import opened ConnectionInvariant
  import opened ConnectionLifetime
  import opened EndToEnd
  import opened ShortStreams
  import opened Acknowledging
  import opened Delivery

  // ----- One event at one endpoint

  lemma ReceiverEvolves(c: Connection, e: Event)
    requires ConnInv(c) && Allowed(c, e)
    ensures var t := Next(c, e).receiver;
            OnlyRead(c.receiver, t) || (e.Arrives? && OnlyRead(c.receiver.SegmentReceived(e.seg), t))
  {
    if e.Arrives? {
      ArrivalFollows(c, e.seg);
    } else {
      LocalFollows(c, e);
    }
  }

  /** What was told truthfully before an event still is afterwards. */
  lemma HonestEvolves(c: Connection, e: Event, seg: Segment)
    requires ConnInv(c) && Allowed(c, e) && Honest(seg, c.receiver)
    ensures Honest(seg, Next(c, e).receiver)
  {
    ReceiverEvolves(c, e);
    if e.Arrives? {
      HonestLater(seg, c.receiver, e.seg);
    }
  }

  lemma LimitEvolves(c: Connection, e: Event)
    requires ConnInv(c) && Allowed(c, e)
    ensures Limit(c.receiver) <= Limit(Next(c, e).receiver)
  {
    ReceiverEvolves(c, e);
    if e.Arrives? {
      DeliveryRaisesLimit(c.receiver, e.seg);
    }
  }

  lemma LocalKeepsAck(c: Connection, e: Event)
    requires ConnInv(c) && Allowed(c, e) && !e.Arrives?
    ensures Next(c, e).sender.receiveAck == c.sender.receiveAck
  {
    match e {
      case AppWrites(data) =>
        StepKeepsInv(c.sender, SenderOp.WriteOp(data));
        SendsKeepStream(c.(sender := c.sender.Write(data)), false);
      case AppCloses =>
        StepKeepsInv(c.sender, EndInputOp);
        SendsKeepStream(c.(sender := c.sender.EndInput()), false);
      case AppConnects => SendsKeepStream(c, true);
      case TimePasses(ms) => TickKeepsStream(c, ms);
      case _ => IdleOnward(c, e);
    }
  }

  /** Acknowledgments within the limit do not take the sender beyond it. */
  lemma AckEvolves(c: Connection, e: Event, limit: nat)
    requires ConnInv(c) && Allowed(c, e) && ShortStream(c) && c.sender.receiveAck <= limit < TWO31
    requires e.Arrives? && e.seg.header.ack ==> Claimed(e.seg.header.ackno, c.sender.isn) <= limit
    ensures Next(c, e).sender.receiveAck <= limit
  {
    if e.Arrives? {
      ArrivalKeepsStream(c, e.seg);
      if e.seg.header.ack {
        ReadingStaysWithin(c.sender, e.seg.header.ackno, e.seg.header.win, limit);
      }
    } else {
      LocalKeepsAck(c, e);
    }
  }

  /** Numbers told truthfully are read as what they were meant to be. */
  lemma HonestIsWithin(seg: Segment, r: Receiver, isn: u32)
    requires Honest(seg, r) && seg.header.ack && r.isn == isn && Expected(r) < TWO32
    ensures Claimed(seg.header.ackno, isn) <= Limit(r)
  {
    var n: nat :| n <= Expected(r) && seg.header.ackno == Wrap(n, isn);
    WrapSeparates(n, Claimed(seg.header.ackno, isn), isn);
    ClaimedWraps(seg.header.ackno, isn);
  }

  lemma ClaimedWraps(ackno: u32, isn: u32)
    ensures Wrap(Claimed(ackno, isn), isn) == ackno
  {
  }

  // ----- The pair

  ghost predicate WireHonest(wire: set<Segment>, r: Receiver) {
    forall seg | seg in wire :: Honest(seg, r)
  }

  /** Each side tells the truth, and what is acknowledged to it is what the other has. */
  ghost predicate Sound(p: Pair) {
    && PairInv(p) && ShortStream(p.a) && ShortStream(p.b)
    && Telling(p.a) && Telling(p.b)
    && WireHonest(p.toB, p.a.receiver) && WireHonest(p.toA, p.b.receiver)
    && p.a.sender.receiveAck <= Limit(p.b.receiver) && p.b.sender.receiveAck <= Limit(p.a.receiver)
  }

  /** Segments arrive as they were sent, and the application keeps its stream short and does not write after closing. */
  predicate WholeMoveA(p: Pair, m: Move) {
    m.Local? ==>
      && (m.e.AppWrites? ==> !p.a.sender.stream.inputEnded && |p.a.sender.stream.accepted| + |m.e.data| + 2 < TWO31)
      && (m.e.Arrives? ==> m.e.seg in p.toA)
  }

  lemma WholeIsShort(p: Pair, m: Move)
    requires WholeMoveA(p, m)
    ensures ShortMoveA(p, m)
  {
    if m.Local? && m.e.Arrives? {
      assert SameData(m.e.seg, m.e.seg);
    }
  }

  lemma PeerLimitIsShort(p: Pair)
    requires PairInv(p) && ShortStream(p.a)
    ensures Limit(p.b.receiver) < TWO31 && Expected(p.b.receiver) < TWO32
    ensures p.b.receiver.syn ==> p.b.receiver.isn == p.a.sender.isn
  {
  }

  lemma EventKeepsSound(p: Pair, e: Event)
    requires Sound(p) && WholeMoveA(p, Local(e))
    ensures Sound(MoveA(p, Local(e)))
  {
    WholeIsShort(p, Local(e));
    ShortMoveAllowed(p, Local(e));
    ShortMoveStaysShort(p, Local(e));
    NextTelling(p.a, e);
    LimitEvolves(p.a, e);
    PeerLimitIsShort(p);
    if e.Arrives? && e.seg.header.ack {
      HonestIsWithin(e.seg, p.b.receiver, p.a.sender.isn);
    }
    AckEvolves(p.a, e, Limit(p.b.receiver));
    forall seg | seg in p.toB
      ensures Honest(seg, Next(p.a, e).receiver)
    {
      HonestEvolves(p.a, e, seg);
    }
  }

  lemma TransmitKeepsSound(p: Pair)
    requires Sound(p)
    ensures Sound(MoveA(p, Transmit))
  {
    MoveKeepsInv(p, Transmit);
    if p.a.out != [] {
      NextTelling(p.a, OwnerTakes);
      assert p.a.out[0] in p.a.out;
    }
  }

  lemma MoveKeepsSound(p: Pair, m: Move)
    requires Sound(p) && WholeMoveA(p, m)
    ensures Sound(MoveA(p, m))
  {
    match m {
      case Local(e) => EventKeepsSound(p, e);
      case Transmit => TransmitKeepsSound(p);
    }
  }

  predicate WholeMove(p: Pair, m: PairMove) {
    match m
    case AtA(m) => WholeMoveA(p, m)
    case AtB(m) => WholeMoveA(Swap(p), m)
  }

  predicate WholeRun(p: Pair, moves: seq<PairMove>)
    requires p.a.Valid() && p.b.Valid()
    decreases |moves|
  {
    moves != [] ==> WholeMove(p, moves[0]) && WholeRun(PairNext(p, moves[0]), moves[1..])
  }

  lemma {:induction false} RunKeepsSound(p: Pair, moves: seq<PairMove>)
    requires Sound(p) && WholeRun(p, moves)
    ensures Sound(PairRun(p, moves))
    decreases |moves|
  {
    if moves == [] {
    } else {
      match moves[0] {
        case AtA(m) => MoveKeepsSound(p, m);
        case AtB(m) => MoveKeepsSound(Swap(p), m);
      }
      RunKeepsSound(PairNext(p, moves[0]), moves[1..]);
    }
  }

  /** Absent an error, the endpoint is inactive only if its peer has its whole stream and counted its FIN. */
  predicate ClosedMeansDelivered(c: Connection, peer: Connection) {
    !c.active && !Errored(c) ==>
      peer.receiver.reassembler.output.accepted == c.sender.stream.accepted && !peer.receiver.finNotCount
  }

  /** Clean close delivers: from two fresh endpoints, after any run, for each of them. */
  lemma CleanCloseDelivers(a: Connection, b: Connection, moves: seq<PairMove>,
                           rtA: u16, rtB: u16, recvA: nat, recvB: nat,
                           sendA: nat, sendB: nat, isnA: u32, isnB: u32)
    requires a == NewConnection(rtA, recvA, sendA, isnA) && b == NewConnection(rtB, recvB, sendB, isnB)
    requires WholeRun(Pair(a, b, {}, {}), moves)
    ensures var q := PairRun(Pair(a, b, {}, {}), moves);
            ClosedMeansDelivered(q.a, q.b) && ClosedMeansDelivered(q.b, q.a)
  {
    var p := Pair(a, b, {}, {});
    NewPairInv(rtA, rtB, recvA, recvB, sendA, sendB, isnA, isnB);
    RunKeepsSound(p, moves);
    SoundDelivers(PairRun(p, moves));
    SoundDelivers(Swap(PairRun(p, moves)));
  }

  lemma SoundDelivers(p: Pair)
    requires Sound(p)
    ensures ClosedMeansDelivered(p.a, p.b)
  {
    var s := p.a.sender;
    if !p.a.active && !Errored(p.a) {
      ContiguousOrdered(s.inFlight, Una(s), s.nextSeqno, s.isn, s.stream);
      assert s.receiveAck == s.nextSeqno == |s.stream.accepted| + 2;
    }
  }
}
