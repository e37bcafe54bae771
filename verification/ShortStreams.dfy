/**
 * End-to-end safety without assumptions on distances: while each application writes fewer than 2^31 - 2 bytes,
 * whatever was once sent may arrive at any time, any number of times.
 */
module ShortStreams {
  import opened Common
  import opened Segments
  import opened SenderInvariant
  import opened ConnectionSpec
  import opened ConnectionInvariant
  import opened ConnectionLifetime
  import opened EndToEnd

  // ----- Only the application's writes make the outbound stream longer

  ghost predicate SameStream(c: Connection, d: Connection) {
    d.sender.stream.accepted == c.sender.stream.accepted && d.sender.stream.inputEnded == c.sender.stream.inputEnded
  }

  /** Nor was anything new acknowledged. */
  ghost predicate SameSending(c: Connection, d: Connection) {
    SameStream(c, d) && d.sender.receiveAck == c.sender.receiveAck
  }

  lemma SendsKeepStream(c: Connection, sendSyn: bool)
    requires c.Valid() && Inv(c.sender)
    ensures SameSending(c, c.SegmentSends(sendSyn))
  {
    var sent := FillWindowEmits(c.sender);
  }

  lemma UncleanShutdownKeepsStream(c: Connection, sendRst: bool)
    requires c.Valid() && Inv(c.sender)
    ensures SameSending(c, c.UncleanShutdown(sendRst)) && Inv(c.UncleanShutdown(sendRst).sender)
  {
    UncleanShutdownFollows(c, sendRst);
    SetErrorsCarrying(c);
    if sendRst {
      var d := c.SetErrors().(needSendRst := true);
      EnsureSegmentCarrying(d);
      SendsKeepStream(d.EnsureSegment(), false);
    }
  }

  lemma ReactKeepsStream(c: Connection, seg: Segment)
    requires Base(c)
    ensures SameSending(c, c.React(seg))
  {
    if seg.header.syn && c.sender.nextSeqno == 0 {
      SendsKeepStream(c, true);
    } else if seg.header.rst {
      UncleanShutdownKeepsStream(c, false);
    } else {
      EnsureSegmentCarrying(c);
      SendsKeepStream(c.EnsureSegment(), false);
      SendsKeepStream(c, false);
    }
  }

  lemma ArrivalKeepsStream(c: Connection, seg: Segment)
    requires ConnInv(c) && Young(c.sender)
    ensures SameStream(c, c.SegmentReceived(seg))
    ensures c.SegmentReceived(seg).sender.receiveAck == c.sender.receiveAck
            || (seg.header.ack && c.SegmentReceived(seg).sender.receiveAck
                                  == c.sender.AckReceived(seg.header.ackno, seg.header.win).receiveAck)
  {
    var d := c.(timeSinceLastSegment := 0);
    if c.active && !d.Ignores(seg) {
      TakeInKeepsBase(d, seg);
      if seg.header.ack && d.sender.nextSeqno > 0 {
        var sent := AckReceivedEmits(d.sender, seg.header.ackno, seg.header.win);
      }
      ReactKeepsStream(d.TakeIn(seg), seg);
    }
  }

  lemma TickKeepsStream(c: Connection, ms: nat)
    requires ConnInv(c)
    ensures SameSending(c, c.Tick(ms))
  {
    if c.active {
      var d := c.Elapse(ms);
      ElapseFollows(c, ms);
      if d.sender.consecutiveRetrans > MAX_RETX_ATTEMPTS {
        UncleanShutdownKeepsStream(d, true);
        SendsKeepStream(d.UncleanShutdown(true), false);
      } else {
        SendsKeepStream(d, false);
      }
    }
  }

  /** What a write adds: as much of the data as there is room for. */
  function Accepted(c: Connection, e: Event): seq<byte>
    requires c.Valid()
  {
    if e.AppWrites? then e.data[..Min(|e.data|, c.sender.stream.capacity - c.sender.stream.BufferSize())] else []
  }

  /** The outbound stream grows by exactly what the application writes and there is room for, and ends on its word. */
  lemma EventGrowsStream(c: Connection, e: Event)
    requires ConnInv(c) && Allowed(c, e)
    ensures Next(c, e).sender.stream.accepted == c.sender.stream.accepted + Accepted(c, e)
    ensures Next(c, e).sender.stream.inputEnded <==> c.sender.stream.inputEnded || e.AppCloses?
  {
    assert c.sender.stream.accepted + [] == c.sender.stream.accepted;
    match e {
      case Arrives(seg) => ArrivalKeepsStream(c, seg);
      case TimePasses(ms) => TickKeepsStream(c, ms);
      case AppConnects => SendsKeepStream(c, true);
      case AppWrites(data) => WriteGrowsStream(c, data);
      case AppCloses =>
        StepKeepsInv(c.sender, EndInputOp);
        SendsKeepStream(c.(sender := c.sender.EndInput()), false);
      case _ => IdleOnward(c, e);
    }
  }

  lemma WriteGrowsStream(c: Connection, data: seq<byte>)
    requires ConnInv(c) && !c.sender.stream.inputEnded
    ensures Next(c, AppWrites(data)).sender.stream.accepted == c.sender.stream.accepted + Accepted(c, AppWrites(data))
    ensures !Next(c, AppWrites(data)).sender.stream.inputEnded
  {
    StepKeepsInv(c.sender, SenderOp.WriteOp(data));
    SendsKeepStream(c.(sender := c.sender.Write(data)), false);
  }

  // ----- The pair

  predicate ShortStream(c: Connection) {
    |c.sender.stream.accepted| + 2 < TWO31
  }

  /**
   * Data arrives that was sent at some time, and the application keeps its stream short and does not write after
   * closing.
   */
  predicate ShortMoveA(p: Pair, m: Move) {
    m.Local? ==>
      && (m.e.AppWrites? ==> !p.a.sender.stream.inputEnded && |p.a.sender.stream.accepted| + |m.e.data| + 2 < TWO31)
      && (m.e.Arrives? ==> OnWire(p.toA, m.e.seg))
  }

  lemma ShortMoveAllowed(p: Pair, m: Move)
    requires PairInv(p) && ShortStream(p.a) && ShortStream(p.b) && ShortMoveA(p, m)
    ensures AllowedA(p, m)
  {
    if m.Local? && m.e.Arrives? {
      ShortStreamsAreNear(p, m.e.seg);
    }
  }

  lemma ShortMoveStaysShort(p: Pair, m: Move)
    requires PairInv(p) && ShortStream(p.a) && ShortStream(p.b) && ShortMoveA(p, m)
    ensures PairInv(MoveA(p, m)) && ShortStream(MoveA(p, m).a)
  {
    ShortMoveAllowed(p, m);
    MoveKeepsInv(p, m);
    match m {
      case Local(e) => EventGrowsStream(p.a, e);
      case Transmit =>
    }
  }

  predicate ShortMove(p: Pair, m: PairMove) {
    match m
    case AtA(m) => ShortMoveA(p, m)
    case AtB(m) => ShortMoveA(Swap(p), m)
  }

  predicate ShortRun(p: Pair, moves: seq<PairMove>)
    requires p.a.Valid() && p.b.Valid()
    decreases |moves|
  {
    moves != [] ==> ShortMove(p, moves[0]) && ShortRun(PairNext(p, moves[0]), moves[1..])
  }

  lemma {:induction false} ShortRunKeepsInv(p: Pair, moves: seq<PairMove>)
    requires PairInv(p) && ShortStream(p.a) && ShortStream(p.b) && ShortRun(p, moves)
    ensures PairInv(PairRun(p, moves))
    decreases |moves|
  {
    if moves == [] {
    } else {
      match moves[0] {
        case AtA(m) => ShortMoveStaysShort(p, m);
        case AtB(m) => ShortMoveStaysShort(Swap(p), m);
      }
      ShortRunKeepsInv(PairNext(p, moves[0]), moves[1..]);
    }
  }

  /**
   * End-to-end safety of short streams: from two fresh endpoints, after any run over channels that lose, duplicate,
   * delay and reorder, what each side received is a prefix of what the other wrote.
   */
  lemma ShortStreamsArriveIntact(a: Connection, b: Connection, moves: seq<PairMove>,
                                 rtA: u16, rtB: u16, recvA: nat, recvB: nat,
                                 sendA: nat, sendB: nat, isnA: u32, isnB: u32)
    requires a == NewConnection(rtA, recvA, sendA, isnA) && b == NewConnection(rtB, recvB, sendB, isnB)
    requires ShortRun(Pair(a, b, {}, {}), moves)
    ensures var q := PairRun(Pair(a, b, {}, {}), moves);
            && q.b.receiver.reassembler.output.accepted <= q.a.sender.stream.accepted
            && q.a.receiver.reassembler.output.accepted <= q.b.sender.stream.accepted
  {
    var p := Pair(a, b, {}, {});
    NewPairInv(rtA, rtB, recvA, recvB, sendA, sendB, isnA, isnB);
    ShortRunKeepsInv(p, moves);
  }
}
