/**
 * Two connection endpoints joined by channels that may lose, duplicate, delay and reorder segments: whatever
 * happens, each side has received a prefix of what the other wrote.
 */
module EndToEnd {
  import opened Common
  import opened WrappingIntegers
  import opened Streams
  import opened Segments
  import opened Blocks
  import opened Reassembly
  import opened SenderSpec
  import opened SenderInvariant
  import opened ReceiverSpec
  import opened ConnectionSpec
  import opened ConnectionInvariant

  // ----- One direction: the receiver takes in segments that carry the sender's stream

  /** The segment is close enough to what the receiver has written for its number to unwrap exactly. */
  predicate Near(at: nat, r: Receiver) {
    Distance(at, r.reassembler.head) < TWO31 && at < TWO64 && r.reassembler.head < TWO64 - TWO32
  }

  /** Everything the receiver holds or has output is the sender's stream, in place. */
  ghost predicate Tracks(r: Receiver, isn: u32, stream: Stream) {
    r.Valid() && Faithful(r.reassembler, stream.accepted) && (r.syn ==> r.isn == isn)
  }

  lemma CloseTracks(r: Receiver, fin: bool, isn: u32, stream: Stream)
    requires Tracks(r, isn, stream)
    ensures Tracks(r.Close(fin), isn, stream)
  {
  }

  lemma AcceptTracks(r: Receiver, seg: Segment, at: nat, isn: u32, stream: Stream)
    requires Tracks(r, isn, stream) && Carries(seg, at, isn, stream) && Near(at, r) && r.syn
    ensures Tracks(r.Accept(seg, seg.header.syn), isn, stream)
  {
    var index := if seg.header.syn then 0 else r.IndexOf(seg.header.seqno);
    PushesInPlace(r, seg, at, isn, stream);
    PushFaithful(r.reassembler, stream.accepted, seg.payload, index, seg.header.fin);
  }

  lemma PushesInPlace(r: Receiver, seg: Segment, at: nat, isn: u32, stream: Stream)
    requires Tracks(r, isn, stream) && Carries(seg, at, isn, stream) && Near(at, r) && r.syn
    ensures Agrees(Block(if seg.header.syn then 0 else r.IndexOf(seg.header.seqno), seg.payload), stream.accepted)
  {
    UnwrapWrap(at, isn, r.reassembler.head);
    if !seg.header.syn && at > 0 {
      assert (at - 1) % TWO64 == at - 1;
    }
  }

  lemma SegmentReceivedTracks(r: Receiver, seg: Segment, at: nat, isn: u32, stream: Stream)
    requires Tracks(r, isn, stream) && Carries(seg, at, isn, stream) && Near(at, r)
    ensures Tracks(r.SegmentReceived(seg), isn, stream)
  {
    if !(seg.header.syn && r.syn) {
      WrapZero(isn);
      var g := r.Greet(seg);
      if g.syn {
        AcceptTracks(g, seg, at, isn, stream);
        CloseTracks(g.Accept(seg, seg.header.syn), seg.header.fin, isn, stream);
      }
      CloseTracks(g, seg.header.fin, isn, stream);
    }
  }

  lemma TracksExtends(r: Receiver, isn: u32, stream: Stream, more: Stream)
    requires Tracks(r, isn, stream) && Extends(more, stream)
    ensures Tracks(r, isn, more)
  {
  }

  // ----- Whatever an endpoint queues for sending carries its stream

  ghost predicate Genuine(seg: Segment, isn: u32, stream: Stream) {
    exists at: nat :: Carries(seg, at, isn, stream)
  }

  ghost predicate AllGenuine(segs: seq<Segment>, isn: u32, stream: Stream) {
    forall seg | seg in segs :: Genuine(seg, isn, stream)
  }

  lemma {:induction false} ContiguousGenuine(q: seq<Segment>, from: nat, to: nat, isn: u32, stream: Stream)
    requires Contiguous(q, from, to, isn, stream)
    ensures AllGenuine(q, isn, stream)
    decreases |q|
  {
    if q != [] {
      ContiguousGenuine(q[1..], from + q[0].LengthInSequenceSpace(), to, isn, stream);
    }
  }

  lemma GenuineExtends(segs: seq<Segment>, isn: u32, stream: Stream, more: Stream)
    requires AllGenuine(segs, isn, stream) && Extends(more, stream)
    ensures AllGenuine(segs, isn, more)
  {
    forall seg | seg in segs
      ensures Genuine(seg, isn, more)
    {
      var at: nat :| Carries(seg, at, isn, stream);
      CarriesExtends(seg, at, isn, stream, more);
    }
  }

  lemma {:induction false} StampedGenuine(c: Connection, segs: seq<Segment>, isn: u32, stream: Stream)
    requires AllGenuine(segs, isn, stream)
    ensures AllGenuine(c.StampAll(segs), isn, stream)
  {
    if segs != [] {
      StampedGenuine(c, segs[1..], isn, stream);
      assert segs[0] in segs;
      var at: nat :| Carries(segs[0], at, isn, stream);
      assert Carries(c.Stamp(segs[0]), at, isn, stream);
    }
  }

  ghost predicate QueuesGenuine(c: Connection) {
    AllGenuine(c.sender.out, c.sender.isn, c.sender.stream) && AllGenuine(c.out, c.sender.isn, c.sender.stream)
  }

  /** d follows c with the same numbering, its stream only grown, and nothing but genuine segments queued. */
  ghost predicate Carrying(c: Connection, d: Connection) {
    && d.sender.isn == c.sender.isn && Extends(d.sender.stream, c.sender.stream)
    && (QueuesGenuine(c) ==> QueuesGenuine(d))
  }

  lemma CarryingTransitive(c: Connection, d: Connection, e: Connection)
    requires Carrying(c, d) && Carrying(d, e)
    ensures Carrying(c, e)
  {
  }

  lemma DrainCarrying(c: Connection)
    ensures Carrying(c, c.Drain())
  {
    if QueuesGenuine(c) {
      StampedGenuine(c, c.sender.out, c.sender.isn, c.sender.stream);
    }
  }

  lemma EmissionCarrying(c: Connection, t: Sender, sent: seq<Segment>)
    requires Emits(c.sender, t, sent)
    ensures Carrying(c, c.(sender := t))
  {
    ContiguousGenuine(sent, c.sender.nextSeqno, t.nextSeqno, c.sender.isn, c.sender.stream);
    if QueuesGenuine(c) {
      GenuineExtends(c.sender.out + sent, c.sender.isn, c.sender.stream, t.stream);
      GenuineExtends(c.out, c.sender.isn, c.sender.stream, t.stream);
    }
  }

  lemma FillCarrying(c: Connection)
    requires c.Valid() && Inv(c.sender)
    ensures Carrying(c, c.(sender := c.sender.FillWindow()))
  {
    var sent := FillWindowEmits(c.sender);
    EmissionCarrying(c, c.sender.FillWindow(), sent);
  }

  lemma SegmentSendsCarrying(c: Connection, sendSyn: bool)
    requires c.Valid() && Inv(c.sender)
    ensures Carrying(c, c.SegmentSends(sendSyn)) && Inv(c.SegmentSends(sendSyn).sender)
    ensures c.SegmentSends(sendSyn).receiver == c.receiver
  {
    if sendSyn || c.synSended {
      FillAndDrainCarrying(c);
      var d := c.(synSended := true, sender := c.sender.FillWindow()).Drain();
      ShutdownCarrying(d);
      CarryingTransitive(c, d, d.CleanShutdown());
    }
  }

  lemma FillAndDrainCarrying(c: Connection)
    requires c.Valid() && Inv(c.sender)
    ensures var d := c.(synSended := true, sender := c.sender.FillWindow()).Drain();
            Carrying(c, d) && Inv(d.sender) && d.receiver == c.receiver
  {
    var d := c.(synSended := true, sender := c.sender.FillWindow());
    FillWindowKeepsInv(c.sender);
    FillCarrying(c);
    assert Carrying(c, d);
    DrainCarrying(d);
    CarryingTransitive(c, d, d.Drain());
  }

  lemma ShutdownCarrying(c: Connection)
    ensures Carrying(c, c.CleanShutdown())
    ensures c.CleanShutdown().sender == c.sender && c.CleanShutdown().receiver == c.receiver
  {
  }

  lemma StreamCarrying(c: Connection, stream: Stream)
    requires Extends(stream, c.sender.stream)
    ensures Carrying(c, c.(sender := c.sender.(stream := stream)))
  {
    if QueuesGenuine(c) {
      GenuineExtends(c.sender.out, c.sender.isn, c.sender.stream, stream);
      GenuineExtends(c.out, c.sender.isn, c.sender.stream, stream);
    }
  }

  lemma EnsureSegmentCarrying(c: Connection)
    requires c.Valid() && Inv(c.sender)
    ensures Carrying(c, c.EnsureSegment()) && Inv(c.EnsureSegment().sender)
    ensures c.EnsureSegment().receiver == c.receiver
  {
    if c.sender.out == [] {
      EmptySegmentGenuine(c.sender);
      QueueOpKeepsInv(c.sender, SendEmptyOp);
    }
  }

  lemma EmptySegmentGenuine(s: Sender)
    requires Inv(s) && s.out == []
    ensures AllGenuine(s.SendEmptySegment().out, s.isn, s.stream)
  {
    assert Carries(s.SendEmptySegment().out[0], s.nextSeqno, s.isn, s.stream);
  }

  lemma SetErrorsCarrying(c: Connection)
    requires c.Valid() && Inv(c.sender)
    ensures Carrying(c, c.SetErrors()) && Inv(c.SetErrors().sender)
  {
    var s := c.SetErrors().sender;
    StreamCarrying(c, s.stream);
    ContiguousExtends(s.inFlight, Una(s), s.nextSeqno, s.isn, c.sender.stream, s.stream);
  }

  // ----- Endpoint events

  /** The receiver only saw its application read, or its stream marked as failed. */
  ghost predicate OnlyRead(r: Receiver, t: Receiver) {
    && t.Valid()
    && t == r.(reassembler := r.reassembler.(output := r.reassembler.output.(
         popped := t.reassembler.output.popped, error := t.reassembler.output.error)))
  }

  /** c became d: genuine sending, untouched receiving. */
  ghost predicate Follows(c: Connection, d: Connection) {
    Carrying(c, d) && OnlyRead(c.receiver, d.receiver)
  }

  lemma FollowsTransitive(c: Connection, d: Connection, e: Connection)
    requires Follows(c, d) && Follows(d, e)
    ensures Follows(c, e)
  {
  }

  lemma UncleanShutdownFollows(c: Connection, sendRst: bool)
    requires c.Valid() && Inv(c.sender)
    ensures Follows(c, c.UncleanShutdown(sendRst)) && Inv(c.UncleanShutdown(sendRst).sender)
  {
    SetErrorsCarrying(c);
    var d := c.SetErrors();
    if sendRst {
      var e := d.(needSendRst := true);
      assert Carrying(c, e);
      EnsureSegmentCarrying(e);
      CarryingTransitive(c, e, e.EnsureSegment());
      SegmentSendsCarrying(e.EnsureSegment(), false);
      CarryingTransitive(c, e.EnsureSegment(), c.UncleanShutdown(true));
    }
  }

  lemma AnswerFollows(c: Connection)
    requires c.Valid() && Inv(c.sender)
    ensures Follows(c, c.EnsureSegment().SegmentSends(false))
  {
    EnsureSegmentCarrying(c);
    SegmentSendsCarrying(c.EnsureSegment(), false);
    CarryingTransitive(c, c.EnsureSegment(), c.EnsureSegment().SegmentSends(false));
  }

  lemma ReactFollows(c: Connection, seg: Segment)
    requires Base(c)
    ensures Follows(c, c.React(seg))
  {
    if seg.header.syn && c.sender.nextSeqno == 0 {
      SegmentSendsCarrying(c, true);
    } else if seg.header.rst {
      UncleanShutdownFollows(c, false);
    } else {
      AnswerFollows(c);
      SegmentSendsCarrying(c, false);
    }
  }

  lemma TakeInCarrying(c: Connection, seg: Segment)
    requires Base(c) && Young(c.sender)
    ensures Carrying(c, c.TakeIn(seg))
  {
    if seg.header.ack && c.sender.nextSeqno > 0 {
      var sent := AckReceivedEmits(c.sender, seg.header.ackno, seg.header.win);
      EmissionCarrying(c, c.sender.AckReceived(seg.header.ackno, seg.header.win), sent);
    }
  }

  /** An arriving segment: genuine sending, and the receiver takes the segment in or does not. */
  lemma ArrivalFollows(c: Connection, seg: Segment)
    requires ConnInv(c) && Young(c.sender)
    ensures var d := c.SegmentReceived(seg);
            && Carrying(c, d)
            && (OnlyRead(c.receiver, d.receiver) || OnlyRead(c.receiver.SegmentReceived(seg), d.receiver))
  {
    if c.active {
      var e := c.(timeSinceLastSegment := 0);
      if !e.Ignores(seg) {
        TakeInKeepsBase(e, seg);
        TakeInCarrying(e, seg);
        ReactFollows(e.TakeIn(seg), seg);
        CarryingTransitive(c, e.TakeIn(seg), c.SegmentReceived(seg));
      }
    }
  }

  lemma ElapseFollows(c: Connection, ms: nat)
    requires c.Valid() && Inv(c.sender)
    ensures Follows(c, c.Elapse(ms)) && Inv(c.Elapse(ms).sender)
  {
    var s := c.sender;
    StepKeepsInv(s, TickOp(ms));
    ContiguousGenuine(s.inFlight, Una(s), s.nextSeqno, s.isn, s.stream);
  }

  lemma TickFollows(c: Connection, ms: nat)
    requires ConnInv(c)
    ensures Follows(c, c.Tick(ms))
  {
    if c.active {
      var d := c.Elapse(ms);
      ElapseFollows(c, ms);
      if d.sender.consecutiveRetrans > MAX_RETX_ATTEMPTS {
        UncleanShutdownFollows(d, true);
        SegmentSendsCarrying(d.UncleanShutdown(true), false);
        FollowsTransitive(c, d, d.UncleanShutdown(true));
        FollowsTransitive(c, d.UncleanShutdown(true), c.Tick(ms));
      } else {
        SegmentSendsCarrying(d, false);
        FollowsTransitive(c, d, c.Tick(ms));
      }
    }
  }

  lemma LocalFollows(c: Connection, e: Event)
    requires ConnInv(c) && Allowed(c, e) && !e.Arrives?
    ensures Follows(c, Next(c, e))
  {
    match e {
      case AppWrites(data) =>
        StepKeepsInv(c.sender, SenderOp.WriteOp(data));
        NewStreamFollows(c, c.sender.stream.Write(data));
      case AppCloses =>
        StepKeepsInv(c.sender, EndInputOp);
        NewStreamFollows(c, c.sender.stream.EndInput());
      case AppConnects => SegmentSendsCarrying(c, true);
      case AppReads(len) => ReadFollows(c, len);
      case TimePasses(ms) => TickFollows(c, ms);
      case OwnerTakes => TakeFollows(c);
    }
  }

  lemma ReadFollows(c: Connection, len: nat)
    requires c.Valid()
    ensures Follows(c, c.ReadInbound(len))
  {
  }

  lemma TakeFollows(c: Connection)
    requires c.Valid()
    ensures Follows(c, c.TakeSegment())
  {
    if c.out != [] {
      TailGenuine(c.out, c.sender.isn, c.sender.stream);
    }
  }

  lemma TailGenuine(segs: seq<Segment>, isn: u32, stream: Stream)
    requires segs != []
    ensures AllGenuine(segs, isn, stream) ==> AllGenuine(segs[1..], isn, stream)
  {
  }

  lemma NewStreamFollows(c: Connection, stream: Stream)
    requires c.Valid() && Extends(stream, c.sender.stream) && stream.Valid()
    requires Inv(c.sender.(stream := stream))
    ensures var d := c.(sender := c.sender.(stream := stream)); Follows(c, d.SegmentSends(false))
  {
    var d := c.(sender := c.sender.(stream := stream));
    StreamCarrying(c, stream);
    SegmentSendsCarrying(d, false);
    CarryingTransitive(c, d, d.SegmentSends(false));
  }

  // ----- The pair

  /** Two endpoints and, for each, the segments ever put on the wire towards it. Nothing ever leaves the wire. */
  datatype Pair = Pair(a: Connection, b: Connection, toA: set<Segment>, toB: set<Segment>)

  function Swap(p: Pair): Pair {
    Pair(p.b, p.a, p.toB, p.toA)
  }

  /** Something happens at one endpoint, or its next queued segment goes onto the wire. */
  datatype Move = Local(e: Event) | Transmit

  function MoveA(p: Pair, m: Move): (q: Pair)
    requires p.a.Valid() && p.b.Valid()
    ensures q.a.Valid() && q.b == p.b
  {
    match m
    case Local(e) => p.(a := Next(p.a, e))
    case Transmit => if p.a.out == [] then p else p.(a := p.a.TakeSegment(), toB := p.toB + {p.a.out[0]})
  }

  /** Equal in all that concerns the data; acknowledgment number, window and the other header fields may differ. */
  predicate SameData(x: Segment, y: Segment) {
    && x.payload == y.payload && x.header.seqno == y.header.seqno
    && x.header.syn == y.header.syn && x.header.fin == y.header.fin
  }

  predicate OnWire(wire: set<Segment>, seg: Segment) {
    exists sent | sent in wire :: SameData(sent, seg)
  }

  /**
   * The assumptions on the outside world: the data of an arriving segment was sent by the peer at some time (its
   * acknowledgment fields are arbitrary), it is less than 2^31 sequence numbers away from what the receiver has
   * written, and fewer than 2^31 are in flight.
   */
  ghost predicate AllowedA(p: Pair, m: Move) {
    m.Local? ==>
      && Allowed(p.a, m.e)
      && (m.e.Arrives? ==>
            && OnWire(p.toA, m.e.seg)
            && exists at: nat :: Carries(m.e.seg, at, p.b.sender.isn, p.b.sender.stream) && Near(at, p.a.receiver))
  }

  ghost predicate WireGenuine(wire: set<Segment>, c: Connection) {
    forall seg | seg in wire :: Genuine(seg, c.sender.isn, c.sender.stream)
  }

  ghost predicate PairInv(p: Pair) {
    && ConnInv(p.a) && ConnInv(p.b)
    && QueuesGenuine(p.a) && QueuesGenuine(p.b)
    && WireGenuine(p.toB, p.a) && WireGenuine(p.toA, p.b)
    && Tracks(p.b.receiver, p.a.sender.isn, p.a.sender.stream)
    && Tracks(p.a.receiver, p.b.sender.isn, p.b.sender.stream)
  }

  lemma WireExtends(wire: set<Segment>, c: Connection, d: Connection)
    requires WireGenuine(wire, c) && Carrying(c, d)
    ensures WireGenuine(wire, d)
  {
    forall seg | seg in wire
      ensures Genuine(seg, d.sender.isn, d.sender.stream)
    {
      var at: nat :| Carries(seg, at, c.sender.isn, c.sender.stream);
      CarriesExtends(seg, at, c.sender.isn, c.sender.stream, d.sender.stream);
    }
  }

  lemma OnlyReadTracks(r: Receiver, t: Receiver, isn: u32, stream: Stream)
    requires Tracks(r, isn, stream) && OnlyRead(r, t)
    ensures Tracks(t, isn, stream)
  {
  }

  lemma EventKeepsTracking(p: Pair, e: Event)
    requires PairInv(p) && AllowedA(p, Local(e))
    ensures Carrying(p.a, Next(p.a, e)) && Tracks(Next(p.a, e).receiver, p.b.sender.isn, p.b.sender.stream)
  {
    var isn, stream := p.b.sender.isn, p.b.sender.stream;
    var r, t := p.a.receiver, Next(p.a, e).receiver;
    match e {
      case Arrives(seg) =>
        var at: nat :| Carries(seg, at, isn, stream) && Near(at, r);
        ArrivalFollows(p.a, seg);
        SegmentReceivedTracks(r, seg, at, isn, stream);
        if OnlyRead(r, t) {
          OnlyReadTracks(r, t, isn, stream);
        } else {
          OnlyReadTracks(r.SegmentReceived(seg), t, isn, stream);
        }
      case _ =>
        LocalFollows(p.a, e);
        OnlyReadTracks(r, t, isn, stream);
    }
  }

  lemma MoveKeepsInv(p: Pair, m: Move)
    requires PairInv(p) && AllowedA(p, m)
    ensures PairInv(MoveA(p, m))
  {
    match m {
      case Local(e) =>
        var d := Next(p.a, e);
        NextKeepsInv(p.a, e);
        EventKeepsTracking(p, e);
        WireExtends(p.toB, p.a, d);
        TracksExtends(p.b.receiver, p.a.sender.isn, p.a.sender.stream, d.sender.stream);
      case Transmit =>
        if p.a.out != [] {
          NextKeepsInv(p.a, OwnerTakes);
          TakeFollows(p.a);
        }
    }
  }

  // ----- Runs

  datatype PairMove = AtA(m: Move) | AtB(m: Move)

  function PairNext(p: Pair, m: PairMove): (q: Pair)
    requires p.a.Valid() && p.b.Valid()
    ensures q.a.Valid() && q.b.Valid()
  {
    match m
    case AtA(m) => MoveA(p, m)
    case AtB(m) => Swap(MoveA(Swap(p), m))
  }

  ghost predicate PairAllowed(p: Pair, m: PairMove) {
    match m
    case AtA(m) => AllowedA(p, m)
    case AtB(m) => AllowedA(Swap(p), m)
  }

  function PairRun(p: Pair, moves: seq<PairMove>): (q: Pair)
    requires p.a.Valid() && p.b.Valid()
    ensures q.a.Valid() && q.b.Valid()
    decreases |moves|
  {
    if moves == [] then p else PairRun(PairNext(p, moves[0]), moves[1..])
  }

  ghost predicate PairAllowedRun(p: Pair, moves: seq<PairMove>)
    requires p.a.Valid() && p.b.Valid()
    decreases |moves|
  {
    moves != [] ==> PairAllowed(p, moves[0]) && PairAllowedRun(PairNext(p, moves[0]), moves[1..])
  }

  lemma {:induction false} PairRunKeepsInv(p: Pair, moves: seq<PairMove>)
    requires PairInv(p) && PairAllowedRun(p, moves)
    ensures PairInv(PairRun(p, moves))
    decreases |moves|
  {
    if moves == [] {
    } else {
      match moves[0] {
        case AtA(m) => MoveKeepsInv(p, m);
        case AtB(m) => MoveKeepsInv(Swap(p), m);
      }
      PairRunKeepsInv(PairNext(p, moves[0]), moves[1..]);
    }
  }

  /**
   * End-to-end safety: from two fresh endpoints, after any run over lossy, duplicating, reordering channels, what
   * each side has received, and hence what its application has read, is a prefix of what the other side wrote.
   */
  lemma ReceivedIsPrefixOfWritten(a: Connection, b: Connection, moves: seq<PairMove>,
                                  rtA: u16, rtB: u16, recvA: nat, recvB: nat,
                                  sendA: nat, sendB: nat, isnA: u32, isnB: u32)
    requires a == NewConnection(rtA, recvA, sendA, isnA) && b == NewConnection(rtB, recvB, sendB, isnB)
    requires PairAllowedRun(Pair(a, b, {}, {}), moves)
    ensures var q := PairRun(Pair(a, b, {}, {}), moves);
            && q.b.receiver.reassembler.output.accepted <= q.a.sender.stream.accepted
            && q.a.receiver.reassembler.output.accepted <= q.b.sender.stream.accepted
  {
    NewPairInv(rtA, rtB, recvA, recvB, sendA, sendB, isnA, isnB);
    PairRunKeepsInv(Pair(a, b, {}, {}), moves);
  }

  lemma NewPairInv(rtA: u16, rtB: u16, recvA: nat, recvB: nat, sendA: nat, sendB: nat, isnA: u32, isnB: u32)
    ensures PairInv(Pair(NewConnection(rtA, recvA, sendA, isnA), NewConnection(rtB, recvB, sendB, isnB), {}, {}))
  {
  }

  /** While a stream stays under 2^31 - 2 bytes, everything on the wire meets the distance assumption. */
  lemma ShortStreamsAreNear(p: Pair, seg: Segment)
    requires PairInv(p) && OnWire(p.toA, seg) && |p.b.sender.stream.accepted| + 2 < TWO31
    ensures exists at: nat :: Carries(seg, at, p.b.sender.isn, p.b.sender.stream) && Near(at, p.a.receiver)
  {
    var sent :| sent in p.toA && SameData(sent, seg);
    var at: nat :| Carries(sent, at, p.b.sender.isn, p.b.sender.stream);
    assert Carries(seg, at, p.b.sender.isn, p.b.sender.stream) && Near(at, p.a.receiver);
  }
}
