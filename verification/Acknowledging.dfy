/**
 * What endpoints tell each other: no acknowledgment ever claims more than was received, every segment that
 * occupies sequence space is answered, and giving up is announced by a reset.
 */
module Acknowledging {
  import opened Common
  import opened WrappingIntegers
  import opened Segments
  import opened Blocks
  import opened Reassembly
  import opened SenderSpec
  import opened SenderInvariant
  import opened ReceiverSpec
  import opened ConnectionSpec
  import opened ConnectionInvariant
  import opened EndToEnd

  // ----- Truthful acknowledgments

  /** The number acknowledges at most `limit` sequence numbers. */
  ghost predicate Claims(ackno: u32, isn: u32, limit: nat) {
    exists n: nat :: n <= limit && ackno == Wrap(n, isn)
  }

  ghost predicate Truthful(r: Receiver) {
    r.syn ==> Claims(r.ackno, r.isn, Expected(r))
  }

  lemma ClaimsAdvance(ackno: u32, isn: u32, limit: nat, step: nat)
    requires Claims(ackno, isn, limit)
    ensures Claims(ackno, isn, limit + step) && Claims(Plus(ackno, step), isn, limit + step)
  {
    var n: nat :| n <= limit && ackno == Wrap(n, isn);
    PlusWrap(n, step, isn);
    assert n + step <= limit + step;
  }

  lemma GreetTruthful(r: Receiver, seg: Segment)
    requires Truthful(r) && !(seg.header.syn && r.syn)
    ensures Truthful(r.Greet(seg))
  {
    if seg.header.syn {
      WrapZero(seg.header.seqno);
      PlusWrap(0, 1, seg.header.seqno);
    }
  }

  lemma AcceptTruthful(r: Receiver, seg: Segment, first: bool)
    requires r.Valid() && Truthful(r) && r.syn
    ensures Truthful(r.Accept(seg, first))
  {
    var p := r.reassembler.Push(seg.payload, if first then 0 else r.IndexOf(seg.header.seqno), seg.header.fin);
    ClaimsAdvance(r.ackno, r.isn, Expected(r), p.head - r.reassembler.head);
  }

  lemma CloseTruthful(r: Receiver, fin: bool)
    requires Truthful(r)
    ensures Truthful(r.Close(fin))
  {
    if r.syn {
      ClaimsAdvance(r.ackno, r.isn, Expected(r), 1);
    }
  }

  /** The receiver's acknowledgment number stays truthful whatever arrives. */
  lemma SegmentReceivedTruthful(r: Receiver, seg: Segment)
    requires r.Valid() && Truthful(r)
    ensures Truthful(r.SegmentReceived(seg))
  {
    if !(seg.header.syn && r.syn) {
      GreetTruthful(r, seg);
      var g := r.Greet(seg);
      if g.syn {
        AcceptTruthful(g, seg, seg.header.syn);
        CloseTruthful(g.Accept(seg, seg.header.syn), seg.header.fin);
      }
      CloseTruthful(g, seg.header.fin);
    }
  }

  // ----- Segments before and after stamping

  /** Segments the sender made carry neither acknowledgment nor reset. */
  ghost predicate Plain(segs: seq<Segment>) {
    forall seg | seg in segs :: !seg.header.ack && !seg.header.rst
  }

  ghost predicate PlainSender(s: Sender) {
    Plain(s.inFlight) && Plain(s.out)
  }

  lemma {:induction false} FillLoopPlain(s: Sender, win: nat)
    requires s.stream.Valid() && PlainSender(s)
    ensures PlainSender(s.FillLoop(win))
    decreases s.stream.BufferSize(), !s.fin
  {
    if s.CanSend(win) {
      FillLoopPlain(s.Round(win), win);
    }
  }

  lemma FillWindowPlain(s: Sender)
    requires s.stream.Valid() && PlainSender(s)
    ensures PlainSender(s.FillWindow())
  {
    if s.syn {
      FillLoopPlain(s.(windowIsZero := s.windowSize == 0), s.Window());
    }
  }

  lemma AckReceivedPlain(s: Sender, ackno: u32, window: u16)
    requires s.stream.Valid() && PlainSender(s)
    ensures PlainSender(s.AckReceived(ackno, window))
  {
    var ack := Unwrap(ackno, s.isn, s.checkpoint);
    if s.receiveAck < ack <= s.nextSeqno {
      PopAckedKeeps(s.(windowSize := window, receiveAck := ack, checkpoint := ack), ack);
      FillWindowPlain(s.Acked(ack, window));
    }
  }

  /** An acknowledgment in the segment is a truthful one of what the receiver has. */
  ghost predicate Honest(seg: Segment, r: Receiver) {
    seg.header.ack ==> r.syn && Claims(seg.header.ackno, r.isn, Expected(r))
  }

  ghost predicate Telling(c: Connection) {
    && Truthful(c.receiver) && PlainSender(c.sender)
    && forall seg | seg in c.out :: Honest(seg, c.receiver)
  }

  lemma {:induction false} StampedHonest(c: Connection, segs: seq<Segment>)
    requires Truthful(c.receiver) && Plain(segs)
    ensures forall seg | seg in c.StampAll(segs) :: Honest(seg, c.receiver)
  {
    if segs != [] {
      assert segs[0] in segs;
      StampedHonest(c, segs[1..]);
    }
  }

  lemma SegmentSendsTelling(c: Connection, sendSyn: bool)
    requires c.Valid() && Telling(c)
    ensures Telling(c.SegmentSends(sendSyn)) && c.SegmentSends(sendSyn).receiver == c.receiver
  {
    if sendSyn || c.synSended {
      FillWindowPlain(c.sender);
      var d := c.(synSended := true, sender := c.sender.FillWindow());
      StampedHonest(d, d.sender.out);
    }
  }

  lemma UncleanShutdownTelling(c: Connection, sendRst: bool)
    requires c.Valid() && Telling(c)
    ensures Telling(c.UncleanShutdown(sendRst))
  {
    SetErrorsTelling(c);
    if sendRst {
      SegmentSendsTelling(c.SetErrors().(needSendRst := true).EnsureSegment(), false);
    }
  }

  lemma SetErrorsTelling(c: Connection)
    requires c.Valid() && Telling(c)
    ensures Telling(c.SetErrors()) && Telling(c.SetErrors().(needSendRst := true).EnsureSegment())
  {
  }

  lemma ReactTelling(c: Connection, seg: Segment)
    requires c.Valid() && Telling(c)
    ensures Telling(c.React(seg))
  {
    if seg.header.syn && c.sender.nextSeqno == 0 {
      SegmentSendsTelling(c, true);
    } else if seg.header.rst {
      UncleanShutdownTelling(c, false);
    } else {
      SegmentSendsTelling(c.EnsureSegment(), false);
      SegmentSendsTelling(c, false);
    }
  }

  /** What was truthful before a segment is taken in still is afterwards. */
  lemma HonestLater(seg: Segment, r: Receiver, arrived: Segment)
    requires r.Valid() && Honest(seg, r)
    ensures Honest(seg, r.SegmentReceived(arrived))
  {
  }

  lemma TakeInTelling(c: Connection, seg: Segment)
    requires c.Valid() && Telling(c)
    ensures Telling(c.TakeIn(seg))
  {
    AckReceivedPlain(c.sender, seg.header.ackno, seg.header.win);
    SegmentReceivedTruthful(c.receiver, seg);
    forall s | s in c.out
      ensures Honest(s, c.receiver.SegmentReceived(seg))
    {
      HonestLater(s, c.receiver, seg);
    }
  }

  lemma ArrivalTelling(c: Connection, seg: Segment)
    requires c.Valid() && Telling(c)
    ensures Telling(c.SegmentReceived(seg))
  {
    if c.active {
      var d := c.(timeSinceLastSegment := 0);
      if !d.Ignores(seg) {
        TakeInTelling(d, seg);
        ReactTelling(d.TakeIn(seg), seg);
      }
    }
  }

  lemma TickTelling(c: Connection, ms: nat)
    requires c.Valid() && Telling(c)
    ensures Telling(c.Tick(ms))
  {
    if c.active {
      var d := c.Elapse(ms);
      if d.sender.consecutiveRetrans > MAX_RETX_ATTEMPTS {
        UncleanShutdownTelling(d, true);
        SegmentSendsTelling(d.UncleanShutdown(true), false);
      } else {
        SegmentSendsTelling(d, false);
      }
    }
  }

  lemma ReadTelling(c: Connection, len: nat)
    requires c.Valid() && Telling(c)
    ensures Telling(c.ReadInbound(len))
  {
  }

  lemma NextTelling(c: Connection, e: Event)
    requires c.Valid() && Telling(c)
    ensures Telling(Next(c, e))
  {
    match e {
      case Arrives(seg) => ArrivalTelling(c, seg);
      case AppWrites(data) => SegmentSendsTelling(c.(sender := c.sender.Write(data)), false);
      case AppCloses => SegmentSendsTelling(c.(sender := c.sender.EndInput()), false);
      case AppConnects => SegmentSendsTelling(c, true);
      case AppReads(len) => ReadTelling(c, len);
      case TimePasses(ms) => TickTelling(c, ms);
      case OwnerTakes =>
    }
  }

  lemma {:induction false} AfterTelling(c: Connection, events: seq<Event>)
    requires c.Valid() && Telling(c)
    ensures Telling(After(c, events))
    decreases |events|
  {
    if events == [] {
    } else {
      NextTelling(c, events[0]);
      AfterTelling(Next(c, events[0]), events[1..]);
    }
  }

  /**
   * Whatever segments arrive in whatever order, every queued segment that acknowledges claims at most the SYN, the
   * bytes that were written to the inbound stream and a FIN that was counted.
   */
  lemma AcknowledgmentsAreTruthful(rtTimeout: u16, recvCapacity: nat, sendCapacity: nat, isn: u32, events: seq<Event>)
    ensures var c := After(NewConnection(rtTimeout, recvCapacity, sendCapacity, isn), events);
            forall seg | seg in c.out :: Honest(seg, c.receiver)
  {
    AfterTelling(NewConnection(rtTimeout, recvCapacity, sendCapacity, isn), events);
  }

  // ----- Answers and resets

  /** The segments one event adds to the outbound queue, all telling the peer where the receiver stands. */
  ghost predicate Tells(c: Connection, d: Connection) {
    && |d.out| > |c.out|
    && forall i | |c.out| <= i < |d.out| ::
         d.out[i].header.ack && Some(d.out[i].header.ackno) == d.receiver.Ackno()
         && d.out[i].header.win == d.receiver.WindowSize() % TWO16
  }

  lemma DrainTells(c: Connection)
    requires c.sender.out != [] && c.receiver.Ackno().Some?
    ensures Tells(c, c.Drain())
  {
    var d := c.Drain();
    StampAllAt(c, c.sender.out, 0);
    forall i | |c.out| <= i < |d.out|
      ensures d.out[i] == c.Stamp(c.sender.out[i - |c.out|])
    {
      StampAllLength(c, c.sender.out);
      StampAllAt(c, c.sender.out, i - |c.out|);
    }
  }

  lemma {:induction false} StampAllLength(c: Connection, segs: seq<Segment>)
    ensures |c.StampAll(segs)| == |segs|
  {
    if segs != [] {
      StampAllLength(c, segs[1..]);
    }
  }

  lemma SendsTell(c: Connection, sendSyn: bool)
    requires c.Valid() && Inv(c.sender) && (sendSyn || c.synSended) && c.receiver.Ackno().Some?
    requires c.sender.out != [] || !c.sender.syn
    ensures Tells(c, c.SegmentSends(sendSyn))
  {
    var d := c.(synSended := true, sender := c.sender.FillWindow());
    var sent := FillWindowEmits(c.sender);
    DrainTells(d);
  }

  lemma ReactTells(c: Connection, seg: Segment)
    requires Base(c) && (c.receiver.syn ==> c.synSended || seg.header.syn)
    requires seg.LengthInSequenceSpace() > 0 && !seg.header.rst && c.receiver.Ackno().Some?
    ensures Tells(c, c.React(seg))
  {
    if seg.header.syn && c.sender.nextSeqno == 0 {
      SendsTell(c, true);
    } else {
      AnswerTells(c);
    }
  }

  lemma AnswerTells(c: Connection)
    requires c.Valid() && Inv(c.sender) && c.synSended && c.receiver.Ackno().Some?
    ensures Tells(c, c.EnsureSegment().SegmentSends(false))
  {
    EnsureSegmentCarrying(c);
    SendsTell(c.EnsureSegment(), false);
  }

  /**
   * Every arriving segment that occupies sequence space and does not reset the connection is answered: new segments are
   * queued, and all of them carry the receiver's current acknowledgment number and window.
   */
  lemma ArrivalIsAnswered(c: Connection, seg: Segment)
    requires ConnInv(c) && c.active && Young(c.sender) && !c.Ignores(seg)
    requires seg.LengthInSequenceSpace() > 0 && !seg.header.rst && c.receiver.SegmentReceived(seg).Ackno().Some?
    ensures Tells(c, c.SegmentReceived(seg))
  {
    var d := c.(timeSinceLastSegment := 0).TakeIn(seg);
    TakeInKeepsBase(c.(timeSinceLastSegment := 0), seg);
    ReactTells(d, seg);
  }

  /** The first segment of a peer that opens the connection with this initial number, and possibly data and its FIN. */
  function PeerSyn(seqno: u32, payload: seq<byte>, fin: bool): Segment {
    NewSegment(true, fin, payload).(header := DEFAULT_HEADER.(seqno := seqno, syn := true, fin := fin))
  }

  /**
   * What a receiver with this capacity counts of it: the SYN, the bytes there is room for, and a FIN with nothing
   * pending.
   */
  function CountedOf(capacity: nat, payload: seq<byte>, fin: bool): nat {
    1 + Min(|payload|, capacity) + (if fin && (|payload| <= capacity || capacity == 0) then 1 else 0)
  }

  lemma FirstPush(capacity: nat, payload: seq<byte>, fin: bool)
    ensures var p := NewReassembler(capacity).Push(payload, 0, fin);
            p.head == Min(|payload|, capacity) && (p.Empty() <==> |payload| <= capacity || capacity == 0)
  {
    var r := NewReassembler(capacity);
    if capacity > 0 && payload != [] {
      assert Insert([], Block(0, payload)) == [Block(0, payload)];
      assert r.Trim(payload, 0) == Block(0, payload);
    }
  }

  lemma PeerSynTaken(capacity: nat, seqno: u32, payload: seq<byte>, fin: bool)
    ensures var r := NewReceiver(capacity).SegmentReceived(PeerSyn(seqno, payload, fin));
            r.syn && r.ackno == Plus(seqno, CountedOf(capacity, payload, fin))
  {
    var g := NewReceiver(capacity).Greet(PeerSyn(seqno, payload, fin));
    FirstPush(capacity, payload, fin);
    var a := g.Accept(PeerSyn(seqno, payload, fin), true);
    PlusPlus(seqno, 1, a.reassembler.head);
    PlusPlus(seqno, 1 + a.reassembler.head, 1);
  }

  lemma PlusPlus(n: u32, a: nat, b: nat)
    ensures Plus(Plus(n, a), b) == Plus(n, a + b)
  {
  }

  lemma FirstSynAlone(capacity: nat, timeout: u16, isn: u32)
    ensures |NewSender(capacity, timeout, isn).FillWindow().out| == 1
  {
  }

  /**
   * A fresh endpoint answers a SYN, whatever it carries, with a single segment, which acknowledges it exactly unless
   * what is counted of it takes the number to 0.
   */
  lemma SynIsAcknowledgedExactly(rtTimeout: u16, recvCapacity: nat, sendCapacity: nat, isn: u32,
                                 seqno: u32, payload: seq<byte>, fin: bool)
    ensures var start := NewConnection(rtTimeout, recvCapacity, sendCapacity, isn);
            var c := start.SegmentReceived(PeerSyn(seqno, payload, fin));
            c.receiver.syn && |c.out| == 1
            && (c.out[0].header.ack <==> (seqno + CountedOf(recvCapacity, payload, fin)) % TWO32 != 0)
  {
    var c := NewConnection(rtTimeout, recvCapacity, sendCapacity, isn);
    var seg := PeerSyn(seqno, payload, fin);
    PeerSynTaken(recvCapacity, seqno, payload, fin);
    FirstSynAlone(sendCapacity, rtTimeout, isn);
    var d := c.(receiver := c.receiver.SegmentReceived(seg), sender := c.sender.FillWindow(), synSended := true);
    StampAllAt(d, d.sender.out, 0);
    assert c.SegmentReceived(seg) == d.Drain().CleanShutdown();
  }

  /** Giving up after too many retransmissions queues at least one segment, and every segment queued then is a reset. */
  lemma GivingUpSendsReset(c: Connection, ms: nat)
    requires ConnInv(c) && c.active && c.synSended
    requires c.sender.Tick(ms).consecutiveRetrans > MAX_RETX_ATTEMPTS
    ensures var d := c.Tick(ms);
            && !d.active && Errored(d) && |d.out| > |c.out|
            && forall i | |c.out| <= i < |d.out| :: d.out[i].header.rst
  {
    var e := c.Elapse(ms);
    StepKeepsInv(c.sender, TickOp(ms));
    var f := e.SetErrors().(needSendRst := true).EnsureSegment();
    SetErrorsCarrying(e);
    EnsureSegmentCarrying(e.SetErrors().(needSendRst := true));
    ResetsAll(f);
    var g := f.SegmentSends(false);
    SegmentSendsCarrying(f, false);
    ResetsAll(g);
  }

  /** While a reset is due, everything sent is one. */
  lemma ResetsAll(c: Connection)
    requires c.Valid() && Inv(c.sender) && c.synSended && c.needSendRst
    ensures var d := c.SegmentSends(false);
            && c.out <= d.out && d.needSendRst && d.synSended && (d.active ==> c.active) && Errored(d) == Errored(c)
            && (c.sender.out != [] ==> |d.out| > |c.out|)
            && forall i | |c.out| <= i < |d.out| :: d.out[i].header.rst
  {
    var d := c.(sender := c.sender.FillWindow());
    var sent := FillWindowEmits(c.sender);
    StampAllLength(d, d.sender.out);
    forall i | 0 <= i < |d.sender.out|
      ensures d.StampAll(d.sender.out)[i].header.rst
    {
      StampAllAt(d, d.sender.out, i);
    }
  }
}
