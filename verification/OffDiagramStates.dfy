/** Runs that lead endpoints into the three situations that the official state diagram does not have. */
module OffDiagramStates {
  import opened Common
  import opened WrappingIntegers
  import opened Segments
  import opened SenderSpec
  import opened SenderInvariant
  import opened SenderWindow
  import opened ReceiverSpec
  import opened ConnectionSpec
  import opened ConnectionInvariant
  import opened ConnectionLifetime
  import opened OfficialStates

  /** Alive, and in no official state. */
  ghost predicate Astray(c: Connection) {
    ConnInv(c) && c.active && OffDiagram(c) && forall s :: StateOf(c) != Official(s)
  }

  /** The run is allowed and leads the endpoint off the diagram. */
  ghost predicate LeadsAstray(c: Connection, events: seq<Event>) {
    c.Valid() && AllowedRun(c, events) && Astray(After(c, events))
  }

  lemma FirstEvent(c: Connection, e: Event, rest: seq<Event>)
    requires c.Valid() && Allowed(c, e) && LeadsAstray(Next(c, e), rest)
    ensures LeadsAstray(c, [e] + rest)
  {
    assert ([e] + rest)[1..] == rest;
  }

  lemma ArrivalLeadsAstray(c: Connection, seg: Segment)
    requires ConnInv(c) && Young(c.sender)
    requires c.SegmentReceived(seg).active && OffDiagram(c.SegmentReceived(seg)) && Numbered(c.SegmentReceived(seg))
    ensures LeadsAstray(c, [Arrives(seg)])
  {
    SegmentReceivedSettles(c, seg);
    ReachableStatesAreOfficial(c.SegmentReceived(seg));
    FirstEvent(c, Arrives(seg), []);
  }

  /** A segment of a peer whose initial number is 0. */
  function FromPeer(seqno: u32, syn: bool, fin: bool): Segment {
    NewSegment(syn, fin, []).(header := DEFAULT_HEADER.(seqno := seqno, syn := syn, fin := fin))
  }

  /** It also acknowledges our SYN, ours being 0 as well, and grants a window of one. */
  function Acknowledged(seg: Segment): Segment {
    seg.(header := seg.header.(ack := true, ackno := 1, win := 1))
  }

  const BARE_ACK: Segment := Acknowledged(FromPeer(0, false, false))
  const PEER_SYN: Segment := FromPeer(0, true, false)
  const PEER_SYN_ACK: Segment := Acknowledged(PEER_SYN)
  const PEER_FIN: Segment := FromPeer(1, false, true)

  /** What `segment_sends` does to an endpoint that has sent or is to send its SYN. */
  lemma SendsFacts(c: Connection, sendSyn: bool)
    requires c.Valid() && Inv(c.sender) && (sendSyn || c.synSended)
    ensures var d := c.SegmentSends(sendSyn);
            && d.synSended && d.receiver == c.receiver && d.sender == c.sender.FillWindow().(out := [])
            && (c.linger && !(c.InboundEnded() && !d.OutboundEof()) ==> d.linger)
            && (c.active && !Drained(d) ==> d.active)
  {
  }

  lemma FilledFacts(s: Sender)
    requires Inv(s)
    ensures var t := s.FillWindow().(out := []);
            Inv(t) && t.receiveAck == s.receiveAck && t.windowSize == s.windowSize && t.isn == s.isn
  {
    FillWindowKeepsInv(s);
    var sent := FillWindowEmits(s);
  }

  lemma AnswerFacts(c: Connection)
    requires c.Valid() && Inv(c.sender) && c.synSended && c.sender.syn
    ensures var d := c.EnsureSegment().SegmentSends(false);
            && d.synSended && d.receiver == c.receiver && d.sender == c.sender.FillWindow().(out := [])
            && (c.linger && !(c.InboundEnded() && !d.OutboundEof()) ==> d.linger)
            && (c.active && !Drained(d) ==> d.active)
  {
    var e := c.EnsureSegment();
    EnsureOnlyQueues(c);
    SendsFacts(e, false);
    FillWindowIgnoresOut(c.sender, e.sender.out);
  }

  lemma EnsureOnlyQueues(c: Connection)
    requires c.Valid() && Inv(c.sender)
    ensures var e := c.EnsureSegment(); e == c.(sender := c.sender.(out := e.sender.out)) && Inv(e.sender)
  {
  }

  /** What is queued for the owner has no influence on what is sent. */
  lemma FillWindowIgnoresOut(s: Sender, out: seq<Segment>)
    requires s.stream.Valid() && s.syn
    ensures s.(out := out).FillWindow().(out := []) == s.FillWindow().(out := [])
  {
    FillIgnoresOut(s.(windowIsZero := s.windowSize == 0), s.Window(), out);
  }

  lemma {:induction false} FillIgnoresOut(s: Sender, win: nat, out: seq<Segment>)
    requires s.stream.Valid()
    ensures s.(out := out).FillLoop(win).(out := []) == s.FillLoop(win).(out := [])
    decreases s.stream.BufferSize(), !s.fin
  {
    if s.CanSend(win) {
      var t := s.(out := out).Round(win);
      assert t == s.Round(win).(out := t.out);
      FillIgnoresOut(s.Round(win), win, t.out);
    }
  }

  // ----- Halves of the endpoint along the runs

  /** The sender has sent its SYN and nothing else, and nothing is acknowledged. */
  ghost predicate SynOut(s: Sender) {
    && Inv(s) && s.syn && !s.fin && s.nextSeqno == 1 && s.bytesInFlight == 1 && s.receiveAck == 0 && s.isn == 0
    && s.stream.accepted == [] && s.stream.capacity > 0 && !s.stream.inputEnded
  }

  /** Connected with a window of one, and nothing in flight. */
  ghost predicate Idle(s: Sender) {
    && Inv(s) && s.syn && !s.fin && s.receiveAck == s.nextSeqno == 1 && s.Window() == 1
    && s.stream.accepted == [] && s.stream.capacity > 0 && !s.stream.inputEnded
  }

  /** Everything is read from the stream, and the window is full. */
  ghost predicate Full(s: Sender) {
    && Inv(s) && s.syn && !s.fin && s.nextSeqno == 2
    && s.nextSeqno - s.receiveAck == s.Window() && s.stream.BufferSize() == 0
  }

  /** The receiver has taken in the peer's SYN and nothing else. */
  ghost predicate Greeted(r: Receiver) {
    && r.Valid() && r.syn && !r.fin && r.finNotCount && r.ackno == 1 && r.isn == 0
    && r.reassembler.Empty() && r.reassembler.head == 0 && !r.reassembler.output.inputEnded
  }

  ghost predicate Untouched(r: Receiver) {
    r.Valid() && !r.syn && !r.fin && r.finNotCount
    && r.reassembler.Empty() && !r.reassembler.eofFlag && r.reassembler.head == 0 && !r.reassembler.output.inputEnded
  }

  ghost predicate Alive(c: Connection) {
    ConnInv(c) && c.active && c.synSended && c.linger
  }

  /** As it comes into being. */
  ghost predicate Ready(c: Connection) {
    && ConnInv(c) && c.active && c.linger && Untouched(c.receiver) && Inv(c.sender) && c.sender.isn == 0
    && !c.sender.syn && !c.sender.fin
    && c.sender.stream.accepted == [] && c.sender.stream.capacity > 0 && !c.sender.stream.inputEnded
  }

  ghost predicate Opened(c: Connection) {
    Alive(c) && Untouched(c.receiver) && SynOut(c.sender)
  }

  ghost predicate Answered(c: Connection) {
    Alive(c) && Greeted(c.receiver) && SynOut(c.sender)
  }

  ghost predicate Established(c: Connection) {
    Alive(c) && Greeted(c.receiver) && Idle(c.sender)
  }

  ghost predicate Filled(c: Connection) {
    Alive(c) && Greeted(c.receiver) && Full(c.sender)
  }

  lemma TakesSyn(r: Receiver, seg: Segment)
    requires Untouched(r) && seg.header.syn && !seg.header.fin && seg.header.seqno == 0 && seg.payload == []
    ensures Greeted(r.SegmentReceived(seg))
  {
  }

  lemma TakesFin(r: Receiver)
    requires Greeted(r)
    ensures var t := r.SegmentReceived(PEER_FIN); t.Valid() && t.reassembler.output.inputEnded && t.ackno == 2 && t.syn
  {
    assert r.IndexOf(1) == 0;
  }

  lemma WithoutSyn(r: Receiver, seg: Segment)
    requires Untouched(r) && !seg.header.syn
    ensures r.SegmentReceived(seg) == r
  {
  }

  lemma SynGoesOut(s: Sender)
    requires Inv(s) && !s.syn && s.isn == 0 && s.stream.accepted == [] && s.stream.capacity > 0 && !s.stream.inputEnded
    requires !s.fin
    ensures SynOut(s.FillWindow().(out := []))
  {
    FilledFacts(s);
  }

  /** A sender that waits for its SYN to be acknowledged gets the acknowledgment, and has nothing to send. */
  lemma SynAcknowledged(s: Sender)
    requires SynOut(s)
    ensures Idle(s.AckReceived(1, 1))
  {
    UnwrapWrap(1, 0, 0);
    assert Unwrap(1, 0, 0) == 1;
    AckReceivedKeepsInv(s, 1, 1);
    var sent := AckReceivedEmits(s, 1, 1);
  }

  lemma IdleSendsNothing(s: Sender)
    requires Idle(s)
    ensures Idle(s.FillWindow().(out := []))
  {
    FilledFacts(s);
    FillWindowBound(s);
    var sent := FillWindowEmits(s);
  }

  lemma FullSendsNothing(s: Sender)
    requires Full(s)
    ensures Full(s.FillWindow().(out := [])) && s.FillWindow().stream == s.stream && s.FillWindow().bytesInFlight > 0
  {
    var s0 := s.(windowIsZero := s.windowSize == 0);
    RemainExact(s0, s.Window());
    assert s.FillWindow() == s0.FillLoop(s.Window()) == s0;
    FilledFacts(s);
    ContiguousOrdered(s.inFlight, Una(s), s.nextSeqno, s.isn, s.stream);
  }

  // ----- Events

  lemma Opens(c: Connection)
    requires Ready(c)
    ensures Opened(c.Connect())
  {
    SegmentSendsSettles(c, true);
    SendsFacts(c, true);
    SynGoesOut(c.sender);
  }

  /** The passive side answers the peer's SYN with its own. */
  lemma Answers(c: Connection)
    requires Ready(c)
    ensures Answered(c.SegmentReceived(PEER_SYN))
  {
    TakesSyn(c.receiver, PEER_SYN);
    SynGoesOut(c.sender);
    SegmentReceivedSettles(c, PEER_SYN);
    var d := c.(timeSinceLastSegment := 0, receiver := c.receiver.SegmentReceived(PEER_SYN));
    SendsFacts(d, true);
    assert c.SegmentReceived(PEER_SYN) == d.SegmentSends(true);
  }

  lemma StraysOnAck(c: Connection)
    requires Opened(c)
    ensures LeadsAstray(c, [Arrives(BARE_ACK)])
  {
    SynAcknowledged(c.sender);
    WithoutSyn(c.receiver, BARE_ACK);
    var d := c.(timeSinceLastSegment := 0, sender := c.sender.AckReceived(1, 1));
    SendsFacts(d, false);
    FilledFacts(d.sender);
    assert c.SegmentReceived(BARE_ACK) == d.SegmentSends(false);
    ArrivalLeadsAstray(c, BARE_ACK);
  }

  /** The peer's FIN ends the inbound stream, and is answered; it acknowledges nothing. */
  lemma FinAnswered(c: Connection)
    requires Alive(c) && Greeted(c.receiver)
    ensures var d := c.SegmentReceived(PEER_FIN);
            && d.InboundEnded() && d.receiver.ackno == 2 && d.sender == c.sender.FillWindow().(out := [])
            && (c.linger && d.OutboundEof() ==> d.linger)
            && (!Drained(d) ==> d.active)
  {
    TakesFin(c.receiver);
    var e := c.(timeSinceLastSegment := 0, receiver := c.receiver.SegmentReceived(PEER_FIN));
    assert c.(timeSinceLastSegment := 0).TakeIn(PEER_FIN) == e;
    AnswerFacts(e);
    assert c.SegmentReceived(PEER_FIN) == e.EnsureSegment().SegmentSends(false);
  }

  lemma StraysOnFin(c: Connection)
    requires Answered(c)
    ensures LeadsAstray(c, [Arrives(PEER_FIN)])
  {
    FinAnswered(c);
    FilledFacts(c.sender);
    ArrivalLeadsAstray(c, PEER_FIN);
  }

  lemma Establishes(c: Connection)
    requires Opened(c)
    ensures Established(c.SegmentReceived(PEER_SYN_ACK))
  {
    SynAcknowledged(c.sender);
    TakesSyn(c.receiver, PEER_SYN_ACK);
    SegmentReceivedSettles(c, PEER_SYN_ACK);
    var d := c.(timeSinceLastSegment := 0, sender := c.sender.AckReceived(1, 1),
                receiver := c.receiver.SegmentReceived(PEER_SYN_ACK));
    AnswerFacts(d);
    IdleSendsNothing(d.sender);
    assert c.SegmentReceived(PEER_SYN_ACK) == d.EnsureSegment().SegmentSends(false);
  }

  lemma Writes(c: Connection)
    requires Established(c)
    ensures Filled(c.Write([7])) && !c.Write([7]).sender.stream.inputEnded
  {
    var s := c.sender.Write([7]);
    StepKeepsInv(c.sender, SenderOp.WriteOp([7]));
    FilledFacts(s);
    FillWindowBound(s);
    var sent := FillWindowEmits(s);
    WriteSettles(c, [7]);
    SendsFacts(c.(sender := s), false);
  }

  lemma Ends(c: Connection)
    requires Filled(c)
    ensures Filled(c.EndInputStream()) && c.EndInputStream().OutboundEof()
  {
    var ended := c.(sender := c.sender.EndInput());
    CloseSettles(c);
    StepKeepsInv(c.sender, EndInputOp);
    assert Full(ended.sender);
    FullSendsNothing(ended.sender);
    SendsFacts(ended, false);
    assert c.EndInputStream() == ended.SegmentSends(false);
  }

  // ----- The three situations are reached

  /** Our SYN is acknowledged by a peer that has not sent its own. */
  lemma AcknowledgedAlone(c: Connection) returns (events: seq<Event>)
    requires Ready(c)
    ensures LeadsAstray(c, events)
  {
    Opens(c);
    StraysOnAck(c.Connect());
    events := [AppConnects] + [Arrives(BARE_ACK)];
    FirstEvent(c, AppConnects, [Arrives(BARE_ACK)]);
  }

  /** The peer opens and closes without ever acknowledging our SYN. */
  lemma ClosedUnacknowledged(c: Connection) returns (events: seq<Event>)
    requires Ready(c)
    ensures LeadsAstray(c, events)
  {
    Answers(c);
    StraysOnFin(c.SegmentReceived(PEER_SYN));
    events := [Arrives(PEER_SYN)] + [Arrives(PEER_FIN)];
    FirstEvent(c, Arrives(PEER_SYN), [Arrives(PEER_FIN)]);
  }

  /** An established endpoint writes one byte, closes, and then gets the peer's FIN while its own waits for window. */
  lemma EstablishedStrays(c: Connection) returns (events: seq<Event>)
    requires Established(c)
    ensures LeadsAstray(c, events)
  {
    var d := c.Write([7]).EndInputStream();
    Writes(c);
    Ends(c.Write([7]));
    FinAnswered(d);
    FullSendsNothing(d.sender);
    ArrivalLeadsAstray(d, PEER_FIN);
    events := [AppCloses] + [Arrives(PEER_FIN)];
    FirstEvent(c.Write([7]), AppCloses, [Arrives(PEER_FIN)]);
    FirstEvent(c, AppWrites([7]), events);
    events := [AppWrites([7])] + events;
  }

  /** The peer closes while our FIN still waits for window. */
  lemma FinWaitsForWindow(c: Connection) returns (events: seq<Event>)
    requires Ready(c)
    ensures LeadsAstray(c, events)
  {
    Opens(c);
    Establishes(c.Connect());
    events := EstablishedStrays(c.Connect().SegmentReceived(PEER_SYN_ACK));
    FirstEvent(c.Connect(), Arrives(PEER_SYN_ACK), events);
    events := [Arrives(PEER_SYN_ACK)] + events;
    FirstEvent(c, AppConnects, events);
    events := [AppConnects] + events;
  }

  /** Fresh endpoints whose initial number is 0 are ready for all of this. */
  lemma FreshIsReady(rtTimeout: u16, recvCapacity: nat, sendCapacity: nat)
    requires sendCapacity > 0
    ensures Ready(NewConnection(rtTimeout, recvCapacity, sendCapacity, 0))
  {
    NewConnectionInv(rtTimeout, recvCapacity, sendCapacity, 0);
  }
}
