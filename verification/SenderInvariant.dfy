/** What every sender operation keeps: the retransmission queue partitions the unacknowledged sequence space. */
module SenderInvariant {
  import opened Common
  import opened WrappingIntegers
  import opened Streams
  import opened Segments
  import opened SenderSpec

  /**
   * The segment sits at absolute sequence number `at`: its number is `at` wrapped, and its payload is the stream's
   * bytes from index `at - 1`. Number 0 belongs to the SYN; a FIN comes right after the last byte of an ended stream.
   */
  ghost predicate Carries(seg: Segment, at: nat, isn: u32, stream: Stream) {
    && seg.header.seqno == Wrap(at, isn)
    && (if at == 0 || (seg.payload == [] && !seg.header.fin) then
          seg.payload == [] && !seg.header.fin && (seg.header.syn ==> at == 0) && at <= |stream.accepted| + 2
        else
          var end := at - 1 + |seg.payload|;
          && !seg.header.syn
          && end <= |stream.accepted| && seg.payload == stream.accepted[at - 1..end]
          && (seg.header.fin ==> stream.inputEnded && end == |stream.accepted|))
  }

  /** The segments lie end to end in [from, to), each occupying some sequence space. */
  ghost predicate Contiguous(q: seq<Segment>, from: nat, to: nat, isn: u32, stream: Stream)
    decreases |q|
  {
    if q == [] then from == to
    else
      && Carries(q[0], from, isn, stream)
      && q[0].LengthInSequenceSpace() > 0
      && Contiguous(q[1..], from + q[0].LengthInSequenceSpace(), to, isn, stream)
  }

  function Una(s: Sender): int {
    s.nextSeqno - s.bytesInFlight
  }

  ghost predicate Inv(s: Sender) {
    && s.stream.Valid()
    && s.nextSeqno == (if s.syn then 1 else 0) + s.stream.popped + (if s.fin then 1 else 0)
    && (!s.syn ==> s.nextSeqno == 0)
    && (s.fin ==> s.stream.Eof())
    && 0 <= s.bytesInFlight <= s.nextSeqno
    && Contiguous(s.inFlight, Una(s), s.nextSeqno, s.isn, s.stream)
    && Una(s) <= s.receiveAck <= s.nextSeqno
    && s.checkpoint == s.receiveAck
    && (if s.inFlight == [] then s.receiveAck == s.nextSeqno
        else s.receiveAck < Una(s) + s.inFlight[0].LengthInSequenceSpace())
    && (s.inFlight != [] ==> s.clockIsCounting)
  }

  /** Fewer than 2^31 sequence numbers in flight, so that numbers of queued segments unwrap exactly. */
  predicate Young(s: Sender) {
    s.bytesInFlight < TWO31 && s.nextSeqno < TWO64 - TWO32
  }

  // ----- Contiguous sequences of segments

  lemma {:induction false} ContiguousConcat(a: seq<Segment>, b: seq<Segment>, x: nat, y: nat, z: nat,
                                            isn: u32, stream: Stream)
    requires Contiguous(a, x, y, isn, stream) && Contiguous(b, y, z, isn, stream)
    ensures Contiguous(a + b, x, z, isn, stream)
    decreases |a|
  {
    if a == [] {
      assert a + b == b;
    } else {
      assert (a + b)[1..] == a[1..] + b;
      ContiguousConcat(a[1..], b, x + a[0].LengthInSequenceSpace(), y, z, isn, stream);
    }
  }

  lemma {:induction false} ContiguousOrdered(q: seq<Segment>, from: nat, to: nat, isn: u32, stream: Stream)
    requires Contiguous(q, from, to, isn, stream)
    ensures from <= to && (q != [] ==> from + q[0].LengthInSequenceSpace() <= to)
    ensures q == [] <==> from == to
    decreases |q|
  {
    if q != [] {
      ContiguousOrdered(q[1..], from + q[0].LengthInSequenceSpace(), to, isn, stream);
    }
  }

  /** The stream is only ever appended to, never after its end, and may be marked ended. */
  ghost predicate Extends(more: Stream, stream: Stream) {
    && stream.accepted <= more.accepted
    && (stream.inputEnded ==> more.inputEnded && more.accepted == stream.accepted)
  }

  lemma CarriesExtends(seg: Segment, at: nat, isn: u32, stream: Stream, more: Stream)
    requires Carries(seg, at, isn, stream) && Extends(more, stream)
    ensures Carries(seg, at, isn, more)
  {
  }

  lemma {:induction false} ContiguousExtends(q: seq<Segment>, from: nat, to: nat, isn: u32,
                                             stream: Stream, more: Stream)
    requires Contiguous(q, from, to, isn, stream) && Extends(more, stream)
    ensures Contiguous(q, from, to, isn, more)
    decreases |q|
  {
    if q != [] {
      CarriesExtends(q[0], from, isn, stream, more);
      ContiguousExtends(q[1..], from + q[0].LengthInSequenceSpace(), to, isn, stream, more);
    }
  }

  // ----- Filling the window

  /** t is s after having cut `sent` off its stream and sent it. */
  ghost predicate Sends(s: Sender, t: Sender, sent: seq<Segment>) {
    && t == s.(syn := t.syn, fin := t.fin, windowIsZero := t.windowIsZero, clock := t.clock,
               clockIsCounting := t.clockIsCounting, bytesInFlight := s.bytesInFlight + t.nextSeqno - s.nextSeqno,
               inFlight := s.inFlight + sent, out := s.out + sent, nextSeqno := t.nextSeqno,
               stream := s.stream.(popped := t.stream.popped))
    && s.stream.popped <= t.stream.popped <= |s.stream.accepted|
    && Contiguous(sent, s.nextSeqno, t.nextSeqno, s.isn, s.stream)
    && (s.clockIsCounting ==> t.clockIsCounting && t.clock == s.clock)
    && (sent != [] ==> t.clockIsCounting)
  }

  lemma SendsTransitive(s: Sender, t: Sender, u: Sender, a: seq<Segment>, b: seq<Segment>)
    requires Sends(s, t, a) && Sends(t, u, b)
    ensures Sends(s, u, a + b)
  {
    ContiguousExtends(b, t.nextSeqno, u.nextSeqno, s.isn, t.stream, s.stream);
    ContiguousConcat(a, b, s.nextSeqno, t.nextSeqno, u.nextSeqno, s.isn, s.stream);
    assert s.inFlight + a + b == s.inFlight + (a + b) && s.out + a + b == s.out + (a + b);
  }

  /** Sequence numbers spent are accounted for by the SYN, the bytes read from the stream and the FIN. */
  ghost predicate Counted(s: Sender) {
    && s.stream.Valid() && s.syn
    && s.nextSeqno == 1 + s.stream.popped + (if s.fin then 1 else 0)
    && (s.fin ==> s.stream.Eof())
  }

  lemma RoundSends(s: Sender, win: nat) returns (seg: Segment)
    requires Counted(s) && s.CanSend(win)
    ensures Sends(s, s.Round(win), [seg]) && Counted(s.Round(win))
    ensures !seg.header.syn
  {
    var t := s.Round(win);
    seg := t.out[|t.out| - 1];
    assert seg.payload == s.Piece(win) && seg.header.fin == t.fin;
    assert Carries(seg, s.nextSeqno, s.isn, s.stream);
    assert Contiguous([seg], s.nextSeqno, t.nextSeqno, s.isn, s.stream);
  }

  lemma {:induction false} FillLoopSends(s: Sender, win: nat) returns (sent: seq<Segment>)
    requires Counted(s)
    ensures Sends(s, s.FillLoop(win), sent) && Counted(s.FillLoop(win))
    ensures forall seg | seg in sent :: !seg.header.syn
    decreases s.stream.BufferSize(), !s.fin
  {
    if s.CanSend(win) {
      var t := s.Round(win);
      var seg := RoundSends(s, win);
      var tail := FillLoopSends(t, win);
      SendsTransitive(s, t, t.FillLoop(win), [seg], tail);
      sent := [seg] + tail;
    } else {
      sent := [];
      assert s.inFlight + sent == s.inFlight && s.out + sent == s.out;
    }
  }

  lemma FillWindowSends(s: Sender) returns (sent: seq<Segment>)
    requires Inv(s)
    ensures Sends(s, s.FillWindow(), sent) && Counted(s.FillWindow())
  {
    var t := s.FillWindow();
    if s.syn {
      sent := FillLoopSends(s.(windowIsZero := s.windowSize == 0), s.Window());
    } else {
      sent := [t.out[|t.out| - 1]];
      assert Carries(sent[0], 0, s.isn, s.stream);
      assert Contiguous(sent, 0, 1, s.isn, s.stream);
    }
  }

  lemma SendsKeepsInv(s: Sender, t: Sender, sent: seq<Segment>)
    requires Inv(s) && Sends(s, t, sent) && Counted(t)
    ensures Inv(t)
  {
    ContiguousOrdered(sent, s.nextSeqno, t.nextSeqno, s.isn, s.stream);
    ContiguousConcat(s.inFlight, sent, Una(s), s.nextSeqno, t.nextSeqno, s.isn, s.stream);
    ContiguousExtends(t.inFlight, Una(t), t.nextSeqno, s.isn, s.stream, t.stream);
    if s.inFlight == [] {
      ContiguousOrdered(s.inFlight, Una(s), s.nextSeqno, s.isn, s.stream);
      assert t.inFlight == sent;
    }
  }

  lemma FillWindowKeepsInv(s: Sender)
    requires Inv(s)
    ensures Inv(s.FillWindow()) && s.FillWindow().syn
  {
    var sent := FillWindowSends(s);
    SendsKeepsInv(s, s.FillWindow(), sent);
  }

  // ----- Acknowledgments

  lemma {:induction false} PopAckedExact(s: Sender, ack: nat)
    requires 0 <= Una(s) <= ack <= s.nextSeqno && Young(s)
    requires Contiguous(s.inFlight, Una(s), s.nextSeqno, s.isn, s.stream)
    ensures var t := s.PopAcked(ack);
            && 0 <= Una(t) <= ack && t.bytesInFlight <= s.bytesInFlight
            && t.nextSeqno == s.nextSeqno
            && Contiguous(t.inFlight, Una(t), s.nextSeqno, s.isn, s.stream)
            && (if t.inFlight == [] then ack == t.nextSeqno else ack < Una(t) + t.inFlight[0].LengthInSequenceSpace())
    decreases |s.inFlight|
  {
    if s.inFlight != [] {
      UnwrapWrap(Una(s), s.isn, s.nextSeqno);
      ContiguousOrdered(s.inFlight, Una(s), s.nextSeqno, s.isn, s.stream);
      var len := s.inFlight[0].LengthInSequenceSpace();
      if Una(s) + len <= ack {
        var s1 := s.(bytesInFlight := s.bytesInFlight - len, inFlight := s.inFlight[1..]);
        assert s.PopAcked(ack) == s1.PopAcked(ack);
        PopAckedExact(s1, ack);
      } else {
        assert s.PopAcked(ack) == s;
      }
    }
  }

  lemma AckedKeepsInv(s: Sender, ack: nat, window: u16)
    requires Inv(s) && Young(s) && s.receiveAck < ack <= s.nextSeqno
    ensures Inv(s.Acked(ack, window)) && Young(s.Acked(ack, window))
  {
    PopAckedExact(s.(windowSize := window, receiveAck := ack, checkpoint := ack), ack);
    PopAckedKeeps(s.(windowSize := window, receiveAck := ack, checkpoint := ack), ack);
    var t := s.Acked(ack, window);
    ContiguousOrdered(t.inFlight, Una(t), t.nextSeqno, t.isn, t.stream);
  }

  lemma RestartKeepsInv(s: Sender)
    requires Inv(s)
    ensures Inv(s.RestartTimer())
  {
  }

  lemma AckReceivedKeepsInv(s: Sender, ackno: u32, window: u16)
    requires Inv(s) && Young(s)
    ensures Inv(s.AckReceived(ackno, window))
  {
    var ack := Unwrap(ackno, s.isn, s.checkpoint);
    if s.receiveAck < ack <= s.nextSeqno {
      AckedKeepsInv(s, ack, window);
      FillWindowKeepsInv(s.Acked(ack, window));
      RestartKeepsInv(s.Acked(ack, window).FillWindow());
    }
  }

  // ----- What an operation emits

  /** t follows s by sending `sent`: fresh segments only, nothing once the FIN is out, the stream only read. */
  ghost predicate Emits(s: Sender, t: Sender, sent: seq<Segment>) {
    && t.isn == s.isn && t.initialTimeout == s.initialTimeout
    && t.stream == s.stream.(popped := t.stream.popped) && s.stream.popped <= t.stream.popped
    && t.out == s.out + sent
    && Contiguous(sent, s.nextSeqno, t.nextSeqno, s.isn, s.stream)
    && (s.syn ==> t.syn) && (s.fin ==> t.fin && sent == [])
    && forall seg | seg in t.inFlight :: seg in s.inFlight || seg in sent
  }

  lemma FillWindowEmits(s: Sender) returns (sent: seq<Segment>)
    requires Inv(s)
    ensures Emits(s, s.FillWindow(), sent)
    ensures s.FillWindow().receiveAck == s.receiveAck && s.FillWindow().windowSize == s.windowSize
  {
    sent := FillWindowSends(s);
    if s.fin {
      ContiguousOrdered(sent, s.nextSeqno, s.FillWindow().nextSeqno, s.isn, s.stream);
      assert s.FillWindow() == s.(windowIsZero := s.windowSize == 0);
    }
  }

  lemma AckReceivedEmits(s: Sender, ackno: u32, window: u16) returns (sent: seq<Segment>)
    requires Inv(s) && Young(s)
    ensures var t := s.AckReceived(ackno, window); var ack := Unwrap(ackno, s.isn, s.checkpoint);
            && Emits(s, t, sent)
            && t.receiveAck == (if s.receiveAck < ack <= s.nextSeqno then ack else s.receiveAck)
            && t.windowSize == (if ack <= s.nextSeqno then window else s.windowSize)
  {
    var ack := Unwrap(ackno, s.isn, s.checkpoint);
    sent := [];
    if s.receiveAck < ack <= s.nextSeqno {
      AckedKeepsInv(s, ack, window);
      PopAckedKeeps(s.(windowSize := window, receiveAck := ack, checkpoint := ack), ack);
      sent := FillWindowEmits(s.Acked(ack, window));
    } else {
      assert s.out + sent == s.out;
    }
  }

  // ----- Runs

  datatype SenderOp =
    | WriteOp(data: seq<byte>)
    | EndInputOp
    | FillOp
    | AckOp(ackno: u32, window: u16)
    | TickOp(ms: nat)
    | SendEmptyOp
    | TakeOp    // the owner takes the first queued segment

  function Step(s: Sender, op: SenderOp): (t: Sender)
    requires s.stream.Valid()
    ensures t.stream.Valid()
  {
    match op
    case WriteOp(data) => s.Write(data)
    case EndInputOp => s.EndInput()
    case FillOp => s.FillWindow()
    case AckOp(ackno, window) => s.AckReceived(ackno, window)
    case TickOp(ms) => s.Tick(ms)
    case SendEmptyOp => s.SendEmptySegment()
    case TakeOp => if s.out == [] then s else s.(out := s.out[1..])
  }

  /** The application does not write after closing its side; acknowledgments arrive while the flight is young. */
  predicate Enabled(s: Sender, op: SenderOp) {
    && (op.WriteOp? ==> !s.stream.inputEnded)
    && (op.AckOp? ==> Young(s))
  }

  function Run(s: Sender, ops: seq<SenderOp>): (t: Sender)
    requires s.stream.Valid()
    ensures t.stream.Valid()
    decreases |ops|
  {
    if ops == [] then s else Run(Step(s, ops[0]), ops[1..])
  }

  predicate EnabledRun(s: Sender, ops: seq<SenderOp>)
    requires s.stream.Valid()
    decreases |ops|
  {
    ops != [] ==> Enabled(s, ops[0]) && EnabledRun(Step(s, ops[0]), ops[1..])
  }

  /** The application appends to the stream, or closes it. */
  lemma NewStreamKeepsInv(s: Sender, stream: Stream)
    requires Inv(s) && stream.Valid() && Extends(stream, s.stream) && stream.popped == s.stream.popped
    ensures Inv(s.(stream := stream))
  {
    ContiguousExtends(s.inFlight, Una(s), s.nextSeqno, s.isn, s.stream, stream);
  }

  lemma StepKeepsInv(s: Sender, op: SenderOp)
    requires Inv(s) && Enabled(s, op)
    ensures Inv(Step(s, op))
  {
    var t := Step(s, op);
    match op {
      case WriteOp(data) => NewStreamKeepsInv(s, t.stream);
      case EndInputOp => NewStreamKeepsInv(s, t.stream);
      case FillOp => FillWindowKeepsInv(s);
      case AckOp(ackno, window) => AckReceivedKeepsInv(s, ackno, window);
      case TickOp(ms) => TickKeepsInv(s, ms);
      case _ => QueueOpKeepsInv(s, op);
    }
  }

  lemma QueueOpKeepsInv(s: Sender, op: SenderOp)
    requires Inv(s) && (op.SendEmptyOp? || op.TakeOp?)
    ensures Inv(Step(s, op))
  {
  }

  lemma TickKeepsInv(s: Sender, ms: nat)
    requires Inv(s)
    ensures Inv(s.Tick(ms))
  {
  }

  lemma {:induction false} RunKeepsInv(s: Sender, ops: seq<SenderOp>)
    requires Inv(s) && EnabledRun(s, ops)
    ensures Inv(Run(s, ops))
    decreases |ops|
  {
    if ops == [] {
    } else {
      StepKeepsInv(s, ops[0]);
      RunKeepsInv(Step(s, ops[0]), ops[1..]);
    }
  }

  /** In every reachable state the retransmission queue is an exact partition of the unacknowledged sequence space. */
  lemma ReachableInv(capacity: nat, timeout: u16, isn: u32, ops: seq<SenderOp>)
    requires EnabledRun(NewSender(capacity, timeout, isn), ops)
    ensures Inv(Run(NewSender(capacity, timeout, isn), ops))
  {
    RunKeepsInv(NewSender(capacity, timeout, isn), ops);
  }
}
