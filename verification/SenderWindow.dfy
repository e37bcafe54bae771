/** How much a sender sends: never more than the window allows, and always as much as it can. */
module SenderWindow {
  import opened Common
  import opened WrappingIntegers
  import opened Streams
  import opened Segments
  import opened SenderSpec
  import opened SenderInvariant

  function FinBit(s: Sender): nat {
    if s.fin then 1 else 0
  }

  /** No more is outstanding than the window, counted as at least one, plus one for a FIN. */
  predicate WithinWindow(s: Sender) {
    s.nextSeqno - s.receiveAck <= s.Window() + FinBit(s)
  }

  /** Everything is sent: the FIN is out, or the window is exactly full, or an open stream has run dry. */
  predicate SentAllItCan(s: Sender) {
    || s.fin
    || s.nextSeqno - s.receiveAck == s.Window()
    || (s.stream.BufferSize() == 0 && !s.stream.inputEnded)
  }

  /** The acknowledgment does not pull the right edge of the window below what was already sent. */
  predicate NonShrinking(s: Sender, ackno: u32, window: u16) {
    var ack := Unwrap(ackno, s.isn, s.checkpoint);
    ack <= s.nextSeqno ==> s.nextSeqno <= Max(ack, s.receiveAck) + Max(window, 1) + FinBit(s)
  }

  /** The unsigned subtraction gives what is left of the window exactly if no more than the window is outstanding. */
  lemma RemainExactly(s: Sender, win: nat)
    requires s.receiveAck <= s.nextSeqno < s.receiveAck + TWO64 && win < TWO64
    ensures s.Remain(win) == win - (s.nextSeqno - s.receiveAck) <==> s.nextSeqno - s.receiveAck <= win
    ensures s.nextSeqno - s.receiveAck > win ==> s.Remain(win) == TWO64 + win - (s.nextSeqno - s.receiveAck)
  {
  }

  lemma RemainExact(s: Sender, win: nat)
    requires s.receiveAck <= s.nextSeqno <= s.receiveAck + win && win < TWO64
    ensures s.Remain(win) == win - (s.nextSeqno - s.receiveAck)
  {
  }

  lemma {:induction false} FillLoopBound(s: Sender, win: nat)
    requires Counted(s) && 0 < win < TWO64
    requires s.receiveAck <= s.nextSeqno && s.nextSeqno - s.receiveAck <= win + FinBit(s)
    ensures var t := s.FillLoop(win);
            && t.nextSeqno - t.receiveAck <= win + FinBit(t)
            && (t.fin || t.nextSeqno - t.receiveAck == win || (t.stream.BufferSize() == 0 && !t.stream.inputEnded))
    decreases s.stream.BufferSize(), !s.fin
  {
    if !s.fin {
      RemainExact(s, win);
    }
    if s.CanSend(win) {
      var seg := RoundSends(s, win);
      FillLoopBound(s.Round(win), win);
    }
  }

  /** What is left of an ended stream exactly fills the window, and does not do so in a single segment. */
  predicate JustFits(s: Sender, win: nat) {
    && s.stream.inputEnded && s.stream.BufferSize() > 0
    && s.nextSeqno + s.stream.BufferSize() == s.receiveAck + win
    && (win > MAX_PAYLOAD_SIZE || s.nextSeqno > s.receiveAck)
  }

  lemma RoundKeepsFit(s: Sender, win: nat)
    requires Counted(s) && !s.fin && 0 < win < TWO64 && s.receiveAck <= s.nextSeqno <= s.receiveAck + win
    requires s.CanSend(win) && !s.Last(win)
    ensures JustFits(s.Round(win), win) <==> JustFits(s, win)
  {
    RemainExact(s, win);
  }

  lemma LastRoundExceeds(s: Sender, win: nat)
    requires Counted(s) && !s.fin && 0 < win < TWO64 && s.receiveAck <= s.nextSeqno <= s.receiveAck + win
    requires s.CanSend(win) && s.Last(win)
    ensures s.Round(win).nextSeqno - s.receiveAck == win + 1 <==> JustFits(s, win)
  {
    RemainExact(s, win);
  }

  /** The FIN exceeds the window by one exactly if the rest of the ended stream just fits. */
  lemma {:induction false} FinExceedsExactly(s: Sender, win: nat)
    requires Counted(s) && !s.fin && 0 < win < TWO64 && s.receiveAck <= s.nextSeqno <= s.receiveAck + win
    ensures s.FillLoop(win).nextSeqno - s.receiveAck == win + 1 <==> JustFits(s, win)
    decreases s.stream.BufferSize()
  {
    RemainExact(s, win);
    if s.CanSend(win) {
      var t := s.Round(win);
      var seg := RoundSends(s, win);
      if s.Last(win) {
        LastRoundExceeds(s, win);
        assert t.FillLoop(win) == t;
      } else {
        RoundKeepsFit(s, win);
        FinExceedsExactly(t, win);
      }
    }
  }

  /** The same of a whole `fill_window` of a connected sender that has not sent its FIN. */
  lemma FillExceedsExactly(s: Sender)
    requires Inv(s) && s.syn && !s.fin && WithinWindow(s)
    ensures s.FillWindow().nextSeqno - s.receiveAck == s.Window() + 1 <==> JustFits(s, s.Window())
  {
    FinExceedsExactly(s.(windowIsZero := s.windowSize == 0), s.Window());
  }

  /** Whatever the window, filling stops only with the FIN sent, the window full, or an open stream drained. */
  lemma {:induction false} FillLoopEager(s: Sender, win: nat)
    requires Counted(s) && 0 < win < TWO64 && s.receiveAck <= s.nextSeqno && |s.stream.accepted| + 2 < TWO64
    ensures var t := s.FillLoop(win);
            t.fin || t.nextSeqno - t.receiveAck == win || (t.stream.BufferSize() == 0 && !t.stream.inputEnded)
    decreases s.stream.BufferSize(), !s.fin
  {
    if s.CanSend(win) {
      var seg := RoundSends(s, win);
      FillLoopEager(s.Round(win), win);
    } else if s.Remain(win) == 0 {
      NothingRemains(s, win);
    }
  }

  lemma NothingRemains(s: Sender, win: nat)
    requires s.receiveAck <= s.nextSeqno < TWO64 && win < TWO64 && s.Remain(win) == 0
    ensures s.nextSeqno - s.receiveAck == win
  {
  }

  lemma FillWindowEager(s: Sender)
    requires Inv(s) && s.syn && |s.stream.accepted| + 2 < TWO64
    ensures SentAllItCan(s.FillWindow())
  {
    FillLoopEager(s.(windowIsZero := s.windowSize == 0), s.Window());
    var sent := FillLoopSends(s.(windowIsZero := s.windowSize == 0), s.Window());
  }

  /** Filling stays within the window and stops only when nothing more can be sent. */
  lemma FillWindowBound(s: Sender)
    requires Inv(s) && WithinWindow(s)
    ensures WithinWindow(s.FillWindow())
    ensures s.syn ==> SentAllItCan(s.FillWindow())
  {
    if s.syn {
      var s0 := s.(windowIsZero := s.windowSize == 0);
      FillLoopBound(s0, s.Window());
      var sent := FillLoopSends(s0, s.Window());
    }
  }

  lemma AckReceivedBound(s: Sender, ackno: u32, window: u16)
    requires Inv(s) && Young(s) && WithinWindow(s) && NonShrinking(s, ackno, window)
    ensures WithinWindow(s.AckReceived(ackno, window))
  {
    var ack := Unwrap(ackno, s.isn, s.checkpoint);
    if s.receiveAck < ack <= s.nextSeqno {
      AckedKeepsInv(s, ack, window);
      PopAckedKeeps(s.(windowSize := window, receiveAck := ack, checkpoint := ack), ack);
      FillWindowBound(s.Acked(ack, window));
    }
  }

  /** An acknowledgment takes back nothing of what was sent; a FIN that is sent on it comes on top. */
  lemma AckOnlyAdds(s: Sender, ackno: u32, window: u16)
    requires Inv(s) && Young(s)
    ensures var t := s.AckReceived(ackno, window); t.nextSeqno - FinBit(t) >= s.nextSeqno - FinBit(s)
  {
    AckReceivedKeepsInv(s, ackno, window);
    var sent := AckReceivedEmits(s, ackno, window);
  }

  /** After an acknowledgment the bound holds if and only if it does not pull the right edge below what was sent. */
  lemma AckBoundExactly(s: Sender, ackno: u32, window: u16)
    requires Inv(s) && Young(s) && WithinWindow(s)
    ensures WithinWindow(s.AckReceived(ackno, window)) <==> NonShrinking(s, ackno, window)
  {
    if NonShrinking(s, ackno, window) {
      AckReceivedBound(s, ackno, window);
    } else {
      AckOnlyAdds(s, ackno, window);
      var sent := AckReceivedEmits(s, ackno, window);
    }
  }

  predicate NonShrinkingRun(s: Sender, ops: seq<SenderOp>)
    requires s.stream.Valid()
    decreases |ops|
  {
    ops != [] ==>
      && (ops[0].AckOp? ==> NonShrinking(s, ops[0].ackno, ops[0].window))
      && NonShrinkingRun(Step(s, ops[0]), ops[1..])
  }

  lemma StepBound(s: Sender, op: SenderOp)
    requires Inv(s) && WithinWindow(s) && Enabled(s, op)
    requires op.AckOp? ==> NonShrinking(s, op.ackno, op.window)
    ensures WithinWindow(Step(s, op))
  {
    match op {
      case FillOp => FillWindowBound(s);
      case AckOp(ackno, window) => AckReceivedBound(s, ackno, window);
      case _ =>
    }
  }

  lemma {:induction false} RunBound(s: Sender, ops: seq<SenderOp>)
    requires Inv(s) && WithinWindow(s) && EnabledRun(s, ops) && NonShrinkingRun(s, ops)
    ensures Inv(Run(s, ops)) && WithinWindow(Run(s, ops))
    decreases |ops|
  {
    if ops == [] {
    } else {
      StepKeepsInv(s, ops[0]);
      StepBound(s, ops[0]);
      RunBound(Step(s, ops[0]), ops[1..]);
    }
  }

  /** The bound holds at every point of the run. */
  predicate AlwaysWithinWindow(s: Sender, ops: seq<SenderOp>)
    requires s.stream.Valid()
    decreases |ops|
  {
    WithinWindow(s) && (ops != [] ==> AlwaysWithinWindow(Step(s, ops[0]), ops[1..]))
  }

  lemma {:induction false} RunBoundExactly(s: Sender, ops: seq<SenderOp>)
    requires Inv(s) && WithinWindow(s) && EnabledRun(s, ops)
    ensures AlwaysWithinWindow(s, ops) <==> NonShrinkingRun(s, ops)
    decreases |ops|
  {
    if ops == [] {
    } else {
      var t := Step(s, ops[0]);
      StepKeepsInv(s, ops[0]);
      if ops[0].AckOp? {
        AckBoundExactly(s, ops[0].ackno, ops[0].window);
      } else {
        StepBound(s, ops[0]);
      }
      if WithinWindow(t) {
        RunBoundExactly(t, ops[1..]);
      }
    }
  }

  /** From the start, the bound holds at every point of a run if and only if no acknowledgment shrinks the window. */
  lemma SendBoundExactly(capacity: nat, timeout: u16, isn: u32, ops: seq<SenderOp>)
    requires EnabledRun(NewSender(capacity, timeout, isn), ops)
    ensures AlwaysWithinWindow(NewSender(capacity, timeout, isn), ops)
            <==> NonShrinkingRun(NewSender(capacity, timeout, isn), ops)
  {
    RunBoundExactly(NewSender(capacity, timeout, isn), ops);
  }

  /** Over every run with non-shrinking acknowledgments the send bound holds, and the window subtraction is exact. */
  lemma SendBound(capacity: nat, timeout: u16, isn: u32, ops: seq<SenderOp>)
    requires EnabledRun(NewSender(capacity, timeout, isn), ops)
    requires NonShrinkingRun(NewSender(capacity, timeout, isn), ops)
    ensures var s := Run(NewSender(capacity, timeout, isn), ops);
            WithinWindow(s) && (!s.fin ==> s.Remain(s.Window()) == s.Window() - (s.nextSeqno - s.receiveAck))
  {
    var s := Run(NewSender(capacity, timeout, isn), ops);
    RunBound(NewSender(capacity, timeout, isn), ops);
    if !s.fin {
      RemainExact(s, s.Window());
    }
  }

  /** Over every run, whatever the acknowledgments, filling the window after the SYN sends all that can be sent. */
  lemma FillIsEager(capacity: nat, timeout: u16, isn: u32, ops: seq<SenderOp>)
    requires EnabledRun(NewSender(capacity, timeout, isn), ops)
    ensures var s := Run(NewSender(capacity, timeout, isn), ops);
            s.syn && |s.stream.accepted| + 2 < TWO64 ==> SentAllItCan(s.FillWindow())
  {
    var s := Run(NewSender(capacity, timeout, isn), ops);
    ReachableInv(capacity, timeout, isn, ops);
    if s.syn && |s.stream.accepted| + 2 < TWO64 {
      FillWindowEager(s);
    }
  }

  /**
   * Right after filling the window, an exhausted outbound stream with nothing in flight means that the FIN was sent:
   * were it not, filling would have put it in flight. Needs no assumption on acknowledgments.
   */
  lemma IdleMeansFinSent(s: Sender)
    requires Inv(s)
    ensures var t := s.FillWindow(); t.bytesInFlight == 0 && t.stream.Eof() ==> t.fin
  {
    var t := s.FillWindow();
    var sent := FillWindowSends(s);
    FillWindowKeepsInv(s);
    ContiguousOrdered(t.inFlight, Una(t), t.nextSeqno, t.isn, t.stream);
    if t.bytesInFlight == 0 {
      assert sent == [] && s.inFlight == [] && t.nextSeqno == s.nextSeqno;
      if s.syn && !s.fin {
        var s0 := s.(windowIsZero := s.windowSize == 0);
        FillLoopBound(s0, s.Window());
      }
    }
  }

  // ----- Instance: a window of two, one byte in flight, and the last byte to go

  /** A fresh sender whose SYN was acknowledged with a window of two. */
  function Granted(timeout: u16): (s: Sender)
    ensures s.stream.Valid()
  {
    NewSender(10, timeout, 0).FillWindow().AckReceived(1, 2)
  }

  function HalfSent(timeout: u16): (s: Sender)
    ensures s.stream.Valid()
  {
    Granted(timeout).Write([1]).FillWindow()
  }

  lemma GrantedFacts(timeout: u16)
    ensures var s := Granted(timeout);
            && Inv(s) && s.syn && !s.fin && s.receiveAck == 1 && s.nextSeqno == 1 && s.windowSize == 2 && s.isn == 0
            && s.stream == NewStream(10)
  {
    var s := NewSender(10, timeout, 0);
    FillWindowKeepsInv(s);
    UnwrapWrap(1, 0, 0);
    assert Unwrap(1, 0, 0) == 1;
    AckReceivedKeepsInv(s.FillWindow(), 1, 2);
    var sent := AckReceivedEmits(s.FillWindow(), 1, 2);
  }

  lemma HalfSentFacts(timeout: u16)
    ensures var s := HalfSent(timeout);
            && Inv(s) && s.syn && !s.fin && s.receiveAck == 1 && s.nextSeqno == 2 && s.windowSize == 2 && s.isn == 0
            && s.stream == Stream(10, [1], 1, false, false)
  {
    GrantedFacts(timeout);
    var s := Granted(timeout).Write([1]);
    StepKeepsInv(Granted(timeout), SenderOp.WriteOp([1]));
    assert s.stream.accepted == [1];
    FillWindowBound(s);
    FillWindowKeepsInv(s);
    var sent := FillWindowEmits(s);
  }

  lemma FinExceedsExample(timeout: u16)
    ensures var s := HalfSent(timeout).Write([2]).EndInput();
            s.Window() == 2 && s.FillWindow().nextSeqno - s.receiveAck == 3
  {
    HalfSentFacts(timeout);
    var s := HalfSent(timeout);
    StepKeepsInv(s, SenderOp.WriteOp([2]));
    StepKeepsInv(s.Write([2]), EndInputOp);
    FillExceedsExactly(s.Write([2]).EndInput());
  }

  /**
   * The same acknowledgment again, with its window shrunk to one while both bytes are outstanding: the bound fails, and
   * what is left of the window comes out as 2^64 - 1.
   */
  lemma ShrunkWindowExample(timeout: u16)
    ensures var s := HalfSent(timeout).Write([2]).FillWindow();
            !WithinWindow(s.AckReceived(1, 1)) && s.AckReceived(1, 1).Remain(1) == TWO64 - 1
  {
    AllSentFacts(timeout);
    ShrinkingAck(HalfSent(timeout).Write([2]).FillWindow());
  }

  lemma AllSentFacts(timeout: u16)
    ensures var s := HalfSent(timeout).Write([2]).FillWindow();
            Inv(s) && !s.fin && s.receiveAck == 1 && s.nextSeqno == 3 && s.isn == 0
  {
    HalfSentFacts(timeout);
    var s := HalfSent(timeout).Write([2]);
    StepKeepsInv(HalfSent(timeout), SenderOp.WriteOp([2]));
    FillWindowKeepsInv(s);
    FillWindowBound(s);
    var sent := FillWindowEmits(s);
  }

  lemma ShrinkingAck(s: Sender)
    requires Inv(s) && !s.fin && s.receiveAck == 1 && s.nextSeqno == 3 && s.isn == 0
    ensures !WithinWindow(s.AckReceived(1, 1)) && s.AckReceived(1, 1).Remain(1) == TWO64 - 1
  {
    assert Unwrap(1, 0, 1) == 1;
    assert s.AckReceived(1, 1) == s.(windowSize := 1);
    RemainExactly(s.(windowSize := 1), 1);
  }

  /**
   * An old acknowledgment that grants a larger window reopens a closed one: the number stays, the window is taken over,
   * and both bytes left go out, although the newest grant ends where nothing more fits.
   */
  lemma OldWindowExample(s: Sender)
    requires Inv(s) && s.syn && s.isn == 0 && s.receiveAck == s.nextSeqno == 3 && s.windowSize == 0 && !s.fin
    requires s.stream.BufferSize() == 2 && !s.stream.inputEnded && |s.stream.accepted| == 4
    ensures NonShrinking(s, 1, 2) && s.AckReceived(1, 2).FillWindow().nextSeqno == 5
  {
    assert Unwrap(1, 0, 3) == 1;
    var t := s.(windowSize := 2);
    assert s.AckReceived(1, 2) == t;
    FillWindowBound(t);
    FillWindowEager(t);
    var sent := FillWindowEmits(t);
    FillWindowKeepsInv(t);
  }
}
