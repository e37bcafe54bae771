/** The retransmission timer: exponential back-off and the time it takes (RFC 6298 section 5). */
module SenderTimer {
  import opened Common
  import opened WrappingIntegers
  import opened SenderSpec
  import opened SenderInvariant

  function Pow2(k: int): (p: nat)
    ensures p >= 1
  {
    if k <= 0 then 1 else 2 * Pow2(k - 1)
  }

  /** The operation acknowledges nothing new: a stale or out-of-range acknowledgment may still change the window. */
  predicate Quiet(s: Sender, op: SenderOp) {
    op.AckOp? ==> var ack := Unwrap(op.ackno, s.isn, s.checkpoint); ack <= s.receiveAck || ack > s.nextSeqno
  }

  /** Along the run nothing new is acknowledged and the zero-window flag stays off. */
  predicate QuietRun(s: Sender, ops: seq<SenderOp>)
    requires s.stream.Valid()
    decreases |ops|
  {
    && !s.windowIsZero
    && (ops != [] ==> Quiet(s, ops[0]) && QuietRun(Step(s, ops[0]), ops[1..]))
  }

  function Elapsed(ops: seq<SenderOp>): nat {
    if ops == [] then 0 else (if ops[0].TickOp? then ops[0].ms else 0) + Elapsed(ops[1..])
  }

  /** What a quiet operation does to the timer: only a tick moves it, and only expiry retransmits. */
  lemma QuietStep(s: Sender, op: SenderOp)
    requires Inv(s) && Enabled(s, op) && Quiet(s, op) && s.inFlight != []
    ensures var t := Step(s, op); var ms := if op.TickOp? then op.ms else 0;
            && t.inFlight != [] && Inv(t) && t.initialTimeout == s.initialTimeout
            && if op.TickOp? && s.clock + ms >= s.retransTimeout
               then t.clock == 0 && t.consecutiveRetrans == s.consecutiveRetrans + 1
                    && t.retransTimeout == (if s.windowIsZero then s.retransTimeout else 2 * s.retransTimeout % TWO32)
               else t.clock == s.clock + ms && t.consecutiveRetrans == s.consecutiveRetrans
                    && t.retransTimeout == s.retransTimeout
  {
    StepKeepsInv(s, op);
    if op.FillOp? {
      var sent := FillWindowSends(s);
    }
  }

  lemma DoubleModulo(x: nat, p: nat)
    ensures (2 * x % TWO32) * p % TWO32 == (2 * x * p) % TWO32
  {
    var q, r := 2 * x / TWO32, 2 * x % TWO32;
    assert 2 * x * p == r * p + (q * p) * TWO32;
    ModuloShift(r * p, q * p);
  }

  lemma ModuloShift(a: nat, k: nat)
    ensures (a + k * TWO32) % TWO32 == a % TWO32
  {
  }

  lemma DoubledTimeout(timeout: u32, k: nat)
    ensures (2 * timeout % TWO32) * Pow2(k) % TWO32 == timeout * Pow2(k + 1) % TWO32
  {
    DoubleModulo(timeout, Pow2(k));
    assert 2 * timeout * Pow2(k) == timeout * Pow2(k + 1);
  }

  /** Retransmissions made, and the timeout in force, at the end of a run. */
  function Retransmissions(s: Sender, ops: seq<SenderOp>): int
    requires s.stream.Valid()
  {
    Run(s, ops).consecutiveRetrans - s.consecutiveRetrans
  }

  function TimeoutAfter(s: Sender, ops: seq<SenderOp>): u32
    requires s.stream.Valid()
  {
    Run(s, ops).retransTimeout
  }

  function ClockAfter(s: Sender, ops: seq<SenderOp>): nat
    requires s.stream.Valid()
  {
    Run(s, ops).clock
  }

  predicate Expires(s: Sender, op: SenderOp) {
    op.TickOp? && s.clock + op.ms >= s.retransTimeout
  }

  /** The first step of a quiet run, in terms of the measures above. */
  lemma QuietUnfold(s: Sender, ops: seq<SenderOp>)
    requires Inv(s) && EnabledRun(s, ops) && QuietRun(s, ops) && s.inFlight != [] && ops != []
    ensures var s1 := Step(s, ops[0]); var ms := if ops[0].TickOp? then ops[0].ms else 0;
            && Inv(s1) && EnabledRun(s1, ops[1..]) && QuietRun(s1, ops[1..]) && s1.inFlight != []
            && Retransmissions(s, ops) == Retransmissions(s1, ops[1..]) + (if Expires(s, ops[0]) then 1 else 0)
            && TimeoutAfter(s, ops) == TimeoutAfter(s1, ops[1..]) && ClockAfter(s, ops) == ClockAfter(s1, ops[1..])
            && Elapsed(ops) == ms + Elapsed(ops[1..])
            && s1.retransTimeout == (if Expires(s, ops[0]) then 2 * s.retransTimeout % TWO32 else s.retransTimeout)
            && s1.clock == (if Expires(s, ops[0]) then 0 else s.clock + ms)
  {
    QuietStep(s, ops[0]);
  }

  /** Each retransmission of a quiet run doubles the timeout, on 32 bits. */
  lemma {:induction false} TimeoutDoubles(s: Sender, ops: seq<SenderOp>)
    requires Inv(s) && EnabledRun(s, ops) && QuietRun(s, ops) && s.inFlight != []
    ensures Retransmissions(s, ops) >= 0
    ensures TimeoutAfter(s, ops) == s.retransTimeout * Pow2(Retransmissions(s, ops)) % TWO32
    decreases |ops|
  {
    if ops == [] {
    } else {
      var s1 := Step(s, ops[0]);
      QuietUnfold(s, ops);
      TimeoutDoubles(s1, ops[1..]);
      if Expires(s, ops[0]) {
        DoubledTimeout(s.retransTimeout, Retransmissions(s1, ops[1..]));
      }
    }
  }

  /** The time that k retransmissions take, each with twice the timeout of the one before. */
  function Due(timeout: nat, k: int): nat
    decreases k
  {
    if k <= 0 then 0 else timeout + Due(2 * timeout, k - 1)
  }

  /** The timeout still fits 32 bits after k doublings. */
  predicate Fits32(timeout: nat, k: int)
    decreases k
  {
    timeout < TWO32 && (k > 0 ==> Fits32(2 * timeout, k - 1))
  }

  lemma {:induction false} DueIs(timeout: nat, k: nat)
    ensures Due(timeout, k) == timeout * (Pow2(k) - 1)
    ensures timeout * Pow2(k) < TWO32 ==> Fits32(timeout, k)
    decreases k
  {
    if k > 0 {
      DueIs(2 * timeout, k - 1);
      DoubledProduct(timeout, Pow2(k - 1));
    }
  }

  lemma DoubledProduct(timeout: nat, p: nat)
    requires p >= 1
    ensures timeout + (2 * timeout) * (p - 1) == timeout * (2 * p - 1)
    ensures (2 * timeout) * p == timeout * (2 * p) && timeout <= timeout * (2 * p)
  {
  }

  lemma {:induction false} RetransmissionsGrow(s: Sender, ops: seq<SenderOp>)
    requires Inv(s) && EnabledRun(s, ops) && QuietRun(s, ops) && s.inFlight != []
    ensures Retransmissions(s, ops) >= 0
    decreases |ops|
  {
    if ops == [] {
    } else {
      QuietUnfold(s, ops);
      RetransmissionsGrow(Step(s, ops[0]), ops[1..]);
    }
  }

  /** The retransmissions of a quiet run take as long as they are due, less what the clock already showed. */
  lemma {:induction false} BackoffTakes(s: Sender, ops: seq<SenderOp>)
    requires Inv(s) && EnabledRun(s, ops) && QuietRun(s, ops) && s.inFlight != []
    requires Fits32(s.retransTimeout, Retransmissions(s, ops))
    ensures Elapsed(ops) + s.clock >= Due(s.retransTimeout, Retransmissions(s, ops)) + ClockAfter(s, ops)
    decreases |ops|
  {
    if ops == [] {
    } else {
      var s1 := Step(s, ops[0]);
      QuietUnfold(s, ops);
      RetransmissionsGrow(s1, ops[1..]);
      if Expires(s, ops[0]) {
        assert 2 * s.retransTimeout % TWO32 == 2 * s.retransTimeout;
      }
      BackoffTakes(s1, ops[1..]);
    }
  }

  lemma SpacingProduct(i: nat, p: nat)
    requires p >= 1
    ensures i * (2 * p - 2) == (2 * i) * (p - 1) && (2 * i) * p == i * (2 * p)
  {
  }

  lemma SpacingIs(initial: nat, n: nat)
    requires initial * Pow2(n + 1) < TWO32
    ensures Fits32(2 * initial, n) && Due(2 * initial, n) == initial * (Pow2(n + 1) - 2)
    ensures (2 * initial) * Pow2(n) % TWO32 == initial * Pow2(n + 1)
  {
    SpacingProduct(initial, Pow2(n));
    DueIs(2 * initial, n);
  }

  /**
   * Back-off spacing: from the moment a first retransmission was made with the initial timeout, n further ones take
   * at least initial * (2^(n+1) - 2) ms however sends are interleaved, and the timeout then is initial * 2^(n+1).
   */
  lemma BackoffSpacing(s: Sender, ops: seq<SenderOp>, n: nat)
    requires Inv(s) && EnabledRun(s, ops) && QuietRun(s, ops) && s.inFlight != []
    requires s.clock == 0 && s.retransTimeout == 2 * s.initialTimeout
    requires Retransmissions(s, ops) == n
    requires s.initialTimeout * Pow2(n + 1) < TWO32
    ensures TimeoutAfter(s, ops) == s.initialTimeout * Pow2(n + 1)
    ensures Elapsed(ops) >= s.initialTimeout * (Pow2(n + 1) - 2)
  {
    SpacingIs(s.initialTimeout, n);
    TimeoutDoubles(s, ops);
    BackoffTakes(s, ops);
  }

  // ----- Why spacing does not count from the first send

  /** An acknowledgment that empties the queue of a sender with nothing more to send leaves the clock running on. */
  lemma ClockRunsOn(s: Sender, window: u16)
    requires Inv(s) && Young(s) && s.syn && !s.fin && s.isn == 0 && s.nextSeqno == 1 && s.receiveAck == 0
    requires s.stream.BufferSize() == 0 && !s.stream.inputEnded && s.clockIsCounting && window > 0
    ensures var t := s.AckReceived(1, window);
            && Inv(t) && t.inFlight == [] && t.clock == s.clock && t.clockIsCounting && t.nextSeqno == t.receiveAck == 1
            && t.windowSize == window && t.stream == s.stream && !t.fin && t.consecutiveRetrans == 0 && t.syn
            && t.retransTimeout == t.initialTimeout == s.initialTimeout
  {
    assert Unwrap(1, 0, 0) == 1;
    AckReceivedKeepsInv(s, 1, window);
    AckedKeepsInv(s, 1, window);
    PopAckedKeeps(s.(windowSize := window, receiveAck := 1, checkpoint := 1), 1);
    var sent := FillWindowSends(s.Acked(1, window));
    var emitted := AckReceivedEmits(s, 1, window);
    ContiguousOrdered(s.AckReceived(1, window).inFlight, 1, 1, 0, s.stream);
  }

  /** The next byte then goes out under the old clock. */
  lemma SendsUnderOldClock(s: Sender)
    requires Inv(s) && s.syn && !s.fin && s.inFlight == [] && s.clockIsCounting && s.nextSeqno == s.receiveAck == 1
    requires s.windowSize > 0 && s.stream.accepted == [] && s.stream.capacity > 0 && !s.stream.inputEnded
    ensures var t := s.Write([1]).FillWindow();
            t.inFlight != [] && t.clock == s.clock && t.retransTimeout == s.retransTimeout
            && t.consecutiveRetrans == s.consecutiveRetrans
  {
    StepKeepsInv(s, SenderOp.WriteOp([1]));
    var w := s.Write([1]);
    assert w.stream.accepted == [1];
    var sent := FillWindowSends(w);
    FillWindowKeepsInv(w);
    var w0 := w.(windowIsZero := false);
    assert w0.Piece(w.Window()) == [1] && w0.CanSend(w.Window());
    OneRoundSends(w0, w.Window());
  }

  lemma OneRoundSends(s: Sender, win: nat)
    requires Counted(s) && s.CanSend(win)
    ensures s.FillLoop(win).inFlight != []
  {
    var seg := RoundSends(s, win);
    var rest := FillLoopSends(s.Round(win), win);
  }

  /** Instance: the SYN is acknowledged just before it would expire; a byte sent then is sent again after 1 ms. */
  lemma EarlyRetransmissionExample(timeout: u16)
    requires timeout >= 2
    ensures var s := NewSender(10, timeout, 0).FillWindow().Tick(timeout - 1);
            var t := s.AckReceived(1, 10).Write([1]).FillWindow();
            t.inFlight != [] && t.consecutiveRetrans == 0 && t.Tick(1).consecutiveRetrans == 1
  {
    var s := NewSender(10, timeout, 0);
    FillWindowKeepsInv(s);
    TickKeepsInv(s.FillWindow(), timeout - 1);
    var u := s.FillWindow().Tick(timeout - 1);
    ClockRunsOn(u, 10);
    SendsUnderOldClock(u.AckReceived(1, 10));
  }

  /** The timer never waits longer than the back-off schedule allows. */
  predicate OnSchedule(s: Sender) {
    s.retransTimeout <= s.initialTimeout * Pow2(s.consecutiveRetrans)
  }

  lemma StepKeepsSchedule(s: Sender, op: SenderOp)
    requires Inv(s) && OnSchedule(s) && Enabled(s, op)
    ensures OnSchedule(Step(s, op))
  {
    match op {
      case FillOp =>
        var sent := FillWindowSends(s);
      case AckOp(ackno, window) =>
        var ack := Unwrap(ackno, s.isn, s.checkpoint);
        if s.receiveAck < ack <= s.nextSeqno {
          AckedKeepsInv(s, ack, window);
          PopAckedKeeps(s.(windowSize := window, receiveAck := ack, checkpoint := ack), ack);
          var sent := FillWindowSends(s.Acked(ack, window));
        }
      case TickOp(ms) => TickKeepsSchedule(s, ms);
      case _ =>
    }
  }

  lemma TickKeepsSchedule(s: Sender, ms: nat)
    requires OnSchedule(s)
    ensures OnSchedule(s.Tick(ms))
  {
  }
}
