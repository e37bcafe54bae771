/** The sender as an object: queues, counters and timer updated in place. */
module TcpSenders {
  import opened Common
  import opened WrappingIntegers
  import opened Buffers
  import opened Segments
  import opened SenderSpec

  /** Bytes buffered, and the FIN if it was not sent: what the loop that fills the window has left to do at most. */
  function Todo(s: Sender): int {
    s.stream.BufferSize() + (if s.fin then 0 else 1)
  }

  lemma FillLoopUnfolds(s: Sender, win: nat)
    requires s.stream.Valid()
    ensures s.FillLoop(win) == if s.CanSend(win) then s.Round(win).FillLoop(win) else s
    ensures s.CanSend(win) ==> Todo(s.Round(win)) < Todo(s) && Todo(s.Round(win)) >= 0
  {
  }

  class TCPSender {
    var synSent: bool
    var finSent: bool
    var windowIsZero: bool
    var clockIsCounting: bool
    var bytesInFlight: int
    var windowSize: u16
    var checkpoint: nat
    var clock: nat
    var segmentsInFlight: seq<Segment>
    var consecutiveRetrans: nat
    var retransTimeout: u32
    var receiveAck: nat
    const isn: u32
    var segmentsOut: seq<Segment>
    const initialRetransmissionTimeout: u16
    const stream: ByteStream
    var nextSeqno: nat

    ghost const Repr: set<object>

    ghost predicate Valid()
      reads this, stream, stream.buffer
    {
      Repr == {this, stream, stream.buffer} && stream.Valid()
    }

    ghost function Model(): Sender
      reads this, stream
    {
      Sender(synSent, finSent, windowIsZero, clockIsCounting, bytesInFlight, windowSize, checkpoint, clock,
             segmentsInFlight, consecutiveRetrans, retransTimeout, receiveAck, isn, segmentsOut,
             initialRetransmissionTimeout, stream.Model(), nextSeqno)
    }

    constructor (capacity: nat, retxTimeout: u16, fixedIsn: u32)
      ensures Valid() && fresh(Repr)
      ensures Model() == NewSender(capacity, retxTimeout, fixedIsn)
    {
      synSent, finSent, windowIsZero, clockIsCounting := false, false, false, false;
      bytesInFlight, windowSize, checkpoint, clock := 0, 0, 0, 0;
      segmentsInFlight, segmentsOut := [], [];
      consecutiveRetrans, retransTimeout, receiveAck, nextSeqno := 0, retxTimeout, 0, 0;
      isn := fixedIsn;
      initialRetransmissionTimeout := retxTimeout;
      var s := new ByteStream(capacity);
      stream := s;
      Repr := {this, s, s.buffer};
    }

    /** Counts the segment, keeps it for retransmission and queues it. */
    method Enqueue(seg: Segment)
      requires Valid()
      modifies this`nextSeqno, this`bytesInFlight, this`segmentsInFlight, this`segmentsOut
      ensures Valid()
      ensures Model() == old(Model()).(
                nextSeqno := old(nextSeqno) + seg.LengthInSequenceSpace(),
                bytesInFlight := old(bytesInFlight) + seg.LengthInSequenceSpace(),
                inFlight := old(segmentsInFlight) + [seg], out := old(segmentsOut) + [seg])
    {
      nextSeqno := nextSeqno + seg.LengthInSequenceSpace();
      bytesInFlight := bytesInFlight + seg.LengthInSequenceSpace();
      segmentsInFlight := segmentsInFlight + [seg];
      segmentsOut := segmentsOut + [seg];
    }

    method SendSegment(seg0: Segment)
      requires Valid()
      modifies this
      ensures Valid() && Model() == old(Model().SendSegment(seg0))
    {
      Enqueue(seg0.(header := seg0.header.(seqno := Wrap(nextSeqno, isn))));
      if !clockIsCounting {
        clockIsCounting := true;
        clock := 0;
      }
    }

    method SendEmptySegment()
      requires Valid()
      modifies this`segmentsOut
      ensures Valid() && Model() == old(Model().SendEmptySegment())
    {
      segmentsOut := segmentsOut + [Segment(DEFAULT_HEADER.(seqno := Wrap(nextSeqno, isn)), [])];
    }

    /** One round of the loop of `FillWindow`; `sent` is false when there was nothing to send. */
    method SendPiece(win: nat, remain: nat) returns (sent: bool)
      requires Valid() && remain == Model().Remain(win) && remain != 0 && !finSent
      modifies Repr
      ensures Valid() && sent == old(Model().CanSend(win))
      ensures Model() == if sent then old(Model().Round(win)) else old(Model())
    {
      var data := stream.Read(Min(remain, MAX_PAYLOAD_SIZE));
      var eof := stream.Eof();
      var last := false;
      if eof && |data| < win {
        last := true;
        finSent := true;
      }
      if data == [] && !last {
        return false;
      }
      SendSegment(NewSegment(false, last, data));
      return true;
    }

    method FillWindow()
      requires Valid()
      modifies Repr
      ensures Valid() && Model() == old(Model().FillWindow())
    {
      if !synSent {
        SendSegment(NewSegment(true, false, []));
        synSent := true;
        return;
      }
      windowIsZero := windowSize == 0;
      var win: nat := if windowSize > 0 then windowSize else 1;
      FillLoop(win);
    }

    /** A round of the loop leaves its outcome as it was, and comes closer to it unless it is reached. */
    method FillRound(win: nat, remain: nat) returns (sent: bool)
      requires Valid() && remain == Model().Remain(win) && remain != 0 && !finSent
      modifies Repr
      ensures Valid() && Model().FillLoop(win) == old(Model().FillLoop(win))
      ensures sent ==> Todo(Model()) < old(Todo(Model()))
      ensures !sent ==> Model() == Model().FillLoop(win)
    {
      FillLoopUnfolds(Model(), win);
      sent := SendPiece(win, remain);
    }

    method RemainingWindow(win: nat) returns (remain: nat)
      ensures remain == Model().Remain(win)
    {
      remain := (win - (nextSeqno - receiveAck)) % TWO64;
    }

    method FillLoop(win: nat)
      requires Valid()
      modifies Repr
      ensures Valid() && Model() == old(Model().FillLoop(win))
    {
      var remain := RemainingWindow(win);
      while remain != 0 && !finSent
        invariant Valid() && remain == Model().Remain(win)
        invariant Model().FillLoop(win) == old(Model().FillLoop(win))
        decreases Todo(Model())
      {
        var sent := FillRound(win, remain);
        if !sent {
          return;
        }
        remain := RemainingWindow(win);
      }
    }

    method AckReceived(ackno: u32, window: u16)
      requires Valid()
      modifies Repr
      ensures Valid() && Model() == old(Model().AckReceived(ackno, window))
    {
      var absAckno := Unwrap(ackno, isn, checkpoint);
      if absAckno > nextSeqno {
        return;
      }
      windowSize := window;
      if absAckno <= receiveAck {
        return;
      }
      receiveAck := absAckno;
      checkpoint := absAckno;
      PopAcked(absAckno);
      assert Model() == old(Model().Acked(absAckno, window));
      FillWindow();
      RestartTimer();
    }

    method RestartTimer()
      requires Valid()
      modifies this
      ensures Valid() && Model() == old(Model().RestartTimer())
    {
      retransTimeout := initialRetransmissionTimeout;
      consecutiveRetrans := 0;
      if segmentsInFlight != [] {
        clockIsCounting := true;
        clock := 0;
      }
    }

    method PopAcked(absAckno: nat)
      requires Valid()
      modifies this`segmentsInFlight, this`bytesInFlight
      ensures Valid() && Model() == old(Model().PopAcked(absAckno))
    {
      while segmentsInFlight != []
        invariant Model().PopAcked(absAckno) == old(Model().PopAcked(absAckno))
        decreases |segmentsInFlight|
      {
        var seg := segmentsInFlight[0];
        if Unwrap(seg.header.seqno, isn, nextSeqno) + seg.LengthInSequenceSpace() <= absAckno {
          bytesInFlight := bytesInFlight - seg.LengthInSequenceSpace();
          segmentsInFlight := segmentsInFlight[1..];
        } else {
          break;
        }
      }
    }

    /** Sends the oldest segment again and starts the timer anew. */
    method Retransmit()
      requires Valid() && segmentsInFlight != []
      modifies this`segmentsOut, this`consecutiveRetrans, this`clockIsCounting, this`clock, this`retransTimeout
      ensures Valid()
      ensures Model() == old(Model()).(
                out := old(segmentsOut) + [segmentsInFlight[0]], consecutiveRetrans := old(consecutiveRetrans) + 1,
                clockIsCounting := true, clock := 0,
                retransTimeout := if windowIsZero then old(retransTimeout) else 2 * old(retransTimeout) % TWO32)
    {
      segmentsOut := segmentsOut + [segmentsInFlight[0]];
      consecutiveRetrans := consecutiveRetrans + 1;
      clockIsCounting := true;
      clock := 0;
      if !windowIsZero {
        retransTimeout := 2 * retransTimeout % TWO32;
      }
    }

    method Tick(msSinceLastTick: nat)
      requires Valid()
      modifies this
      ensures Valid() && Model() == old(Model().Tick(msSinceLastTick))
    {
      clock := clock + msSinceLastTick;
      if clock >= retransTimeout && segmentsInFlight != [] {
        Retransmit();
      }
      if segmentsInFlight == [] {
        clockIsCounting := false;
      }
    }
  }
}
