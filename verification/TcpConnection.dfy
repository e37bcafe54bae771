/** The connection endpoint as an object owning a sender and a receiver. */
module TcpConnections {
  import opened Common
  import opened Segments
  import opened TcpSenders
  import opened TcpReceivers
  import opened StateSummary
  import opened ConnectionSpec

  class TCPConnection {
    const rtTimeout: u16
    const receiver: TCPReceiver
    const sender: TCPSender
    var active: bool
    var synSended: bool
    var timeSinceLastSegmentReceived: nat
    var needSendRst: bool
    var segmentsOut: seq<Segment>
    var lingerAfterStreamsFinish: bool

    ghost function Repr(): set<object> {
      {this} + sender.Repr + receiver.Repr
    }

    ghost predicate Valid()
      reads this, sender, sender.stream, sender.stream.buffer,
            receiver, receiver.reassembler, receiver.reassembler.output, receiver.reassembler.output.buffer
    {
      && sender.stream != receiver.reassembler.output && sender.stream.buffer != receiver.reassembler.output.buffer
      && sender.Valid() && receiver.Valid()
    }

    ghost function Model(): Connection
      reads this, sender, sender.stream, receiver, receiver.reassembler, receiver.reassembler.output
    {
      Connection(rtTimeout, receiver.Model(), sender.Model(), active, synSended, timeSinceLastSegmentReceived,
                 needSendRst, segmentsOut, lingerAfterStreamsFinish)
    }

    constructor (rtTimeout: u16, recvCapacity: nat, sendCapacity: nat, isn: u32)
      ensures Valid() && fresh(sender.Repr) && fresh(receiver.Repr)
      ensures Model() == NewConnection(rtTimeout, recvCapacity, sendCapacity, isn)
    {
      this.rtTimeout := rtTimeout;
      var r := new TCPReceiver(recvCapacity);
      var s := new TCPSender(sendCapacity, rtTimeout, isn);
      receiver, sender := r, s;
      active, synSended, timeSinceLastSegmentReceived, needSendRst := true, false, 0, false;
      segmentsOut, lingerAfterStreamsFinish := [], true;
    }

    /** Fills in acknowledgment, window and reset flag of an outgoing segment. */
    method Stamp(seg: Segment) returns (stamped: Segment)
      requires Valid()
      ensures stamped == Model().Stamp(seg)
    {
      stamped := seg;
      var ackno := receiver.Ackno();
      if ackno.Some? {
        var window := receiver.WindowSize();
        stamped := stamped.(header := stamped.header.(ack := true, ackno := ackno.value, win := window % TWO16));
      }
      if needSendRst {
        stamped := stamped.(header := stamped.header.(rst := true));
      }
    }

    /** Stamps and moves the first of the sender's segments. */
    method DrainFirst()
      requires Valid() && sender.segmentsOut != []
      modifies this`segmentsOut, sender`segmentsOut
      ensures Valid() && Model().Drain() == old(Model().Drain())
      ensures sender.segmentsOut == old(sender.segmentsOut)[1..]
    {
      ghost var before := Model();
      var seg := sender.segmentsOut[0];
      sender.segmentsOut := sender.segmentsOut[1..];
      var stamped := Stamp(seg);
      segmentsOut := segmentsOut + [stamped];
      DrainOne(before, Model());
    }

    method Drain()
      requires Valid()
      modifies this`segmentsOut, sender`segmentsOut
      ensures Valid() && Model() == old(Model().Drain())
    {
      ghost var start := Model();
      while sender.segmentsOut != []
        invariant Valid()
        invariant Model().Drain() == start.Drain()
        decreases |sender.segmentsOut|
      {
        DrainFirst();
      }
      assert segmentsOut + Model().StampAll([]) == segmentsOut;
    }

    method CleanShutdown()
      requires Valid()
      modifies this`lingerAfterStreamsFinish, this`active
      ensures Valid() && Model() == old(Model().CleanShutdown())
    {
      var eof := sender.stream.Eof();
      var ended := receiver.reassembler.output.inputEnd;
      if ended && !eof {
        lingerAfterStreamsFinish := false;
      }
      if ended && eof && sender.bytesInFlight == 0 {
        if !lingerAfterStreamsFinish || timeSinceLastSegmentReceived >= 10 * rtTimeout {
          active := false;
        }
      }
    }

    method Fill()
      requires Valid()
      modifies sender.Repr
      ensures Valid() && Model() == old(Model().(sender := Model().sender.FillWindow()))
    {
      sender.FillWindow();
      assert receiver.Valid() && receiver.Model() == old(receiver.Model());
    }

    method SegmentSends(sendSyn: bool)
      requires Valid()
      modifies Repr()
      ensures Valid() && Model() == old(Model().SegmentSends(sendSyn))
    {
      if !sendSyn && !synSended {
        return;
      }
      synSended := true;
      Fill();
      Drain();
      CleanShutdown();
    }

    method SetErrors()
      requires Valid()
      modifies Repr()
      ensures Valid() && Model() == old(Model().SetErrors())
    {
      receiver.reassembler.output.SetError();
      sender.stream.SetError();
      lingerAfterStreamsFinish := false;
      active := false;
    }

    method EnsureSegment()
      requires Valid()
      modifies sender`segmentsOut
      ensures Valid() && Model() == old(Model().EnsureSegment())
    {
      if sender.segmentsOut == [] {
        sender.SendEmptySegment();
      }
    }

    method UncleanShutdown(sendRst: bool)
      requires Valid()
      modifies Repr()
      ensures Valid() && Model() == old(Model().UncleanShutdown(sendRst))
    {
      SetErrors();
      if sendRst {
        needSendRst := true;
        EnsureSegment();
        SegmentSends(false);
      }
    }

    method TakeAck(seg: Segment)
      requires Valid()
      modifies sender.Repr
      ensures Valid()
      ensures Model() == old(Model().(sender := if seg.header.ack && sender.nextSeqno > 0
                                                then Model().sender.AckReceived(seg.header.ackno, seg.header.win)
                                                else Model().sender))
    {
      if seg.header.ack && sender.nextSeqno > 0 {
        sender.AckReceived(seg.header.ackno, seg.header.win);
      }
    }

    method TakeData(seg: Segment)
      requires Valid()
      modifies receiver.Repr
      ensures Valid() && Model() == old(Model().(receiver := Model().receiver.SegmentReceived(seg)))
    {
      receiver.SegmentReceived(seg);
    }

    method TakeIn(seg: Segment)
      requires Valid()
      modifies Repr()
      ensures Valid() && Model() == old(Model().TakeIn(seg))
    {
      TakeAck(seg);
      TakeData(seg);
    }

    /** The summary of the sender, computed from its counters. */
    method SenderState() returns (state: SenderSummary)
      requires Valid()
      ensures state == SummarizeSender(Model().sender)
    {
      var eof := sender.stream.Eof();
      if sender.stream.errorFlag {
        return SenderError;
      } else if sender.nextSeqno == 0 {
        return Closed;
      } else if sender.nextSeqno == sender.bytesInFlight {
        return SynSent;
      } else if !eof {
        return SynAcked;
      } else if sender.nextSeqno < sender.stream.written + 2 {
        return SynAcked;
      } else if sender.bytesInFlight != 0 {
        return FinSent;
      } else {
        return FinAcked;
      }
    }

    method React(seg: Segment)
      requires Valid()
      modifies Repr()
      ensures Valid() && Model() == old(Model().React(seg))
    {
      if seg.header.syn && sender.nextSeqno == 0 {
        SegmentSends(true);
        return;
      }
      if seg.header.rst {
        var state := SenderState();
        if state == SynSent && !seg.header.ack {
          return;
        }
        UncleanShutdown(false);
        return;
      }
      var ackno := receiver.Ackno();
      if seg.LengthInSequenceSpace() > 0 && ackno.Some? {
        EnsureSegment();
      }
      SegmentSends(false);
    }

    method SegmentReceived(seg: Segment)
      requires Valid()
      modifies Repr()
      ensures Valid() && Model() == old(Model().SegmentReceived(seg))
    {
      if !active {
        return;
      }
      timeSinceLastSegmentReceived := 0;
      var state := SenderState();
      if state == SynSent && seg.header.ack && seg.payload != [] {
        return;
      }
      TakeIn(seg);
      React(seg);
    }

    method Write(data: seq<byte>) returns (len: nat)
      requires Valid()
      modifies Repr()
      ensures Valid() && Model() == old(Model().Write(data))
      ensures len == Min(|data|, old(Model().sender.stream.Remaining()))
    {
      len := sender.stream.Write(data);
      SegmentSends(false);
    }

    method Elapse(ms: nat)
      requires Valid()
      modifies this`timeSinceLastSegmentReceived, sender
      ensures Valid() && Model() == old(Model().Elapse(ms))
    {
      timeSinceLastSegmentReceived := timeSinceLastSegmentReceived + ms;
      sender.Tick(ms);
    }

    method Tick(msSinceLastTick: nat)
      requires Valid()
      modifies Repr()
      ensures Valid() && Model() == old(Model().Tick(msSinceLastTick))
    {
      if !active {
        return;
      }
      Elapse(msSinceLastTick);
      if sender.consecutiveRetrans > MAX_RETX_ATTEMPTS {
        UncleanShutdown(true);
      }
      SegmentSends(false);
    }

    method EndInputStream()
      requires Valid()
      modifies Repr()
      ensures Valid() && Model() == old(Model().EndInputStream())
    {
      sender.stream.EndInput();
      SegmentSends(false);
    }

    /** The application reads from the inbound stream. */
    method ReadInbound(len: nat) returns (data: seq<byte>)
      requires Valid()
      modifies Repr()
      ensures Valid() && Model() == old(Model().ReadInbound(len))
      ensures data == old(Model().receiver.reassembler.output.Peek(len))
    {
      data := receiver.reassembler.output.Read(len);
    }

    /** The owner dequeues a segment for transmission. */
    method TakeSegment() returns (seg: Option<Segment>)
      requires Valid()
      modifies this`segmentsOut
      ensures Valid() && Model() == old(Model().TakeSegment())
      ensures seg == if old(segmentsOut) == [] then None else Some(old(segmentsOut)[0])
    {
      if segmentsOut == [] {
        return None;
      }
      seg := Some(segmentsOut[0]);
      segmentsOut := segmentsOut[1..];
    }

    method Connect()
      requires Valid()
      modifies Repr()
      ensures Valid() && Model() == old(Model().Connect())
    {
      SegmentSends(true);
    }
  }

  /** Stamping and moving the first queued segment leaves the outcome of draining unchanged. */
  lemma DrainOne(c: Connection, d: Connection)
    requires c.sender.out != []
    requires d == c.(out := c.out + [c.Stamp(c.sender.out[0])], sender := c.sender.(out := c.sender.out[1..]))
    ensures d.Drain() == c.Drain()
  {
    StampDepends(c, d, c.sender.out[1..]);
    assert c.out + ([c.Stamp(c.sender.out[0])] + c.StampAll(c.sender.out[1..]))
        == c.out + [c.Stamp(c.sender.out[0])] + c.StampAll(c.sender.out[1..]);
  }

  lemma {:induction false} StampDepends(c: Connection, d: Connection, segs: seq<Segment>)
    requires c.receiver == d.receiver && c.needSendRst == d.needSendRst
    ensures c.StampAll(segs) == d.StampAll(segs)
  {
    if segs != [] {
      StampDepends(c, d, segs[1..]);
    }
  }
}
