/** The receiver as an object. */
module TcpReceivers {
  import opened Common
  import opened WrappingIntegers
  import opened Segments
  import opened StreamReassemblers
  import opened ReceiverSpec

  class TCPReceiver {
    var ackno: u32
    var isn: u32
    var synSeen: bool
    var finSeen: bool
    var finNotCount: bool
    const reassembler: StreamReassembler
    const capacity: nat

    ghost const Repr: set<object>

    ghost predicate Valid()
      reads this, reassembler, reassembler.output, reassembler.output.buffer
    {
      Repr == {this} + reassembler.Repr && reassembler.Valid() && reassembler.capacity == capacity
    }

    ghost function Model(): Receiver
      reads this, reassembler, reassembler.output
    {
      Receiver(ackno, isn, synSeen, finSeen, finNotCount, reassembler.Model(), capacity)
    }

    constructor (capacity: nat)
      ensures Valid() && fresh(Repr)
      ensures Model() == NewReceiver(capacity)
    {
      ackno, isn, synSeen, finSeen, finNotCount := 0, 0, false, false, true;
      this.capacity := capacity;
      var r := new StreamReassembler(capacity);
      reassembler := r;
      Repr := {this} + r.Repr;
    }

    /** Passes the payload on; `advance` is how many bytes that added to the output. */
    method PushPayload(seg: Segment, index: nat) returns (advance: int)
      requires Valid()
      modifies reassembler.Repr
      ensures Valid()
      ensures Model() == old(Model()).(reassembler := old(Model().reassembler.Push(seg.payload, index, seg.header.fin)))
      ensures advance == Model().reassembler.output.BytesWritten() - old(Model().reassembler.output.BytesWritten())
    {
      var writtenBefore := reassembler.output.written;
      reassembler.PushSubstring(seg.payload, index, seg.header.fin);
      advance := reassembler.output.written - writtenBefore;
    }

    method PushAt(seg: Segment, index: nat, expected: bool)
      requires Valid()
      modifies Repr
      ensures Valid() && Model() == old(Model().PushAt(seg, index, expected))
    {
      var advance := PushPayload(seg, index);
      if expected {
        ackno := Plus(ackno, advance);
      }
    }

    method Accept(seg: Segment, first: bool)
      requires Valid()
      modifies Repr
      ensures Valid() && Model() == old(Model().Accept(seg, first))
    {
      var index := (Unwrap(seg.header.seqno, isn, reassembler.output.written) - 1) % TWO64;
      if first {
        index := 0;
      }
      assert index == if first then 0 else Model().IndexOf(seg.header.seqno);
      PushAt(seg, index, ackno == seg.header.seqno || first);
    }

    method SegmentReceived(seg: Segment)
      requires Valid()
      modifies Repr
      ensures Valid() && Model() == old(Model().SegmentReceived(seg))
    {
      if seg.header.syn {
        if synSeen {
          return;
        }
        synSeen := true;
        ackno := Plus(seg.header.seqno, 1);
        isn := seg.header.seqno;
      }
      assert Model() == old(Model().Greet(seg));
      if (!finSeen || reassembler.unassembledByte != 0) && synSeen {
        Accept(seg, seg.header.syn);
      }
      Close(seg.header.fin);
    }

    method Close(fin: bool)
      requires Valid()
      modifies Repr
      ensures Valid() && Model() == old(Model().Close(fin))
    {
      if fin && synSeen {
        finSeen := true;
      }
      if finSeen && reassembler.unassembledByte == 0 {
        if finNotCount {
          ackno := Plus(ackno, 1);
          finNotCount := false;
        }
        reassembler.output.EndInput();
      }
    }

    method Ackno() returns (r: Option<u32>)
      ensures r == Model().Ackno()
    {
      r := if ackno == 0 || !synSeen then None else Some(ackno);
    }

    method WindowSize() returns (w: nat)
      requires Valid()
      ensures w == Model().WindowSize()
    {
      var size := reassembler.output.buffer.Size();
      w := capacity - size;
    }
  }
}
