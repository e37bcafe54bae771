/** The TCP receiver as a value. */
module ReceiverSpec {
  import opened Common
  import opened WrappingIntegers
  import opened Segments
  import opened Reassembly

  datatype Receiver = Receiver(
    ackno: u32, isn: u32, syn: bool, fin: bool, finNotCount: bool, reassembler: Reassembler, capacity: nat) {

    ghost predicate Valid() {
      reassembler.Valid() && reassembler.output.capacity == capacity
    }

    /** Stream index of a segment's first payload byte; one less than its absolute number, on 64 bits. */
    function IndexOf(seqno: u32): nat {
      (Unwrap(seqno, isn, reassembler.output.BytesWritten()) - 1) % TWO64
    }

    /** Payload goes to the reassembler; the acknowledgment number advances if the segment is `expected`. */
    function PushAt(seg: Segment, index: nat, expected: bool): (r: Receiver)
      requires Valid()
      ensures r.Valid()
    {
      var pushed := reassembler.Push(seg.payload, index, seg.header.fin);
      var advance := pushed.output.BytesWritten() - reassembler.output.BytesWritten();
      this.(reassembler := pushed, ackno := if expected then Plus(ackno, advance) else ackno)
    }

    function Accept(seg: Segment, first: bool): (r: Receiver)
      requires Valid()
      ensures r.Valid()
    {
      PushAt(seg, if first then 0 else IndexOf(seg.header.seqno), ackno == seg.header.seqno || first)
    }

    /** No FIN was seen, or something is pending: segments are still taken in. */
    predicate Taking() {
      !fin || !reassembler.Empty()
    }

    function Greet(seg: Segment): Receiver {
      if seg.header.syn then this.(syn := true, ackno := Plus(seg.header.seqno, 1), isn := seg.header.seqno) else this
    }

    function Close(fin1: bool): Receiver {
      var r := this.(fin := fin || (fin1 && syn));
      if r.fin && r.reassembler.Empty() then
        r.(ackno := if finNotCount then Plus(ackno, 1) else ackno,
           finNotCount := false,
           reassembler := reassembler.(output := reassembler.output.EndInput()))
      else r
    }

    function SegmentReceived(seg: Segment): (r: Receiver)
      requires Valid()
      ensures r.Valid()
    {
      if seg.header.syn && syn then this
      else
        var r := Greet(seg);
        var s := if r.Taking() && r.syn then r.Accept(seg, seg.header.syn) else r;
        s.Close(seg.header.fin)
    }

    function Ackno(): Option<u32> {
      if ackno == 0 || !syn then None else Some(ackno)
    }

    function WindowSize(): int {
      capacity - reassembler.output.BufferSize()
    }

    function Read(len: nat): (r: Receiver)
      requires Valid()
      ensures r.Valid()
    {
      this.(reassembler := reassembler.Read(len))
    }

    function SetError(): (r: Receiver)
      requires Valid()
      ensures r.Valid()
    {
      this.(reassembler := reassembler.(output := reassembler.output.SetError()))
    }
  }

  /** The number the receiver should ask for next: after the SYN, every byte written, and a FIN once counted. */
  function Expected(r: Receiver): nat {
    1 + r.reassembler.head + (if r.finNotCount then 0 else 1)
  }

  function NewReceiver(capacity: nat): (r: Receiver)
    ensures r.Valid()
  {
    Receiver(0, 0, false, false, true, NewReassembler(capacity), capacity)
  }
}
