/** The abstract value of a byte stream: everything it ever accepted, and how much of that was popped. */
module Streams {
  import opened Common

  datatype Stream = Stream(capacity: nat, accepted: seq<byte>, popped: nat, inputEnded: bool, error: bool) {

    ghost predicate Valid() {
      popped <= |accepted| <= popped + capacity
    }

    function BytesWritten(): nat {
      |accepted|
    }

    function BufferSize(): int {
      |accepted| - popped
    }

    function Remaining(): int {
      capacity - BufferSize()
    }

    predicate Eof() {
      BufferSize() == 0 && inputEnded
    }

    function Write(data: seq<byte>): (s: Stream)
      requires Valid()
      ensures s.Valid() && s.popped == popped
    {
      this.(accepted := accepted + data[..Min(|data|, Remaining())])
    }

    function Peek(len: nat): (r: seq<byte>)
      requires Valid()
      ensures |r| <= len && popped + |r| <= |accepted| && r == accepted[popped..popped + |r|]
      ensures |r| < len ==> popped + |r| == |accepted|
    {
      accepted[popped..popped + Min(len, BufferSize())]
    }

    function Pop(len: nat): (s: Stream)
      requires Valid()
      ensures s.Valid() && s.accepted == accepted && s.popped == popped + |Peek(len)|
    {
      this.(popped := popped + Min(len, BufferSize()))
    }

    function EndInput(): Stream {
      this.(inputEnded := true)
    }

    function SetError(): Stream {
      this.(error := true)
    }
  }

  function NewStream(capacity: nat): (s: Stream)
    ensures s.Valid()
  {
    Stream(capacity, [], 0, false, false)
  }

  datatype StreamOp = WriteOp(data: seq<byte>) | ReadOp(len: nat)

  function Apply(s: Stream, op: StreamOp): (s': Stream)
    requires s.Valid()
    ensures s'.Valid()
  {
    match op
    case WriteOp(data) => s.Write(data)
    case ReadOp(len) => s.Pop(len)
  }

  function RunStream(s: Stream, ops: seq<StreamOp>): (s': Stream)
    requires s.Valid()
    ensures s'.Valid()
    decreases |ops|
  {
    if ops == [] then s else RunStream(Apply(s, ops[0]), ops[1..])
  }

  /** The bytes the reader obtains along a run. */
  function BytesRead(s: Stream, ops: seq<StreamOp>): seq<byte>
    requires s.Valid()
    decreases |ops|
  {
    if ops == [] then []
    else (if ops[0].ReadOp? then s.Peek(ops[0].len) else []) + BytesRead(Apply(s, ops[0]), ops[1..])
  }

  /** The bytes the writer got accepted along a run. */
  function BytesTaken(s: Stream, ops: seq<StreamOp>): seq<byte>
    requires s.Valid()
    decreases |ops|
  {
    if ops == [] then []
    else (if ops[0].WriteOp? then ops[0].data[..Min(|ops[0].data|, s.Remaining())] else [])
         + BytesTaken(Apply(s, ops[0]), ops[1..])
  }

  lemma {:induction false} StreamTakes(s: Stream, ops: seq<StreamOp>)
    requires s.Valid()
    ensures RunStream(s, ops).accepted == s.accepted + BytesTaken(s, ops)
    ensures RunStream(s, ops).capacity == s.capacity && s.popped <= RunStream(s, ops).popped
    decreases |ops|
  {
    if ops == [] {
    } else {
      StreamTakes(Apply(s, ops[0]), ops[1..]);
    }
  }

  lemma SliceJoins(before: seq<byte>, after: seq<byte>, from: nat, mid: nat, to: nat)
    requires before <= after && from <= mid <= to <= |after| && mid <= |before|
    ensures after[from..to] == before[from..mid] + after[mid..to]
  {
  }

  lemma SplitAnywhere(a: seq<byte>, b: seq<byte>, from: nat, at: nat)
    requires from <= at <= |a + b| && from <= |a|
    ensures (a + b)[from..at] + (a + b)[at..] == a[from..] + b
  {
  }

  lemma {:induction false} StreamReads(s: Stream, ops: seq<StreamOp>)
    requires s.Valid()
    ensures s.popped <= RunStream(s, ops).popped
    ensures BytesRead(s, ops) == RunStream(s, ops).accepted[s.popped..RunStream(s, ops).popped]
    decreases |ops|
  {
    if ops == [] {
    } else {
      var s1, s' := Apply(s, ops[0]), RunStream(s, ops);
      StreamReads(s1, ops[1..]);
      StreamTakes(s1, ops[1..]);
      SliceJoins(s1.accepted, s'.accepted, s.popped, s1.popped, s'.popped);
    }
  }

  /**
   * Bounded FIFO: along any run the reads return the accepted bytes once each, in order; the rest stays within the
   * capacity.
   */
  lemma StreamIsFifo(s: Stream, ops: seq<StreamOp>)
    requires s.Valid()
    ensures BytesRead(s, ops) + RunStream(s, ops).accepted[RunStream(s, ops).popped..]
            == s.accepted[s.popped..] + BytesTaken(s, ops)
    ensures |RunStream(s, ops).accepted| - RunStream(s, ops).popped <= s.capacity
  {
    var s' := RunStream(s, ops);
    StreamTakes(s, ops);
    StreamReads(s, ops);
    SplitAnywhere(s.accepted, BytesTaken(s, ops), s.popped, s'.popped);
  }
}
