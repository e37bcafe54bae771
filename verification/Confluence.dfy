/**
 * The reassembler's state after pushes that fit its window is a function of the set of pushed indices alone:
 * order, duplication and the way the stream was cut up leave no trace.
 */
module Confluence {
  import opened Common
  import opened Blocks
  import opened Reassembly

  ghost function Range(from: nat, to: nat): (s: set<nat>)
    ensures forall i :: i in s <==> from <= i < to
  {
    set i: nat | from <= i < to && Between(from, i, to)
  }

  predicate Between(from: nat, i: nat, to: nat) {
    from <= i < to
  }

  ghost function Indices(blocks: seq<Block>): set<nat> {
    if blocks == [] then {} else Range(blocks[0].begin, blocks[0].End()) + Indices(blocks[1..])
  }

  ghost predicate NoneEmpty(blocks: seq<Block>) {
    forall b | b in blocks :: b.data != []
  }

  ghost predicate Within(blocks: seq<Block>, limit: int) {
    forall b | b in blocks :: b.End() <= limit
  }

  /**
   * The state that the pushed index set determines: the head is the length of the longest gap-free prefix, the
   * output is that prefix, the blocks are exactly the maximal runs above it, and the counter is their size.
   */
  ghost predicate Canonical(r: Reassembler, stream: seq<byte>, pushed: set<nat>, eof: bool) {
    && Faithful(r, stream)
    && Range(0, r.head) <= pushed && r.head !in pushed
    && Indices(r.blocks) == pushed - Range(0, r.head)
    && NoneEmpty(r.blocks) && Within(r.blocks, r.output.popped + r.output.capacity)
    && r.unassembled == Total(r.blocks)
    && r.eofFlag == eof
    && (eof ==> |stream| > 0 && |stream| - 1 in pushed)
    && (r.output.inputEnded <==> eof && r.head == |stream|)
  }

  // ----- Index sets of block sequences

  lemma JoinCoversBoth(x: Block, y: Block)
    requires x.begin <= y.begin <= x.End()
    ensures Range(Join(x, y).begin, Join(x, y).End()) == Range(x.begin, x.End()) + Range(y.begin, y.End())
  {
  }

  lemma {:induction false} IndicesOfInsert(blocks: seq<Block>, elm: Block)
    requires Separated(blocks)
    ensures Indices(Insert(blocks, elm)) == Indices(blocks) + Range(elm.begin, elm.End())
  {
    if blocks == [] || elm.End() < blocks[0].begin {
    } else if blocks[0].End() < elm.begin {
      IndicesOfInsert(blocks[1..], elm);
    } else if blocks[0].begin < elm.begin {
      JoinCoversBoth(blocks[0], elm);
      IndicesOfInsert(blocks[1..], Join(blocks[0], elm));
    } else {
      JoinCoversBoth(elm, blocks[0]);
      IndicesOfInsert(blocks[1..], Join(elm, blocks[0]));
    }
  }

  lemma {:induction false} IndicesAbove(blocks: seq<Block>, bound: int)
    requires AllAbove(blocks, bound)
    ensures forall i | i in Indices(blocks) :: i > bound
  {
    if blocks == [] {
    } else {
      assert blocks[0] in blocks;
      IndicesAbove(blocks[1..], bound);
    }
  }

  lemma {:induction false} InsertNoneEmpty(blocks: seq<Block>, elm: Block, limit: int)
    requires NoneEmpty(blocks) && elm.data != []
    requires Within(blocks, limit) && elm.End() <= limit
    ensures NoneEmpty(Insert(blocks, elm)) && Within(Insert(blocks, elm), limit)
  {
    if blocks == [] || elm.End() < blocks[0].begin {
    } else if blocks[0].End() < elm.begin {
      InsertNoneEmpty(blocks[1..], elm, limit);
    } else {
      assert blocks[0] in blocks;
      var joined := if blocks[0].begin < elm.begin then Join(blocks[0], elm) else Join(elm, blocks[0]);
      InsertNoneEmpty(blocks[1..], joined, limit);
    }
  }

  /** The first of separated blocks is a maximal run: the rest lie beyond a gap. */
  lemma FirstRun(blocks: seq<Block>)
    requires Separated(blocks) && blocks != []
    ensures Indices(blocks[1..]) == Indices(blocks) - Range(0, blocks[0].End() + 1)
    ensures blocks[0].End() !in Indices(blocks)
    ensures forall i | i in Indices(blocks) :: i >= blocks[0].begin
  {
  }

  /** Separated non-empty blocks cut from one stream are determined by the indices they cover. */
  lemma {:induction false} BlocksDetermined(a: seq<Block>, b: seq<Block>, stream: seq<byte>)
    requires Separated(a) && NoneEmpty(a) && AllAgree(a, stream)
    requires Separated(b) && NoneEmpty(b) && AllAgree(b, stream)
    requires Indices(a) == Indices(b)
    ensures a == b
  {
    if a != [] {
      assert a[0] in a && a[0].begin in Indices(a);
    }
    if b != [] {
      assert b[0] in b && b[0].begin in Indices(b);
    }
    if a == [] || b == [] {
    } else {
      FirstRun(a);
      FirstRun(b);
      assert a[0].begin == b[0].begin;
      var endA, endB := a[0].End(), b[0].End();
      assert endA == endB by {
        assert endA < endB ==> endA in Indices(b);
        assert endB < endA ==> endB in Indices(a);
      }
      BlocksDetermined(a[1..], b[1..], stream);
      assert a == [a[0]] + a[1..] && b == [b[0]] + b[1..];
    }
  }

  lemma {:induction false} RangeSize(from: nat, to: nat)
    requires from <= to
    ensures |Range(from, to)| == to - from
    decreases if from < to then to - from else 0
  {
    if from == to {
      assert Range(from, to) == {};
    } else {
      RangeSize(from + 1, to);
      assert Range(from, to) == {from} + Range(from + 1, to);
    }
  }

  /** The byte counter of separated blocks counts every covered index once. */
  lemma {:induction false} TotalIsSize(blocks: seq<Block>)
    requires Separated(blocks)
    ensures Total(blocks) == |Indices(blocks)|
  {
    if blocks == [] {
    } else {
      TotalIsSize(blocks[1..]);
      RangeSize(blocks[0].begin, blocks[0].End());
      assert AllAbove(blocks[1..], blocks[0].End());
      IndicesAbove(blocks[1..], blocks[0].End());
      assert Range(blocks[0].begin, blocks[0].End()) !! Indices(blocks[1..]);
    }
  }

  // ----- Every admissible step leads from canonical state to canonical state

  /** A push the window can take: non-empty, cut from the stream, not beyond what the reader has made room for. */
  ghost predicate Fits(r: Reassembler, stream: seq<byte>, data: seq<byte>, index: nat, eof: bool) {
    && data != []
    && Agrees(Block(index, data), stream)
    && index + |data| <= r.output.popped + r.output.capacity
    && (eof ==> index + |data| == |stream|)
  }

  /** What storing does to canonical content; the end-of-stream flags are settled afterwards. */
  ghost predicate Stored(r: Reassembler, stream: seq<byte>, pushed: set<nat>) {
    && Faithful(r, stream)
    && Range(0, r.head) <= pushed && r.head !in pushed
    && Indices(r.blocks) == pushed - Range(0, r.head)
    && NoneEmpty(r.blocks) && Within(r.blocks, r.output.popped + r.output.capacity)
    && r.unassembled == Total(r.blocks)
  }

  lemma StoreCanonical(r: Reassembler, stream: seq<byte>, pushed: set<nat>, elm: Block)
    requires Stored(r, stream, pushed)
    requires elm.begin >= r.head && elm.data != [] && Agrees(elm, stream)
    requires elm.End() <= r.output.popped + r.output.capacity
    ensures Stored(r.Store(elm), stream, pushed + Range(elm.begin, elm.End()))
  {
    var stored := Insert(r.blocks, elm);
    StoreFaithful(r, stream, elm);
    InsertSeparated(r.blocks, elm, r.head - 1);
    IndicesOfInsert(r.blocks, elm);
    InsertNoneEmpty(r.blocks, elm, r.output.popped + r.output.capacity);
    assert elm.begin in Indices(stored);
    FirstRun(stored);
    assert stored[0] in stored;
    if stored[0].begin == r.head {
      assert r.Store(elm).head == stored[0].End();
      assert Range(0, r.head) + Indices(stored) == pushed + Range(elm.begin, elm.End());
    }
  }

  lemma PushCanonical(r: Reassembler, stream: seq<byte>, pushed: set<nat>, seen: bool,
                      data: seq<byte>, index: nat, eof: bool)
    requires Canonical(r, stream, pushed, seen) && Fits(r, stream, data, index, eof)
    ensures Canonical(r.Push(data, index, eof), stream, pushed + Range(index, index + |data|), seen || eof)
  {
    var mid := if index + |data| > r.head then r.Store(r.Trim(data, index)) else r;
    TrimmedCanonical(r, stream, pushed, data, index);
    EndOfStream(mid, stream, pushed + Range(index, index + |data|), seen || eof);
  }

  /** Storing the part beyond the head accounts for the whole piece, the rest having been pushed before. */
  lemma TrimmedCanonical(r: Reassembler, stream: seq<byte>, pushed: set<nat>, data: seq<byte>, index: nat)
    requires Stored(r, stream, pushed) && data != [] && Agrees(Block(index, data), stream)
    requires index + |data| <= r.output.popped + r.output.capacity
    ensures Stored(if index + |data| > r.head then r.Store(r.Trim(data, index)) else r,
                   stream, pushed + Range(index, index + |data|))
  {
    var all := pushed + Range(index, index + |data|);
    if index + |data| > r.head {
      var elm := r.Trim(data, index);
      if index < r.head {
        assert elm.data == stream[r.head..index + |data|];
      }
      StoreCanonical(r, stream, pushed, elm);
      assert pushed + Range(elm.begin, elm.End()) == all;
    } else {
      assert all == pushed;
    }
  }

  /** Once the last byte was pushed, nothing is stored out of order exactly when the whole stream was output. */
  lemma EndOfStream(r: Reassembler, stream: seq<byte>, pushed: set<nat>, eof: bool)
    requires Stored(r, stream, pushed) && (eof ==> |stream| > 0 && |stream| - 1 in pushed)
    ensures eof ==> (r.Empty() <==> r.head == |stream|)
  {
    if eof {
      TotalIsSize(r.blocks);
      if r.blocks != [] {
        assert r.blocks[0] in r.blocks && Agrees(r.blocks[0], stream);
      }
      assert r.head < |stream| ==> |stream| - 1 in Indices(r.blocks);
    }
  }

  lemma ReadCanonical(r: Reassembler, stream: seq<byte>, pushed: set<nat>, seen: bool, len: nat)
    requires Canonical(r, stream, pushed, seen)
    ensures Canonical(r.Read(len), stream, pushed, seen)
  {
  }

  // ----- Runs

  datatype Op = PushOp(data: seq<byte>, index: nat, eof: bool) | ReadOp(len: nat)

  function Step(r: Reassembler, op: Op): (r': Reassembler)
    requires r.Valid()
    ensures r'.Valid()
  {
    match op
    case PushOp(data, index, eof) => r.Push(data, index, eof)
    case ReadOp(len) => r.Read(len)
  }

  function Run(r: Reassembler, ops: seq<Op>): (r': Reassembler)
    requires r.Valid()
    ensures r'.Valid()
    decreases |ops|
  {
    if ops == [] then r else Run(Step(r, ops[0]), ops[1..])
  }

  /** Every push of the run fits at the moment it is made. */
  ghost predicate Admissible(r: Reassembler, stream: seq<byte>, ops: seq<Op>)
    requires r.Valid()
    decreases |ops|
  {
    ops != [] ==>
      && (ops[0].PushOp? ==> Fits(r, stream, ops[0].data, ops[0].index, ops[0].eof))
      && Admissible(Step(r, ops[0]), stream, ops[1..])
  }

  ghost function PushedBy(op: Op): set<nat> {
    if op.PushOp? then Range(op.index, op.index + |op.data|) else {}
  }

  ghost function Pushed(ops: seq<Op>): set<nat> {
    if ops == [] then {} else PushedBy(ops[0]) + Pushed(ops[1..])
  }

  ghost predicate EofPushed(ops: seq<Op>) {
    exists op | op in ops :: Announces(op)
  }

  lemma {:induction false} RunCanonical(r: Reassembler, stream: seq<byte>, pushed: set<nat>, seen: bool, ops: seq<Op>)
    requires Canonical(r, stream, pushed, seen) && Admissible(r, stream, ops)
    ensures Canonical(Run(r, ops), stream, pushed + Pushed(ops), seen || EofPushed(ops))
    decreases |ops|
  {
    if ops == [] {
      assert pushed + Pushed(ops) == pushed;
    } else {
      StepCanonical(r, stream, pushed, seen, ops[0]);
      RunCanonical(Step(r, ops[0]), stream, pushed + PushedBy(ops[0]), seen || Announces(ops[0]), ops[1..]);
      assert pushed + PushedBy(ops[0]) + Pushed(ops[1..]) == pushed + Pushed(ops);
      EofPushedUnfold(ops);
    }
  }

  predicate Announces(op: Op) {
    op.PushOp? && op.eof
  }

  lemma StepCanonical(r: Reassembler, stream: seq<byte>, pushed: set<nat>, seen: bool, op: Op)
    requires Canonical(r, stream, pushed, seen)
    requires op.PushOp? ==> Fits(r, stream, op.data, op.index, op.eof)
    ensures Canonical(Step(r, op), stream, pushed + PushedBy(op), seen || Announces(op))
  {
    match op {
      case PushOp(data, index, eof) => PushCanonical(r, stream, pushed, seen, data, index, eof);
      case ReadOp(len) =>
        assert pushed + PushedBy(op) == pushed;
        ReadCanonical(r, stream, pushed, seen, len);
    }
  }

  lemma EofPushedUnfold(ops: seq<Op>)
    requires ops != []
    ensures EofPushed(ops) == (Announces(ops[0]) || EofPushed(ops[1..]))
  {
  }

  /**
   * A canonical state is determined, up to how much was read, by the pushed indices and whether the end was announced.
   */
  lemma CanonicalDetermined(a: Reassembler, b: Reassembler, stream: seq<byte>, pushed: set<nat>, eof: bool)
    requires Canonical(a, stream, pushed, eof) && Canonical(b, stream, pushed, eof)
    ensures a.blocks == b.blocks && a.unassembled == b.unassembled && a.head == b.head && a.eofFlag == b.eofFlag
    ensures a.output.accepted == b.output.accepted && a.output.inputEnded == b.output.inputEnded
    ensures a.unassembled == |pushed - Range(0, a.head)|
  {
    var headA, headB, belowA, belowB := a.head, b.head, Range(0, a.head), Range(0, b.head);
    assert headA in belowB <==> headA < headB;
    assert headB in belowA <==> headB < headA;
    BlocksDetermined(a.blocks, b.blocks, stream);
    TotalIsSize(a.blocks);
  }

  /**
   * Confluence: two runs from the initial state that push the same set of indices, in whatever pieces, order and
   * multiplicity and with whatever reads in between, end with the same output, blocks, counter and flags.
   */
  lemma ReassemblyIsConfluent(capacity: nat, stream: seq<byte>, ops1: seq<Op>, ops2: seq<Op>)
    requires Admissible(NewReassembler(capacity), stream, ops1)
    requires Admissible(NewReassembler(capacity), stream, ops2)
    requires Pushed(ops1) == Pushed(ops2) && EofPushed(ops1) == EofPushed(ops2)
    ensures var a, b := Run(NewReassembler(capacity), ops1), Run(NewReassembler(capacity), ops2);
            && a.blocks == b.blocks && a.unassembled == b.unassembled && a.head == b.head && a.eofFlag == b.eofFlag
            && a.output.accepted == b.output.accepted && a.output.inputEnded == b.output.inputEnded
            && Canonical(a, stream, Pushed(ops1), EofPushed(ops1))
  {
    var r := NewReassembler(capacity);
    assert Canonical(r, stream, {}, false);
    RunCanonical(r, stream, {}, false, ops1);
    RunCanonical(r, stream, {}, false, ops2);
    assert {} + Pushed(ops1) == Pushed(ops1) && {} + Pushed(ops2) == Pushed(ops2);
    CanonicalDetermined(Run(r, ops1), Run(r, ops2), stream, Pushed(ops1), EofPushed(ops1));
  }

  // ----- What a truncated write costs

  /** Pushes and reads only ever add to the bytes the counter counts in vain. */
  lemma {:induction false} LeaksAccumulate(r: Reassembler, ops: seq<Op>)
    requires r.Valid()
    ensures Leaked(r) <= Leaked(Run(r, ops))
    decreases |ops|
  {
    if ops == [] {
    } else {
      if ops[0].PushOp? {
        PushLeaks(r, ops[0].data, ops[0].index, ops[0].eof);
      }
      LeaksAccumulate(Step(r, ops[0]), ops[1..]);
    }
  }

  /**
   * A truncated write is never made up for: once bytes were lost to a full output before the end was signalled, no
   * sequence of pushes and reads, retransmissions included, ever makes the reassembler signal the end.
   */
  lemma {:induction false} LeakBlocksEof(r: Reassembler, ops: seq<Op>)
    requires r.Valid() && Leaked(r) > 0 && !r.output.inputEnded
    ensures !Run(r, ops).output.inputEnded && !Run(r, ops).Empty()
    decreases |ops|
  {
    if ops == [] {
    } else {
      if ops[0].PushOp? {
        PushLeaks(r, ops[0].data, ops[0].index, ops[0].eof);
      }
      LeakBlocksEof(Step(r, ops[0]), ops[1..]);
    }
  }

  /** A byte that probes a full output leaks for good, whatever is stored: nothing ever makes the counter 0 again. */
  lemma ProbeLeaks(r: Reassembler, b: byte, eof: bool, ops: seq<Op>)
    requires r.Valid() && r.output.BufferSize() == r.output.capacity > 0
    ensures var later := Run(r.Push([b], r.head, eof), ops); Leaked(later) > Leaked(r) && !later.Empty()
  {
    ProbeLeaksOnce(r, b, eof);
    LeaksAccumulate(r.Push([b], r.head, eof), ops);
  }

  lemma ProbeLeaksOnce(r: Reassembler, b: byte, eof: bool)
    requires r.Valid() && r.output.BufferSize() == r.output.capacity > 0
    ensures Leaked(r.Push([b], r.head, eof)) > Leaked(r)
  {
    InsertInFront(r.blocks, r.Trim([b], r.head));
    PushLeaks(r, [b], r.head, eof);
  }
}
