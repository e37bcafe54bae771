/**
 * The fixed segmentation of a stream: a sender that retransmits verbatim never sends a segment whose end falls inside
 * another, and the receiver's head and blocks stay on those boundaries.
 */
module Segmentation {
  import opened Common
  import opened WrappingIntegers
  import opened Streams
  import opened Segments
  import opened Blocks
  import opened Reassembly
  import opened SenderSpec
  import opened SenderInvariant

  /** Absolute position of a segment of a stream shorter than 2^32. */
  function At(seg: Segment, isn: u32): nat {
    (seg.header.seqno - isn) % TWO32
  }

  /** Stream indices of the segment's payload: [Start, End). */
  function Start(seg: Segment, isn: u32): int {
    At(seg, isn) - 1
  }

  function End(seg: Segment, isn: u32): int {
    Start(seg, isn) + |seg.payload|
  }

  lemma AtIsPosition(seg: Segment, at: nat, isn: u32)
    requires seg.header.seqno == Wrap(at, isn) && at < TWO32
    ensures At(seg, isn) == at
  {
  }

  lemma WrapAt(n: u32, isn: u32)
    ensures Wrap((n - isn) % TWO32, isn) == n
  {
  }

  /** The index does not lie strictly inside the segment's payload. */
  predicate Misses(p: int, seg: Segment, isn: u32) {
    !(Start(seg, isn) < p < End(seg, isn))
  }

  ghost predicate Boundary(p: int, wire: set<Segment>, isn: u32) {
    forall seg | seg in wire :: Misses(p, seg, isn)
  }

  /** Every segment on the wire is a piece of what the sender has sent, and starts and ends on boundaries. */
  ghost predicate Segmented(wire: set<Segment>, s: Sender) {
    && (forall seg | seg in wire :: Placed(seg, s))
    && (forall x, y | x in wire && y in wire :: Misses(Start(x, s.isn), y, s.isn) && Misses(End(x, s.isn), y, s.isn))
  }

  ghost predicate Placed(seg: Segment, s: Sender) {
    && Carries(seg, At(seg, s.isn), s.isn, s.stream)
    && At(seg, s.isn) + seg.LengthInSequenceSpace() <= s.nextSeqno
  }

  /** Segments sent end to end lie within their range. */
  lemma {:induction false} ContiguousWithin(q: seq<Segment>, from: nat, to: nat, isn: u32, stream: Stream)
    requires Contiguous(q, from, to, isn, stream) && to < TWO32
    ensures forall seg | seg in q :: from <= At(seg, isn) && At(seg, isn) + seg.LengthInSequenceSpace() <= to
                                     && Carries(seg, At(seg, isn), isn, stream)
    decreases |q|
  {
    if q != [] {
      ContiguousOrdered(q, from, to, isn, stream);
      AtIsPosition(q[0], from, isn);
      ContiguousWithin(q[1..], from + q[0].LengthInSequenceSpace(), to, isn, stream);
      assert forall seg | seg in q :: seg == q[0] || seg in q[1..];
    }
  }

  /** Segments sent end to end do not overlap. */
  lemma {:induction false} ContiguousApart(q: seq<Segment>, from: nat, to: nat, isn: u32, stream: Stream)
    requires Contiguous(q, from, to, isn, stream) && to < TWO32
    ensures forall x, y | x in q && y in q :: Misses(Start(x, isn), y, isn) && Misses(End(x, isn), y, isn)
    decreases |q|
  {
    if q != [] {
      var next := from + q[0].LengthInSequenceSpace();
      ContiguousOrdered(q, from, to, isn, stream);
      AtIsPosition(q[0], from, isn);
      ContiguousWithin(q[1..], next, to, isn, stream);
      ContiguousApart(q[1..], next, to, isn, stream);
      forall x, y | x in q && y in q
        ensures Misses(Start(x, isn), y, isn) && Misses(End(x, isn), y, isn)
      {
        assert (x == q[0] || x in q[1..]) && (y == q[0] || y in q[1..]);
      }
    }
  }

  /** What one sender operation adds to the wire: retransmissions of what is there, and segments beyond all of it. */
  ghost predicate Adds(wire: set<Segment>, out: seq<Segment>, s: Sender, t: Sender) {
    && t.isn == s.isn && Extends(t.stream, s.stream) && s.nextSeqno <= t.nextSeqno
    && (forall seg | seg in out :: seg in wire || (Placed(seg, t) && At(seg, s.isn) >= s.nextSeqno))
    && (forall x, y | x in out && y in out && x !in wire && y !in wire ::
          Misses(Start(x, s.isn), y, s.isn) && Misses(End(x, s.isn), y, s.isn))
  }

  function Sent(wire: set<Segment>, out: seq<Segment>): set<Segment> {
    wire + set seg | seg in out
  }

  lemma PlacedExtends(seg: Segment, s: Sender, t: Sender)
    requires Placed(seg, s) && t.isn == s.isn && Extends(t.stream, s.stream) && s.nextSeqno <= t.nextSeqno
    ensures Placed(seg, t)
  {
  }

  /** What was sent before, and what lies beyond all of it, do not cut into each other. */
  lemma OldAndNewMiss(before: Segment, after: Segment, s: Sender)
    requires Placed(before, s) && At(after, s.isn) >= s.nextSeqno
    ensures Misses(Start(before, s.isn), after, s.isn) && Misses(End(before, s.isn), after, s.isn)
    ensures Misses(Start(after, s.isn), before, s.isn) && Misses(End(after, s.isn), before, s.isn)
  {
  }

  lemma AddsKeepsPlaced(wire: set<Segment>, out: seq<Segment>, s: Sender, t: Sender, seg: Segment)
    requires Adds(wire, out, s, t) && (forall seg | seg in wire :: Placed(seg, s)) && seg in Sent(wire, out)
    ensures Placed(seg, t) && (seg !in wire ==> seg in out && At(seg, s.isn) >= s.nextSeqno)
  {
    if seg in wire {
      PlacedExtends(seg, s, t);
    }
  }

  lemma AddsKeepsSegmented(wire: set<Segment>, out: seq<Segment>, s: Sender, t: Sender)
    requires Segmented(wire, s) && Adds(wire, out, s, t)
    ensures Segmented(Sent(wire, out), t)
  {
    forall x | x in Sent(wire, out)
      ensures Placed(x, t)
    {
      AddsKeepsPlaced(wire, out, s, t, x);
    }
    forall x, y | x in Sent(wire, out) && y in Sent(wire, out)
      ensures Misses(Start(x, t.isn), y, t.isn) && Misses(End(x, t.isn), y, t.isn)
    {
      AddsKeepsPlaced(wire, out, s, t, x);
      AddsKeepsPlaced(wire, out, s, t, y);
      if x in wire && y !in wire {
        OldAndNewMiss(x, y, s);
      } else if x !in wire && y in wire {
        OldAndNewMiss(y, x, s);
      }
    }
  }

  // ----- The receiver's blocks

  /** Every block begins and ends where P holds. */
  ghost predicate Ends(blocks: seq<Block>, P: int -> bool) {
    forall b | b in blocks :: P(b.begin) && P(b.End())
  }

  lemma {:induction false} InsertEnds(blocks: seq<Block>, elm: Block, P: int -> bool)
    requires Ends(blocks, P) && P(elm.begin) && P(elm.End())
    ensures Ends(Insert(blocks, elm), P)
  {
    if blocks == [] || elm.End() < blocks[0].begin {
    } else {
      assert blocks[0] in blocks;
      if blocks[0].End() < elm.begin {
        InsertEnds(blocks[1..], elm, P);
      } else {
        InsertEnds(blocks[1..], if blocks[0].begin < elm.begin then Join(blocks[0], elm) else Join(elm, blocks[0]), P);
      }
    }
  }

  /** P holds where the output is full, unless nothing can reach that far. */
  ghost predicate HoldsAtLimit(r: Reassembler, P: int -> bool) {
    forall p: int | P(p) && p >= r.output.popped + r.output.capacity :: P(r.output.popped + r.output.capacity)
  }

  /**
   * If the head, the blocks and the pushed piece begin and end where P holds, then so do they after the push,
   * provided the write is not truncated, or P holds where the output is full.
   */
  lemma PushKeepsEnds(r: Reassembler, data: seq<byte>, index: nat, eof: bool, P: int -> bool)
    requires r.Valid() && P(r.head) && Ends(r.blocks, P)
    requires index < r.head + r.output.capacity ==> P(index) && P(index + |data|)
    requires HeadRun(r, data, index).End() <= r.output.popped + r.output.capacity || HoldsAtLimit(r, P)
    ensures P(r.Push(data, index, eof).head) && Ends(r.Push(data, index, eof).blocks, P)
  {
    if index < r.head + r.output.capacity && r.head < index + |data| {
      StoreKeepsEnds(r, r.Trim(data, index), P);
    }
  }

  lemma StoreKeepsEnds(r: Reassembler, elm: Block, P: int -> bool)
    requires r.Valid() && P(r.head) && Ends(r.blocks, P)
    requires elm.begin >= r.head && P(elm.begin) && P(elm.End())
    requires var stored := Insert(r.blocks, elm);
             (stored != [] && stored[0].begin == r.head ==> stored[0].End() <= r.output.popped + r.output.capacity)
             || HoldsAtLimit(r, P)
    ensures P(r.Store(elm).head) && Ends(r.Store(elm).blocks, P)
  {
    var stored := Insert(r.blocks, elm);
    InsertEnds(r.blocks, elm, P);
    if stored != [] && stored[0].begin == r.head {
      assert stored[0] in stored;
    }
  }

  /** A push that does not start at the head, and does not straddle it, leaves the head where it is. */
  lemma PushOffHead(r: Reassembler, data: seq<byte>, index: nat, eof: bool)
    requires r.Valid() && index != r.head && !(index < r.head < index + |data|)
    ensures r.Push(data, index, eof).head == r.head
  {
    if index > r.head && index < r.head + r.output.capacity {
      InsertSeparated(r.blocks, r.Trim(data, index), r.head);
      var stored := Insert(r.blocks, r.Trim(data, index));
      if stored != [] {
        assert stored[0] in stored;
      }
    }
  }

  /** A piece that starts at or below the head takes the head to its end, as far as there is room. */
  lemma PushReaches(r: Reassembler, data: seq<byte>, index: nat, eof: bool)
    requires r.Valid() && index <= r.head < index + |data|
    ensures r.Push(data, index, eof).head >= Min(index + |data|, r.output.popped + r.output.capacity)
    ensures r.head == r.output.popped + r.output.capacity ==> r.Push(data, index, eof).head == r.head
  {
    if index < r.head + r.output.capacity {
      InsertInFront(r.blocks, r.Trim(data, index));
    }
  }
}
