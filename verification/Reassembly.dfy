/** The stream reassembler as a value: what one push does, and what every push keeps. */
module Reassembly {
  import opened Common
  import opened Streams
  import opened Blocks

  datatype Reassembler = Reassembler(blocks: seq<Block>, unassembled: int, head: nat, eofFlag: bool, output: Stream) {

    ghost predicate Valid() {
      && output.Valid()
      && head == |output.accepted|
      && Separated(blocks) && AllAbove(blocks, head)
      && unassembled >= Total(blocks)
    }

    predicate Empty() {
      unassembled == 0
    }

    /** The part of a substring that lies at or beyond the head. */
    function Trim(data: seq<byte>, index: nat): (b: Block)
      requires index + |data| > head
      ensures b.begin == Max(index, head) && b.End() == index + |data|
    {
      if index < head then Block(head, data[head - index..]) else Block(index, data)
    }

    /** Writes the first block out; what the output does not take is lost, but stays counted. */
    function WriteHead(): Reassembler
      requires output.Valid() && blocks != []
    {
      var n := Min(|blocks[0].data|, output.Remaining());
      this.(blocks := blocks[1..], unassembled := unassembled - n, head := head + n,
            output := output.Write(blocks[0].data))
    }

    function Store(elm: Block): (r: Reassembler)
      requires Valid() && elm.begin >= head
      ensures r.Valid()
      ensures r.eofFlag == eofFlag && output.accepted <= r.output.accepted
      ensures r.output == output.(accepted := r.output.accepted)
    {
      var stored := Insert(blocks, elm);
      InsertSeparated(blocks, elm, head - 1);
      var r := this.(blocks := stored, unassembled := unassembled + Total(stored) - Total(blocks));
      if stored != [] && stored[0].begin == head then r.WriteHead() else r
    }

    /** Drops what was already written, and stores the rest if there is any. */
    function Absorb(data: seq<byte>, index: nat): (r: Reassembler)
      requires Valid()
      ensures r.Valid()
      ensures output.accepted <= r.output.accepted && r.output == output.(accepted := r.output.accepted)
    {
      if index + |data| <= head then this else Store(Trim(data, index))
    }

    function JudgeEof(eof: bool): Reassembler {
      var flag := eofFlag || eof;
      this.(eofFlag := flag, output := if flag && Empty() then output.EndInput() else output)
    }

    function Push(data: seq<byte>, index: nat, eof: bool): (r: Reassembler)
      requires Valid()
      ensures r.Valid()
      ensures output.accepted <= r.output.accepted && (output.inputEnded ==> r.output.inputEnded)
      ensures r.output == output.(accepted := r.output.accepted, inputEnded := r.output.inputEnded)
    {
      if index >= head + output.capacity then this
      else Absorb(data, index).JudgeEof(eof)
    }

    function Read(len: nat): (r: Reassembler)
      requires Valid()
      ensures r.Valid()
    {
      this.(output := output.Pop(len))
    }
  }

  function NewReassembler(capacity: nat): (r: Reassembler)
    ensures r.Valid()
  {
    Reassembler([], 0, 0, false, NewStream(capacity))
  }

  // ----- Content: everything held comes from the one stream that was pushed

  /** The block carries bytes of `stream` at their place in it; a block without bytes carries none. */
  ghost predicate Agrees(b: Block, stream: seq<byte>) {
    b.data == [] || (b.End() <= |stream| && b.data == stream[b.begin..b.End()])
  }

  ghost predicate AllAgree(blocks: seq<Block>, stream: seq<byte>) {
    forall b | b in blocks :: Agrees(b, stream)
  }

  lemma JoinAgrees(x: Block, y: Block, stream: seq<byte>)
    requires x.begin <= y.begin <= x.End()
    requires Agrees(x, stream) && Agrees(y, stream)
    ensures Agrees(Join(x, y), stream)
  {
  }

  lemma {:induction false} InsertAgrees(blocks: seq<Block>, elm: Block, stream: seq<byte>)
    requires AllAgree(blocks, stream) && Agrees(elm, stream)
    ensures AllAgree(Insert(blocks, elm), stream)
  {
    if blocks == [] || elm.End() < blocks[0].begin {
    } else if blocks[0].End() < elm.begin {
      InsertAgrees(blocks[1..], elm, stream);
    } else if blocks[0].begin < elm.begin {
      JoinAgrees(blocks[0], elm, stream);
      InsertAgrees(blocks[1..], Join(blocks[0], elm), stream);
    } else {
      JoinAgrees(elm, blocks[0], stream);
      InsertAgrees(blocks[1..], Join(elm, blocks[0]), stream);
    }
  }

  /** The reassembler holds nothing but bytes of `stream`, and has output a prefix of it. */
  ghost predicate Faithful(r: Reassembler, stream: seq<byte>) {
    r.Valid() && r.output.accepted <= stream && AllAgree(r.blocks, stream)
  }

  lemma WriteHeadFaithful(r: Reassembler, stream: seq<byte>)
    requires r.output.Valid() && r.head == |r.output.accepted|
    requires r.output.accepted <= stream && AllAgree(r.blocks, stream)
    requires r.blocks != [] && r.blocks[0].begin == r.head
    ensures r.WriteHead().output.accepted <= stream && AllAgree(r.WriteHead().blocks, stream)
  {
    var b := r.blocks[0];
    var n := Min(|b.data|, r.output.Remaining());
    assert b in r.blocks;
    if b.data != [] {
      assert b.data[..n] == stream[r.head..r.head + n];
      assert stream[..r.head] + stream[r.head..r.head + n] == stream[..r.head + n];
    }
  }

  /**
   * Pushing a piece of the stream, at any index, in any order, any number of times and truncated or not, keeps that.
   */
  lemma PushFaithful(r: Reassembler, stream: seq<byte>, data: seq<byte>, index: nat, eof: bool)
    requires Faithful(r, stream) && Agrees(Block(index, data), stream)
    ensures Faithful(r.Push(data, index, eof), stream)
  {
    if index < r.head + r.output.capacity && index + |data| > r.head {
      var elm := r.Trim(data, index);
      if index < r.head {
        assert elm.data == stream[r.head..index + |data|];
      }
      StoreFaithful(r, stream, elm);
    }
  }

  lemma StoreFaithful(r: Reassembler, stream: seq<byte>, elm: Block)
    requires Faithful(r, stream) && elm.begin >= r.head && Agrees(elm, stream)
    ensures Faithful(r.Store(elm), stream)
  {
    var stored := Insert(r.blocks, elm);
    InsertAgrees(r.blocks, elm, stream);
    var mid := r.(blocks := stored, unassembled := r.unassembled + Total(stored) - Total(r.blocks));
    if stored != [] && stored[0].begin == r.head {
      WriteHeadFaithful(mid, stream);
    }
  }

  // ----- Accounting: the counter is exact until a write to the output is truncated

  /** Bytes the counter still counts although no block holds them. */
  function Leaked(r: Reassembler): int {
    r.unassembled - Total(r.blocks)
  }

  /** The run of bytes that a push makes contiguous with the head; empty when the push reaches no such run. */
  function HeadRun(r: Reassembler, data: seq<byte>, index: nat): Block
    requires r.Valid()
  {
    var stored := if r.head < index + |data| then Insert(r.blocks, r.Trim(data, index)) else r.blocks;
    if index < r.head + r.output.capacity && stored != [] && stored[0].begin == r.head
    then stored[0]
    else Block(r.head, [])
  }

  /**
   * A push leaks exactly the bytes by which the run it completes overshoots the output's room; so the counter
   * stays exact exactly when that run ends within `popped + capacity`.
   */
  lemma PushLeaks(r: Reassembler, data: seq<byte>, index: nat, eof: bool)
    requires r.Valid()
    ensures Leaked(r.Push(data, index, eof)) - Leaked(r)
         == Max(0, HeadRun(r, data, index).End() - (r.output.popped + r.output.capacity))
    ensures Leaked(r.Push(data, index, eof)) == Leaked(r)
       <==> HeadRun(r, data, index).End() <= r.output.popped + r.output.capacity
  {
  }
}
