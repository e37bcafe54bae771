/** The in-place reassembler: its merge loops compute the one-pass insertion of the specification. */
module StreamReassemblers {
  import opened Common
  import opened Buffers
  import opened Blocks
  import opened Reassembly

  /** Position of the first block that does not begin before `begin`. */
  function LowerBound(blocks: seq<Block>, begin: nat): (i: nat)
    requires Separated(blocks)
    ensures i <= |blocks|
    ensures forall j | 0 <= j < i :: blocks[j].begin < begin
    ensures forall j | i <= j < |blocks| :: begin <= blocks[j].begin
  {
    if blocks == [] || begin <= blocks[0].begin then 0 else 1 + LowerBound(blocks[1..], begin)
  }

  lemma LowerBoundIs(blocks: seq<Block>, begin: nat, i: nat)
    requires Separated(blocks) && i <= |blocks|
    requires i > 0 ==> blocks[i - 1].begin < begin
    requires i < |blocks| ==> begin <= blocks[i].begin
    ensures LowerBound(blocks, begin) == i
  {
  }

  /** Merges the second block into the first and returns how many bytes they had in common, or -1 if they are apart. */
  method MergeBlock(elm1: Block, elm2: Block) returns (merged: int, elm: Block)
    ensures merged >= 0 <==> Touching(elm1, elm2)
    ensures merged < 0 ==> elm == elm1
    ensures merged >= 0 ==>
              && elm == (if elm1.begin > elm2.begin then Join(elm2, elm1) else Join(elm1, elm2))
              && |elm.data| + merged == |elm1.data| + |elm2.data|
  {
    var x, y := elm1, elm2;
    if elm1.begin > elm2.begin {
      x, y := elm2, elm1;
    }
    if x.End() < y.begin {
      return -1, elm1;
    } else if x.End() >= y.End() {
      return |y.data|, x;
    } else {
      return x.End() - y.begin, Block(x.begin, x.data + y.data[x.End() - y.begin..]);
    }
  }

  /** The blocks that begin at or after the element are all beyond its end. */
  predicate GapAfter(blocks: seq<Block>, elm: Block)
    requires Separated(blocks)
  {
    var i := LowerBound(blocks, elm.begin);
    i < |blocks| ==> elm.End() < blocks[i].begin
  }

  /** The blocks that begin before the element all end before it. */
  predicate GapBefore(blocks: seq<Block>, elm: Block)
    requires Separated(blocks)
  {
    var i := LowerBound(blocks, elm.begin);
    i > 0 ==> blocks[i - 1].End() < elm.begin
  }

  lemma AbsorbNext(blocks: seq<Block>, elm: Block, i: nat)
    requires Separated(blocks) && i == LowerBound(blocks, elm.begin) && i < |blocks|
    requires Touching(elm, blocks[i])
    ensures Insert(blocks, elm) == Insert(Remove(blocks, i), Join(elm, blocks[i]))
    ensures Separated(Remove(blocks, i)) && Total(Remove(blocks, i)) == Total(blocks) - |blocks[i].data|
  {
    InsertAbsorbsNext(blocks, elm, i);
    TotalRemove(blocks, i);
    SeparatedRemove(blocks, i);
  }

  lemma AbsorbPrevious(blocks: seq<Block>, elm: Block, i: nat)
    requires Separated(blocks) && i + 1 == LowerBound(blocks, elm.begin) && GapAfter(blocks, elm)
    requires Touching(elm, blocks[i])
    ensures Insert(blocks, elm) == Insert(Remove(blocks, i), Join(blocks[i], elm))
    ensures Separated(Remove(blocks, i)) && Total(Remove(blocks, i)) == Total(blocks) - |blocks[i].data|
    ensures GapAfter(Remove(blocks, i), Join(blocks[i], elm))
  {
    InsertAbsorbsPrevious(blocks, elm, i);
    TotalRemove(blocks, i);
    SeparatedRemove(blocks, i);
    LowerBoundIs(Remove(blocks, i), blocks[i].begin, i);
  }

  lemma PlaceBetween(blocks: seq<Block>, elm: Block, i: nat)
    requires Separated(blocks) && i == LowerBound(blocks, elm.begin)
    requires GapAfter(blocks, elm) && GapBefore(blocks, elm)
    ensures Insert(blocks, elm) == blocks[..i] + [elm] + blocks[i..]
    ensures Total(Insert(blocks, elm)) == Total(blocks) + |elm.data|
  {
    forall j | 0 <= j < i
      ensures blocks[j].End() < elm.begin
    {
      assert j < i - 1 ==> blocks[j].End() < blocks[i - 1].begin;
    }
    InsertBetween(blocks, elm, i);
    Rejoin(blocks, i);
    TotalAround(blocks, blocks[..i], elm, blocks[i..]);
  }

  lemma TotalAround(blocks: seq<Block>, before: seq<Block>, elm: Block, after: seq<Block>)
    requires blocks == before + after
    ensures Total(before + [elm] + after) == Total(blocks) + |elm.data|
  {
    TotalConcat(before + [elm], after);
    TotalConcat(before, [elm]);
    TotalConcat(before, after);
  }

  lemma Rejoin(blocks: seq<Block>, i: nat)
    requires i <= |blocks|
    ensures blocks == blocks[..i] + blocks[i..]
  {
  }

  class StreamReassembler {
    var blocks: seq<Block>
    var unassembledByte: int
    var headIndex: nat
    var eofFlag: bool
    const output: ByteStream
    const capacity: nat

    ghost const Repr: set<object>

    ghost predicate Valid()
      reads this, output, output.buffer
    {
      && Repr == {this, output, output.buffer}
      && output.Valid() && output.capacity == capacity
      && Model().Valid()
    }

    ghost function Model(): Reassembler
      reads this, output
    {
      Reassembler(blocks, unassembledByte, headIndex, eofFlag, output.Model())
    }

    constructor (capacity: nat)
      ensures Valid() && fresh(Repr)
      ensures Model() == NewReassembler(capacity)
    {
      this.capacity := capacity;
      blocks, unassembledByte, headIndex, eofFlag := [], 0, 0, false;
      var stream := new ByteStream(capacity);
      output := stream;
      Repr := {this, stream, stream.buffer};
    }

    /** Absorbs the blocks that begin at or after the element, up to the first gap. */
    method MergeNext(elm0: Block) returns (elm: Block)
      requires Separated(blocks)
      modifies this`blocks, this`unassembledByte
      ensures Separated(blocks) && Insert(blocks, elm) == old(Insert(blocks, elm0))
      ensures unassembledByte - |elm.data| - Total(blocks) == old(unassembledByte) - |elm0.data| - old(Total(blocks))
      ensures elm.begin == elm0.begin
      ensures GapAfter(blocks, elm)
    {
      elm := elm0;
      var i := LowerBound(blocks, elm.begin);
      while i < |blocks|
        invariant Separated(blocks) && i == LowerBound(blocks, elm.begin)
        invariant elm.begin == elm0.begin
        invariant Insert(blocks, elm) == old(Insert(blocks, elm0))
        invariant unassembledByte - |elm.data| - Total(blocks)
            == old(unassembledByte) - |elm0.data| - old(Total(blocks))
        decreases |blocks|
      {
        var merged, joined := MergeBlock(elm, blocks[i]);
        if merged < 0 {
          break;
        }
        AbsorbNext(blocks, elm, i);
        elm := joined;
        unassembledByte := unassembledByte - merged;
        blocks := Remove(blocks, i);
        i := LowerBound(blocks, elm.begin);
      }
    }

    /** Absorbs the blocks that begin before the element, down to the first gap. */
    method MergePrevious(elm0: Block) returns (elm: Block)
      requires Separated(blocks)
      requires GapAfter(blocks, elm0)
      modifies this`blocks, this`unassembledByte
      ensures Separated(blocks) && Insert(blocks, elm) == old(Insert(blocks, elm0))
      ensures unassembledByte - |elm.data| - Total(blocks) == old(unassembledByte) - |elm0.data| - old(Total(blocks))
      ensures GapAfter(blocks, elm) && GapBefore(blocks, elm)
    {
      elm := elm0;
      var i := LowerBound(blocks, elm.begin);
      while i > 0
        invariant Separated(blocks) && i == LowerBound(blocks, elm.begin)
        invariant GapAfter(blocks, elm)
        invariant Insert(blocks, elm) == old(Insert(blocks, elm0))
        invariant unassembledByte - |elm.data| - Total(blocks)
            == old(unassembledByte) - |elm0.data| - old(Total(blocks))
        decreases |blocks|
      {
        var merged, joined := MergeBlock(elm, blocks[i - 1]);
        if merged < 0 {
          break;
        }
        AbsorbPrevious(blocks, elm, i - 1);
        elm := joined;
        unassembledByte := unassembledByte - merged;
        blocks := Remove(blocks, i - 1);
        i := LowerBound(blocks, elm.begin);
      }
    }

    method StoreBlock(elm0: Block)
      requires Separated(blocks)
      modifies this`blocks, this`unassembledByte
      ensures blocks == Insert(old(blocks), elm0)
      ensures unassembledByte == old(unassembledByte) + Total(blocks) - old(Total(blocks))
    {
      unassembledByte := unassembledByte + |elm0.data|;
      var elm := MergeNext(elm0);
      elm := MergePrevious(elm);
      var i := LowerBound(blocks, elm.begin);
      PlaceBetween(blocks, elm, i);
      blocks := blocks[..i] + [elm] + blocks[i..];
    }

    /** Writes the head block out, as far as the output takes it. */
    method WriteOut()
      requires output.Valid() && Repr == {this, output, output.buffer} && blocks != []
      modifies Repr
      ensures output.Valid() && Model() == old(Model().WriteHead())
    {
      var head := blocks[0];
      var written := output.Write(head.data);
      headIndex := headIndex + written;
      unassembledByte := unassembledByte - written;
      blocks := blocks[1..];
    }

    method Store(elm: Block)
      requires Valid() && elm.begin >= headIndex
      modifies Repr
      ensures Valid() && Model() == old(Model().Store(elm))
    {
      StoreBlock(elm);
      if blocks != [] && blocks[0].begin == headIndex {
        WriteOut();
      }
      assert Model() == old(Model().Store(elm));
    }

    method JudgeEof(eof: bool)
      requires Valid()
      modifies Repr
      ensures Valid() && Model() == old(Model().JudgeEof(eof))
    {
      if eof {
        eofFlag := true;
      }
      if eofFlag && unassembledByte == 0 {
        output.EndInput();
      }
    }

    method PushSubstring(data: seq<byte>, index: nat, eof: bool)
      requires Valid()
      modifies Repr
      ensures Valid() && Model() == old(Model().Push(data, index, eof))
    {
      ghost var before := Model();
      if index >= headIndex + capacity {
        return;
      }
      if index + |data| > headIndex {
        var elm := if index < headIndex then Block(headIndex, data[headIndex - index..]) else Block(index, data);
        assert elm == before.Trim(data, index);
        Store(elm);
      }
      JudgeEof(eof);
    }
  }
}
