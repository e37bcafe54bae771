/** The ordered set of out-of-order blocks: merging, and the insertion that the reassembler's loops implement. */
module Blocks {
  import opened Common

  datatype Block = Block(begin: nat, data: seq<byte>) {
    function End(): nat {
      begin + |data|
    }
  }

  /** Neither block starts beyond the other's end: they overlap or are adjacent. */
  predicate Touching(x: Block, y: Block) {
    x.begin <= y.End() && y.begin <= x.End()
  }

  /** Union of two touching blocks; where both have a byte, the block that begins first supplies it. */
  function Join(x: Block, y: Block): Block
    requires x.begin <= y.begin <= x.End()
  {
    if x.End() >= y.End() then x else Block(x.begin, x.data + y.data[x.End() - y.begin..])
  }

  /** In order, with a gap of at least one byte between any two blocks. */
  ghost predicate Separated(blocks: seq<Block>) {
    forall i, j | 0 <= i < j < |blocks| :: blocks[i].End() < blocks[j].begin
  }

  ghost predicate AllAbove(blocks: seq<Block>, bound: int) {
    forall b | b in blocks :: b.begin > bound
  }

  function Total(blocks: seq<Block>): nat {
    if blocks == [] then 0 else |blocks[0].data| + Total(blocks[1..])
  }

  function Remove(blocks: seq<Block>, i: nat): seq<Block>
    requires i < |blocks|
  {
    blocks[..i] + blocks[i + 1..]
  }

  /** One left-to-right pass that joins the element with every block it touches. */
  function Insert(blocks: seq<Block>, elm: Block): seq<Block> {
    if blocks == [] then [elm]
    else if blocks[0].End() < elm.begin then [blocks[0]] + Insert(blocks[1..], elm)
    else if elm.End() < blocks[0].begin then [elm] + blocks
    else Insert(blocks[1..], if blocks[0].begin < elm.begin then Join(blocks[0], elm) else Join(elm, blocks[0]))
  }

  lemma JoinAssociative(p: Block, e: Block, n: Block)
    requires p.begin < e.begin <= p.End() < n.begin && e.begin <= n.begin <= e.End()
    ensures Join(Join(p, e), n) == Join(p, Join(e, n))
  {
  }

  /** The element bridges the gap between two blocks: it does not matter which of them it is joined with first. */
  lemma InsertAbsorbsBoth(p: Block, n: Block, rest: seq<Block>, elm: Block)
    requires p.begin < elm.begin <= p.End() < n.begin && elm.begin <= n.begin <= elm.End()
    ensures Insert([p, n] + rest, elm) == Insert([p] + rest, Join(elm, n))
  {
    JoinAssociative(p, elm, n);
    assert ([p, n] + rest)[1..] == [n] + rest && ([n] + rest)[1..] == rest && ([p] + rest)[1..] == rest;
    assert Insert([p, n] + rest, elm) == Insert([n] + rest, Join(p, elm));
  }

  lemma InsertAbsorbsSecond(blocks: seq<Block>, elm: Block)
    requires Separated(blocks) && |blocks| >= 2
    requires blocks[0].begin < elm.begin <= blocks[0].End() && elm.begin <= blocks[1].begin <= elm.End()
    ensures Insert(blocks, elm) == Insert(Remove(blocks, 1), Join(elm, blocks[1]))
  {
    assert blocks == [blocks[0], blocks[1]] + blocks[2..] && Remove(blocks, 1) == [blocks[0]] + blocks[2..];
    InsertAbsorbsBoth(blocks[0], blocks[1], blocks[2..], elm);
  }

  lemma {:induction false} InsertAbsorbsNext(blocks: seq<Block>, elm: Block, i: nat)
    requires Separated(blocks) && i < |blocks|
    requires elm.begin <= blocks[i].begin <= elm.End()
    requires forall j | 0 <= j < i :: blocks[j].begin < elm.begin
    ensures Insert(blocks, elm) == Insert(Remove(blocks, i), Join(elm, blocks[i]))
  {
    if i == 0 {
      assert Remove(blocks, i) == blocks[1..];
    } else {
      assert 1 < i ==> blocks[1].begin < elm.begin;
      if blocks[0].End() < elm.begin {
        InsertAbsorbsNext(blocks[1..], elm, i - 1);
        assert Remove(blocks, i)[1..] == Remove(blocks[1..], i - 1) && Remove(blocks, i)[0] == blocks[0];
      } else {
        assert blocks[0].End() < blocks[1].begin;
        InsertAbsorbsSecond(blocks, elm);
      }
    }
  }

  lemma {:induction false} InsertAbsorbsPrevious(blocks: seq<Block>, elm: Block, i: nat)
    requires Separated(blocks) && i < |blocks|
    requires blocks[i].begin < elm.begin <= blocks[i].End()
    ensures Insert(blocks, elm) == Insert(Remove(blocks, i), Join(blocks[i], elm))
  {
    var rest := Remove(blocks, i);
    if i == 0 {
      assert rest == blocks[1..];
    } else {
      assert rest[1..] == Remove(blocks[1..], i - 1) && rest[0] == blocks[0];
      InsertAbsorbsPrevious(blocks[1..], elm, i - 1);
    }
  }

  lemma {:induction false} InsertBetween(blocks: seq<Block>, elm: Block, i: nat)
    requires i <= |blocks|
    requires forall j | 0 <= j < i :: blocks[j].End() < elm.begin
    requires i < |blocks| ==> elm.End() < blocks[i].begin
    ensures Insert(blocks, elm) == blocks[..i] + [elm] + blocks[i..]
  {
    if i == 0 {
    } else {
      InsertBetween(blocks[1..], elm, i - 1);
      assert blocks[..i] == [blocks[0]] + blocks[1..][..i - 1];
    }
  }

  lemma {:induction false} TotalConcat(a: seq<Block>, b: seq<Block>)
    ensures Total(a + b) == Total(a) + Total(b)
  {
    if a == [] {
      assert a + b == b;
    } else {
      assert (a + b)[1..] == a[1..] + b;
      TotalConcat(a[1..], b);
    }
  }

  lemma TotalRemove(blocks: seq<Block>, i: nat)
    requires i < |blocks|
    ensures Total(blocks) == Total(Remove(blocks, i)) + |blocks[i].data|
  {
    assert blocks == blocks[..i] + blocks[i..];
    TotalConcat(blocks[..i], blocks[i..]);
    TotalConcat(blocks[..i], blocks[i + 1..]);
    assert blocks[i..][1..] == blocks[i + 1..];
  }

  lemma SeparatedRemove(blocks: seq<Block>, i: nat)
    requires Separated(blocks) && i < |blocks|
    ensures Separated(Remove(blocks, i))
  {
  }

  /** Insertion keeps the blocks separated and above any bound that they and the element respect. */
  lemma {:induction false} InsertSeparated(blocks: seq<Block>, elm: Block, bound: int)
    requires Separated(blocks) && AllAbove(blocks, bound) && elm.begin > bound
    ensures Separated(Insert(blocks, elm)) && AllAbove(Insert(blocks, elm), bound)
  {
    if blocks == [] {
    } else if blocks[0].End() < elm.begin {
      assert AllAbove(blocks[1..], blocks[0].End());
      InsertSeparated(blocks[1..], elm, blocks[0].End());
    } else if elm.End() < blocks[0].begin {
    } else {
      var joined := if blocks[0].begin < elm.begin then Join(blocks[0], elm) else Join(elm, blocks[0]);
      InsertSeparated(blocks[1..], joined, bound);
    }
  }

  /** An element below all blocks becomes the first of them, joined with whatever it reaches. */
  lemma {:induction false} InsertInFront(blocks: seq<Block>, elm: Block)
    requires AllAbove(blocks, elm.begin)
    ensures var stored := Insert(blocks, elm);
            stored != [] && stored[0].begin == elm.begin && stored[0].End() >= elm.End()
  {
    if blocks == [] || elm.End() < blocks[0].begin {
    } else {
      assert blocks[0] in blocks;
      InsertInFront(blocks[1..], Join(elm, blocks[0]));
    }
  }
}
