/** The Internet checksum (RFC 1071 section 1). */
module Checksum {
  import opened Common

  /** The running 32-bit sum, and whether an odd number of bytes was added so far. */
  datatype Sum = Sum(sum: u32, parity: bool)

  function AddByte(c: Sum, b: byte): Sum {
    Sum((c.sum + (if c.parity then b else 256 * b)) % TWO32, !c.parity)
  }

  function Add(c: Sum, data: seq<byte>): Sum
    decreases |data|
  {
    if data == [] then c else Add(AddByte(c, data[0]), data[1..])
  }

  /** Adds the high half to the low half until the number fits 16 bits. */
  function Fold(x: nat): (r: u16)
  {
    if x >= TWO16 then Fold(x / TWO16 + x % TWO16) else x
  }

  function Value(c: Sum): u16 {
    TWO16 - 1 - Fold(c.sum)
  }

  /**
   * The sum of the 16-bit big-endian words of the data, without bound; `parity` says that the first byte is a low one.
   */
  function Words(parity: bool, data: seq<byte>): nat
    decreases |data|
  {
    if data == [] then 0 else (if parity then data[0] else 256 * data[0]) + Words(!parity, data[1..])
  }

  class InternetChecksum {
    var sum: u32
    var parity: bool

    ghost function Model(): Sum
      reads this
    {
      Sum(sum, parity)
    }

    constructor (initialSum: u32)
      ensures Model() == Sum(initialSum, false)
    {
      sum, parity := initialSum, false;
    }

    method AddBytes(data: seq<byte>)
      modifies this
      ensures Model() == old(Add(Model(), data))
    {
      for i := 0 to |data|
        invariant Add(Model(), data[i..]) == old(Add(Model(), data))
      {
        var val: nat := data[i];
        if !parity {
          val := 256 * val;
        }
        assert data[i..][1..] == data[i + 1..];
        sum := (sum + val) % TWO32;
        parity := !parity;
      }
    }

    method FinalValue() returns (v: u16)
      ensures v == Value(Model())
    {
      var ret: nat := sum;
      while ret >= TWO16
        invariant Fold(ret) == Fold(sum)
      {
        ret := ret / TWO16 + ret % TWO16;
      }
      v := TWO16 - 1 - ret;
    }
  }

  // ----- Adding

  /** How the data is cut into chunks does not matter, not even at odd places. */
  lemma {:induction false} AddIsChunkIndependent(c: Sum, a: seq<byte>, b: seq<byte>)
    ensures Add(Add(c, a), b) == Add(c, a + b)
    decreases |a|
  {
    if a == [] {
      assert a + b == b;
    } else {
      assert (a + b)[1..] == a[1..] + b;
      AddIsChunkIndependent(AddByte(c, a[0]), a[1..], b);
    }
  }

  predicate Odd(data: seq<byte>) {
    |data| % 2 == 1
  }

  lemma {:induction false} WordsConcat(parity: bool, a: seq<byte>, b: seq<byte>)
    ensures Words(parity, a + b) == Words(parity, a) + Words(parity != Odd(a), b)
    decreases |a|
  {
    if a == [] {
      assert a + b == b;
    } else {
      assert (a + b)[1..] == a[1..] + b;
      WordsConcat(!parity, a[1..], b);
    }
  }

  lemma {:induction false} WordsBound(parity: bool, data: seq<byte>)
    ensures Words(parity, data) <= 65280 * |data|
    decreases |data|
  {
    if data != [] {
      WordsBound(!parity, data[1..]);
    }
  }

  lemma {:induction false} AddIsWords(c: Sum, data: seq<byte>)
    requires c.sum + Words(c.parity, data) < TWO32
    ensures Add(c, data).sum == c.sum + Words(c.parity, data)
    decreases |data|
  {
    if data != [] {
      AddIsWords(AddByte(c, data[0]), data[1..]);
    }
  }

  // ----- Folding

  /** Folding preserves the number modulo 65535, and reaches 0 only from 0. */
  lemma {:induction false} FoldPreserves(x: nat)
    ensures Fold(x) % 65535 == x % 65535
    ensures Fold(x) == 0 <==> x == 0
  {
    if x >= TWO16 {
      var q, r := x / TWO16, x % TWO16;
      assert x == (q + r) + 65535 * q;
      ModuloShift(q + r, q);
      FoldPreserves(q + r);
    }
  }

  lemma ModuloShift(a: nat, q: nat)
    ensures (a + 65535 * q) % 65535 == a % 65535
  {
  }

  /** Data checks out exactly when its word sum is a positive multiple of 65535. */
  lemma ChecksExactly(init: u32, data: seq<byte>)
    requires init + Words(false, data) < TWO32
    ensures Value(Add(Sum(init, false), data)) == 0
       <==> init + Words(false, data) > 0 && (init + Words(false, data)) % 65535 == 0
  {
    AddIsWords(Sum(init, false), data);
    FoldPreserves(init + Words(false, data));
  }

  // ----- Storing the checksum

  function Word(v: u16): (w: seq<byte>)
    ensures |w| == 2
  {
    [v / 256, v % 256]
  }

  lemma WordsAround(front: seq<byte>, v: u16, back: seq<byte>)
    requires !Odd(front)
    ensures Words(false, front + (Word(v) + back)) == Words(false, front) + v + Words(false, back)
  {
    WordsConcat(false, front, Word(v) + back);
    WordsConcat(false, Word(v), back);
    assert Words(false, Word(v)) == 256 * (v / 256) + Words(true, Word(v)[1..]);
    assert Words(true, Word(v)[1..]) == v % 256 + Words(false, Word(v)[1..][1..]);
  }

  lemma ComplementCancels(sum: nat, folded: u16)
    requires folded % 65535 == sum % 65535
    ensures (sum + (65535 - folded)) % 65535 == 0
  {
  }

  /**
   * Checksum correctness: computed over the data with a zeroed field at an even offset and then stored there, the
   * checksum makes the whole data check out, whatever the content, up to the bound of the 32-bit sum.
   */
  lemma StoredChecksumVerifies(init: u32, front: seq<byte>, back: seq<byte>)
    requires !Odd(front)
    requires init + Words(false, front) + Words(false, back) + TWO16 <= TWO32
    ensures var v := Value(Add(Sum(init, false), front + (Word(0) + back)));
            Value(Add(Sum(init, false), front + (Word(v) + back))) == 0
  {
    var v := Value(Add(Sum(init, false), front + (Word(0) + back)));
    var sum := init + Words(false, front) + Words(false, back);
    WordsAround(front, 0, back);
    ValueIs(init, front + (Word(0) + back));
    WordsAround(front, v, back);
    FoldPreserves(sum);
    ComplementCancels(sum, Fold(sum));
    ChecksExactly(init, front + (Word(v) + back));
  }

  lemma ValueIs(init: u32, data: seq<byte>)
    requires init + Words(false, data) < TWO32
    ensures Value(Add(Sum(init, false), data)) == 65535 - Fold(init + Words(false, data))
  {
    AddIsWords(Sum(init, false), data);
  }
}
