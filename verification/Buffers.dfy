/** Chunked buffers and the byte stream built on them. */
module Buffers {
  import opened Common
  import opened Streams

  /** A string whose front bytes can be discarded; the storage is released once nothing is left of it. */
  datatype Buffer = Buffer(storage: Option<seq<byte>>, startingOffset: nat) {

    ghost predicate Valid() {
      storage.Some? ==> startingOffset <= |storage.value|
    }

    function Str(): seq<byte>
      requires Valid()
    {
      if storage.Some? then storage.value[startingOffset..] else []
    }

    function RemovePrefix(n: nat): (b: Buffer)
      requires Valid() && n <= |Str()|
      ensures b.Valid() && b.Str() == Str()[n..]
      ensures b.storage.Some? ==> b.Str() != [] && b.storage == storage
    {
      var offset := startingOffset + n;
      Buffer(if storage.Some? && offset == |storage.value| then None else storage, offset)
    }
  }

  function FromString(data: seq<byte>): (b: Buffer)
    ensures b.Valid() && b.Str() == data
  {
    Buffer(Some(data), 0)
  }

  ghost predicate AllValid(buffers: seq<Buffer>) {
    forall b | b in buffers :: b.Valid()
  }

  ghost function Flatten(buffers: seq<Buffer>): seq<byte>
    requires AllValid(buffers)
  {
    if buffers == [] then [] else buffers[0].Str() + Flatten(buffers[1..])
  }

  lemma {:induction false} FlattenAppend(a: seq<Buffer>, b: seq<Buffer>)
    requires AllValid(a) && AllValid(b)
    ensures Flatten(a + b) == Flatten(a) + Flatten(b)
  {
    if a == [] {
      assert a + b == b;
    } else {
      assert (a + b)[1..] == a[1..] + b;
      FlattenAppend(a[1..], b);
    }
  }

  lemma FlattenSnoc(a: seq<Buffer>, b: Buffer)
    requires AllValid(a) && b.Valid()
    ensures Flatten(a + [b]) == Flatten(a) + b.Str()
  {
    FlattenAppend(a, [b]);
    assert Flatten([b]) == b.Str() + Flatten([]);
  }

  lemma FlattenCut(a: seq<Buffer>, n: nat)
    requires AllValid(a) && a != [] && n <= |a[0].Str()|
    ensures AllValid([a[0].RemovePrefix(n)] + a[1..])
    ensures Flatten(a) == a[0].Str()[..n] + Flatten([a[0].RemovePrefix(n)] + a[1..])
  {
    FlattenCons(a[0].RemovePrefix(n), a[1..]);
    CutString(a[0].Str(), n, Flatten(a[1..]));
  }

  lemma FlattenCons(b: Buffer, rest: seq<Buffer>)
    requires b.Valid() && AllValid(rest)
    ensures Flatten([b] + rest) == b.Str() + Flatten(rest)
  {
    assert ([b] + rest)[1..] == rest;
  }

  lemma CutString(front: seq<byte>, n: nat, back: seq<byte>)
    requires n <= |front|
    ensures front + back == front[..n] + (front[n..] + back)
  {
  }

  lemma DropTwice(all: seq<byte>, at: nat, n: nat)
    requires at <= |all|
    ensures n <= |all[at..]| ==> all[at..][n..] == all[at + n..]
  {
  }

  lemma DropFront(all: seq<byte>, at: nat, front: seq<byte>, rest: seq<byte>)
    requires at <= |all| && all[at..] == front + rest
    ensures at + |front| <= |all| && all[at + |front|..] == rest
  {
    assert all[at + |front|..] == all[at..][|front|..];
  }

  class BufferList {
    var buffers: seq<Buffer>

    ghost predicate Valid()
      reads this
    {
      AllValid(buffers)
    }

    ghost function Contents(): seq<byte>
      reads this
      requires Valid()
    {
      Flatten(buffers)
    }

    constructor ()
      ensures Valid() && Contents() == []
    {
      buffers := [];
    }

    method Append(other: seq<Buffer>)
      requires Valid() && AllValid(other)
      modifies this
      ensures Valid() && Contents() == old(Contents()) + Flatten(other)
    {
      ghost var before := buffers;
      for i := 0 to |other|
        invariant buffers == before + other[..i]
      {
        buffers := buffers + [other[i]];
      }
      assert other[..|other|] == other;
      FlattenAppend(before, other);
    }

    method Concatenate() returns (r: seq<byte>)
      requires Valid()
      ensures r == Contents()
    {
      r := [];
      for i := 0 to |buffers|
        invariant r == Flatten(buffers[..i])
      {
        FlattenSnoc(buffers[..i], buffers[i]);
        assert buffers[..i + 1] == buffers[..i] + [buffers[i]];
        r := r + buffers[i].Str();
      }
      assert buffers[..|buffers|] == buffers;
    }

    method Size() returns (n: nat)
      requires Valid()
      ensures n == |Contents()|
    {
      n := 0;
      for i := 0 to |buffers|
        invariant n == |Flatten(buffers[..i])|
      {
        FlattenSnoc(buffers[..i], buffers[i]);
        assert buffers[..i + 1] == buffers[..i] + [buffers[i]];
        n := n + |buffers[i].Str()|;
      }
      assert buffers[..|buffers|] == buffers;
    }

    /** Drops n bytes of the first chunk, which has more. */
    method CutFront(n: nat)
      requires Valid() && buffers != [] && n < |buffers[0].Str()|
      modifies this
      ensures Valid() && |buffers| == |old(buffers)|
      ensures n <= |old(Contents())| && Contents() == old(Contents())[n..]
    {
      FlattenCut(buffers, n);
      DropFront(Contents(), 0, buffers[0].Str()[..n], Flatten([buffers[0].RemovePrefix(n)] + buffers[1..]));
      buffers := [buffers[0].RemovePrefix(n)] + buffers[1..];
    }

    /** Drops the first chunk. */
    method PopFront()
      requires Valid() && buffers != []
      modifies this
      ensures Valid() && buffers == old(buffers)[1..]
      ensures var n := |old(buffers[0].Str())|; n <= |old(Contents())| && Contents() == old(Contents())[n..]
    {
      DropFront(Contents(), 0, buffers[0].Str(), Flatten(buffers[1..]));
      buffers := buffers[1..];
    }

    /** Drops the first chunk, or as much of it as is asked for; what remains to be dropped is `rest`. */
    method DropSome(n: nat) returns (rest: nat)
      requires Valid() && buffers != []
      modifies this
      ensures Valid() && rest <= n && (rest == 0 || |buffers| < |old(buffers)|) && |buffers| <= |old(buffers)|
      ensures n - rest <= |old(Contents())| && Contents() == old(Contents())[n - rest..]
    {
      var front := buffers[0].Str();
      if n < |front| {
        CutFront(n);
        rest := 0;
      } else {
        PopFront();
        rest := n - |front|;
      }
    }

    /**
     * Drops the first n bytes, through exhausted, empty and partly consumed chunks; `ok` is false where the source
     * throws.
     */
    method RemovePrefix(n: nat) returns (ok: bool)
      requires Valid()
      modifies this
      ensures Valid()
      ensures ok == (n <= |old(Contents())|)
      ensures Contents() == if ok then old(Contents())[n..] else []
    {
      var left := n;
      ghost var all := Contents();
      while left > 0
        invariant Valid() && 0 <= left <= n
        invariant n - left <= |all| && Contents() == all[n - left..]
        decreases |buffers|, left
      {
        if buffers == [] {
          return false;
        }
        var rest := DropSome(left);
        DropTwice(all, n - left, left - rest);
        left := rest;
      }
      return true;
    }
  }

  /** The bounded in-memory stream; the ghost field records every byte it ever accepted. */
  class ByteStream {
    const capacity: nat
    var written: nat
    var readden: nat
    var inputEnd: bool
    var errorFlag: bool
    const buffer: BufferList
    ghost var accepted: seq<byte>

    ghost predicate Valid()
      reads this, buffer
    {
      && buffer.Valid()
      && written == |accepted|
      && readden <= written <= readden + capacity
      && buffer.Contents() == accepted[readden..]
    }

    ghost function Model(): (s: Stream)
      reads this
    {
      Stream(capacity, accepted, readden, inputEnd, errorFlag)
    }

    constructor (capacity: nat)
      ensures Valid() && fresh(buffer)
      ensures Model() == NewStream(capacity)
    {
      this.capacity := capacity;
      written, readden, inputEnd, errorFlag := 0, 0, false, false;
      buffer := new BufferList();
      accepted := [];
    }

    method Write(data: seq<byte>) returns (len: nat)
      requires Valid()
      modifies this, buffer
      ensures Valid() && Model() == old(Model().Write(data))
      ensures len == Min(|data|, old(Model().Remaining()))
    {
      var size := buffer.Size();
      len := if |data| < capacity - size then |data| else capacity - size;
      written := written + len;
      accepted := accepted + data[..len];
      FlattenSnoc([], FromString(data[..len]));
      assert [] + [FromString(data[..len])] == [FromString(data[..len])];
      buffer.Append([FromString(data[..len])]);
    }

    method PeekOutput(len: nat) returns (r: seq<byte>)
      requires Valid()
      ensures r == Model().Peek(len)
    {
      var size := buffer.Size();
      var s := buffer.Concatenate();
      r := s[..Min(len, size)];
    }

    method PopOutput(len: nat)
      requires Valid()
      modifies this, buffer
      ensures Valid() && Model() == old(Model().Pop(len))
    {
      var size := buffer.Size();
      var length := Min(len, size);
      readden := readden + length;
      var ok := buffer.RemovePrefix(length);
    }

    method Read(len: nat) returns (r: seq<byte>)
      requires Valid()
      modifies this, buffer
      ensures Valid() && r == old(Model().Peek(len)) && Model() == old(Model().Pop(len))
    {
      var size := buffer.Size();
      var length := Min(len, size);
      r := PeekOutput(length);
      PopOutput(length);
    }

    method EndInput()
      requires Valid()
      modifies this
      ensures Valid() && Model() == old(Model().EndInput())
    {
      inputEnd := true;
    }

    method SetError()
      requires Valid()
      modifies this
      ensures Valid() && Model() == old(Model().SetError())
    {
      errorFlag := true;
    }

    method Eof() returns (r: bool)
      requires Valid()
      ensures r == Model().Eof()
    {
      var size := buffer.Size();
      r := size == 0 && inputEnd;
    }
  }
}
