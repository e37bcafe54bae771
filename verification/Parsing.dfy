/** Reading and writing integers in network byte order. */
module Parsing {
  import opened Common
  import opened Buffers

  datatype ParseResult =
    NoError | BadChecksum | PacketTooShort | WrongIPVersion | HeaderTooShort | TruncatedPacket | Unsupported

  /** The most significant byte comes first. */
  function BigEndian(bytes: seq<byte>): nat {
    if bytes == [] then 0 else 256 * BigEndian(bytes[..|bytes| - 1]) + bytes[|bytes| - 1]
  }

  function Bytes(len: nat, val: nat): (s: seq<byte>)
    ensures |s| == len
  {
    if len == 0 then [] else Bytes(len - 1, val / 256) + [val % 256]
  }

  /** 256 to the power of len. */
  function Capacity(len: nat): (c: nat)
    ensures c >= 1
  {
    if len == 0 then 1 else 256 * Capacity(len - 1)
  }

  lemma {:induction false} ReadBack(len: nat, val: nat)
    requires val < Capacity(len)
    ensures BigEndian(Bytes(len, val)) == val
  {
    if len > 0 {
      ReadBack(len - 1, val / 256);
      assert Bytes(len, val)[..len - 1] == Bytes(len - 1, val / 256);
    }
  }

  lemma {:induction false} BigEndianFits(bytes: seq<byte>)
    ensures BigEndian(bytes) < Capacity(|bytes|)
  {
    if bytes != [] {
      BigEndianFits(bytes[..|bytes| - 1]);
    }
  }

  lemma Capacities()
    ensures Capacity(1) == 256 && Capacity(2) == TWO16 && Capacity(4) == TWO32
  {
  }

  /** Byte i of the representation is found by shifting the value right. */
  lemma {:induction false} ByteAt(len: nat, val: nat, i: nat)
    requires i < len
    ensures Bytes(len, val)[i] == (val / Capacity(len - i - 1)) % 256
  {
    if i < len - 1 {
      ByteAt(len - 1, val / 256, i);
      DivideTwice(val, Capacity(len - i - 2));
    }
  }

  lemma DivideTwice(a: nat, c: nat)
    requires c >= 1
    ensures a / 256 / c == a / (256 * c)
  {
    var q, r := a / 256 / c, (a / 256) % c;
    assert a / 256 == q * c + r;
    assert a == q * (256 * c) + (256 * r + a % 256);
    assert 256 * r + a % 256 < 256 * c;
    QuotientIs(a, 256 * c, q, 256 * r + a % 256);
  }

  lemma QuotientIs(a: nat, d: nat, q: nat, r: nat)
    requires d >= 1 && a == q * d + r && r < d
    ensures a / d == q
  {
    var q', r' := a / d, a % d;
    assert a == q' * d + r';
    assert q' < q ==> (q' + 1) * d <= q * d;
    assert q' > q ==> (q + 1) * d <= q' * d;
  }

  // ----- The parser

  datatype Parser = Parser(rest: seq<byte>, error: ParseResult) {

    function CheckSize(size: nat): Parser {
      if size > |rest| then this.(error := PacketTooShort) else this
    }

    /** The value read, 0 after an error, and the parser left behind. */
    function TakeInt(len: nat): (r: (nat, Parser))
      ensures r.0 < Capacity(len)
    {
      var p := CheckSize(len);
      if p.error != NoError then (0, p)
      else
        BigEndianFits(rest[..len]);
        (BigEndian(rest[..len]), Parser(rest[len..], NoError))
    }

    function U8(): (r: (byte, Parser)) {
      Capacities();
      TakeInt(1)
    }

    function U16(): (r: (u16, Parser)) {
      Capacities();
      TakeInt(2)
    }

    function U32(): (r: (u32, Parser)) {
      Capacities();
      TakeInt(4)
    }

    function RemovePrefix(n: nat): Parser {
      var p := CheckSize(n);
      if p.error != NoError then p else Parser(rest[n..], NoError)
    }
  }

  /** Reading what was written gives the value back and leaves what follows. */
  lemma TakeWritten(len: nat, val: nat, rest: seq<byte>)
    requires val < Capacity(len)
    ensures Parser(Bytes(len, val) + rest, NoError).TakeInt(len) == (val, Parser(rest, NoError))
  {
  }

  lemma TakeU8(val: byte, rest: seq<byte>)
    ensures Parser(Bytes(1, val) + rest, NoError).U8() == (val, Parser(rest, NoError))
  {
  }

  lemma TakeU16(val: u16, rest: seq<byte>)
    ensures Parser(Bytes(2, val) + rest, NoError).U16() == (val, Parser(rest, NoError))
  {
    Capacities();
    TakeWritten(2, val, rest);
  }

  lemma TakeU32(val: u32, rest: seq<byte>)
    ensures Parser(Bytes(4, val) + rest, NoError).U32() == (val, Parser(rest, NoError))
  {
    Capacities();
    TakeWritten(4, val, rest);
  }

  class NetParser {
    var buffer: Buffer
    var error: ParseResult

    ghost predicate Valid()
      reads this
    {
      buffer.Valid()
    }

    ghost function Model(): Parser
      reads this
      requires Valid()
    {
      Parser(buffer.Str(), error)
    }

    constructor (buffer: Buffer)
      requires buffer.Valid()
      ensures Valid() && Model() == Parser(buffer.Str(), NoError)
    {
      this.buffer := buffer;
      error := NoError;
    }

    method CheckSize(size: nat)
      requires Valid()
      modifies this`error
      ensures Valid() && Model() == old(Model().CheckSize(size))
    {
      if size > |buffer.Str()| {
        error := PacketTooShort;
      }
    }

    method ParseInt(len: nat) returns (ret: nat)
      requires Valid()
      modifies this
      ensures Valid() && (ret, Model()) == old(Model().TakeInt(len))
    {
      CheckSize(len);
      if error != NoError {
        return 0;
      }
      ret := 0;
      for i := 0 to len
        invariant ret == BigEndian(buffer.Str()[..i])
      {
        assert buffer.Str()[..i + 1][..i] == buffer.Str()[..i];
        ret := 256 * ret + buffer.Str()[i];
      }
      buffer := buffer.RemovePrefix(len);
    }

    method RemovePrefix(n: nat)
      requires Valid()
      modifies this
      ensures Valid() && Model() == old(Model().RemovePrefix(n))
    {
      CheckSize(n);
      if error != NoError {
        return;
      }
      buffer := buffer.RemovePrefix(n);
    }
  }

  /** Appends the bytes of an integer, most significant first. */
  method UnparseInt(s: seq<byte>, len: nat, val: nat) returns (r: seq<byte>)
    ensures r == s + Bytes(len, val)
  {
    r := s;
    for i := 0 to len
      invariant r == s + Bytes(len, val)[..i]
    {
      ByteAt(len, val, i);
      r := r + [(val / Capacity(len - i - 1)) % 256];
    }
  }
}
