/** IPv4 headers and datagrams (RFC 791 section 3.1). */
module Ipv4 {
  import opened Common
  import opened Buffers
  import opened Checksum
  import opened Parsing
  import opened TcpHeaders
  import opened TcpSegments

  const IP_LENGTH := 20
  const PROTO_TCP := 6

  datatype Ipv4Header = Ipv4Header(
    ver: byte, hlen: byte, tos: byte, len: u16, id: u16, df: bool, mf: bool, offset: u16,
    ttl: byte, proto: byte, cksum: u16, src: u32, dst: u32)

  const DEFAULT_IP: Ipv4Header := Ipv4Header(4, 5, 0, 0, 0, true, false, 0, 128, PROTO_TCP, 0, 0, 0)

  function PayloadLength(h: Ipv4Header): u16 {
    (h.len - 4 * h.hlen) % TWO16
  }

  /** What the header contributes to the checksum of the segment it carries. */
  function PseudoChecksum(h: Ipv4Header): (c: u32)
    ensures c <= 6 * TWO16
  {
    h.src / TWO16 + h.src % TWO16 + h.dst / TWO16 + h.dst % TWO16 + h.proto + PayloadLength(h)
  }

  function FirstByte(h: Ipv4Header): byte
    requires h.ver == 4
  {
    16 * h.ver + h.hlen % 16
  }

  function FlagsAndOffset(h: Ipv4Header): u16 {
    (if h.df then 0x4000 else 0) + (if h.mf then 0x2000 else 0) + h.offset % 0x2000
  }

  // ----- Serializing

  /** The ten bytes before the checksum, followed by `rest`. */
  function IpFront(h: Ipv4Header, rest: seq<byte>): (s: seq<byte>)
    requires h.ver == 4
    ensures |s| == 10 + |rest|
  {
    Bytes(1, FirstByte(h)) + (Bytes(1, h.tos) + (Bytes(2, h.len) + (Bytes(2, h.id) + (Bytes(2, FlagsAndOffset(h))
      + (Bytes(1, h.ttl) + (Bytes(1, h.proto) + rest))))))
  }

  function IpBack(h: Ipv4Header, tail: seq<byte>): seq<byte>
    requires h.hlen >= 5
  {
    Bytes(4, h.src) + (Bytes(4, h.dst) + (Zeros(4 * h.hlen - IP_LENGTH) + tail))
  }

  predicate Serializable(h: Ipv4Header) {
    h.ver == 4 && h.hlen >= 5
  }

  function SerializeIpOnto(h: Ipv4Header, tail: seq<byte>): (s: seq<byte>)
    requires Serializable(h)
    ensures |s| == 4 * h.hlen + |tail|
  {
    IpFront(h, Bytes(2, h.cksum) + IpBack(h, tail))
  }

  function SerializeIp(h: Ipv4Header): (s: seq<byte>)
    requires Serializable(h)
    ensures |s| == 4 * h.hlen
  {
    SerializeIpOnto(h, [])
  }

  lemma IpFrontOnto(h: Ipv4Header, rest: seq<byte>, tail: seq<byte>)
    requires h.ver == 4
    ensures IpFront(h, rest) + tail == IpFront(h, rest + tail)
  {
  }

  lemma SerializeIpConcat(h: Ipv4Header, tail: seq<byte>)
    requires Serializable(h)
    ensures SerializeIp(h) + tail == SerializeIpOnto(h, tail)
  {
  }

  lemma AppendedIsIpFront(h: Ipv4Header)
    requires h.ver == 4
    ensures [] + Bytes(1, FirstByte(h)) + Bytes(1, h.tos) + Bytes(2, h.len) + Bytes(2, h.id)
            + Bytes(2, FlagsAndOffset(h)) + Bytes(1, h.ttl) + Bytes(1, h.proto) == IpFront(h, [])
  {
  }

  lemma AppendedIsIpHeader(h: Ipv4Header)
    requires Serializable(h)
    ensures IpFront(h, []) + Bytes(2, h.cksum) + Bytes(4, h.src) + Bytes(4, h.dst) + Zeros(4 * h.hlen - IP_LENGTH)
         == SerializeIp(h)
  {
  }

  method SerializeIpFront(h: Ipv4Header) returns (ret: seq<byte>)
    requires h.ver == 4
    ensures ret == IpFront(h, [])
  {
    ret := UnparseInt([], 1, FirstByte(h));
    ret := UnparseInt(ret, 1, h.tos);
    ret := UnparseInt(ret, 2, h.len);
    ret := UnparseInt(ret, 2, h.id);
    ret := UnparseInt(ret, 2, FlagsAndOffset(h));
    ret := UnparseInt(ret, 1, h.ttl);
    ret := UnparseInt(ret, 1, h.proto);
    AppendedIsIpFront(h);
  }

  method SerializeIpHeader(h: Ipv4Header) returns (ret: seq<byte>)
    requires Serializable(h)
    ensures ret == SerializeIp(h)
  {
    ret := SerializeIpFront(h);
    ret := UnparseInt(ret, 2, h.cksum);
    ret := UnparseInt(ret, 4, h.src);
    ret := UnparseInt(ret, 4, h.dst);
    ret := ret + Zeros(4 * h.hlen - |ret|);
    AppendedIsIpHeader(h);
  }

  // ----- Parsing

  datatype Leading = Leading(first: byte, tos: byte, len: u16, id: u16, fo: u16)

  datatype Trailing = Trailing(ttl: byte, proto: byte, cksum: u16, src: u32, dst: u32)

  function ReadLeading(p: Parser): (Leading, Parser) {
    var (first, p1) := p.U8();
    var (tos, p2) := p1.U8();
    var (len, p3) := p2.U16();
    var (id, p4) := p3.U16();
    var (fo, p5) := p4.U16();
    (Leading(first, tos, len, id, fo), p5)
  }

  function ReadTrailing(p: Parser): (Trailing, Parser) {
    var (ttl, p1) := p.U8();
    var (proto, p2) := p1.U8();
    var (cksum, p3) := p2.U16();
    var (src, p4) := p3.U32();
    var (dst, p5) := p4.U32();
    (Trailing(ttl, proto, cksum, src, dst), p5)
  }

  function AssembleIp(a: Leading, b: Trailing): Ipv4Header {
    Ipv4Header(a.first / 16, a.first % 16, a.tos, a.len, a.id, (a.fo / 0x4000) % 2 == 1, (a.fo / 0x2000) % 2 == 1,
               a.fo % 0x2000, b.ttl, b.proto, b.cksum, b.src, b.dst)
  }

  /** The verdict on a header read from data of which `data` is the whole. */
  function JudgeIp(h: Ipv4Header, data: seq<byte>, p: Parser): (Parser, ParseResult) {
    if |data| < 4 * h.hlen then (p, PacketTooShort)
    else if h.ver != 4 then (p, WrongIPVersion)
    else if h.hlen < 5 then (p, HeaderTooShort)
    else if |data| != h.len then (p, TruncatedPacket)
    else
      var q := p.RemovePrefix(4 * h.hlen - IP_LENGTH);
      if q.error != NoError then (q, q.error)
      else if Value(Add(Sum(0, false), data[..4 * h.hlen])) != 0 then (q, BadChecksum)
      else (q, NoError)
  }

  function ParseIp(p: Parser): (Ipv4Header, Parser, ParseResult) {
    if |p.rest| < IP_LENGTH then (DEFAULT_IP, p, PacketTooShort)
    else
      var (a, p1) := ReadLeading(p);
      var (b, p2) := ReadTrailing(p1);
      var h := AssembleIp(a, b);
      var (q, result) := JudgeIp(h, p.rest, p2);
      (h, q, result)
  }

  method ReadIpFields(p: NetParser) returns (h: Ipv4Header)
    requires p.Valid()
    modifies p
    ensures p.Valid()
    ensures var (a, p1) := old(ReadLeading(p.Model())); var (b, p2) := ReadTrailing(p1);
            h == AssembleIp(a, b) && p.Model() == p2
  {
    Capacities();
    var first := p.ParseInt(1);
    var tos := p.ParseInt(1);
    var len := p.ParseInt(2);
    var id := p.ParseInt(2);
    var fo := p.ParseInt(2);
    var ttl := p.ParseInt(1);
    var proto := p.ParseInt(1);
    var cksum := p.ParseInt(2);
    var src := p.ParseInt(4);
    var dst := p.ParseInt(4);
    h := AssembleIp(Leading(first, tos, len, id, fo), Trailing(ttl, proto, cksum, src, dst));
  }

  method ParseIpFrom(p: NetParser) returns (h: Ipv4Header, result: ParseResult)
    requires p.Valid()
    modifies p
    ensures p.Valid() && (h, p.Model(), result) == old(ParseIp(p.Model()))
  {
    var data := p.buffer.Str();
    if |data| < IP_LENGTH {
      return DEFAULT_IP, PacketTooShort;
    }
    h := ReadIpFields(p);
    result := JudgeIpFrom(h, data, p);
  }

  method JudgeIpFrom(h: Ipv4Header, data: seq<byte>, p: NetParser) returns (result: ParseResult)
    requires p.Valid()
    modifies p
    ensures p.Valid() && (p.Model(), result) == old(JudgeIp(h, data, p.Model()))
  {
    if |data| < 4 * h.hlen {
      return PacketTooShort;
    }
    if h.ver != 4 {
      return WrongIPVersion;
    }
    if h.hlen < 5 {
      return HeaderTooShort;
    }
    if |data| != h.len {
      return TruncatedPacket;
    }
    p.RemovePrefix(4 * h.hlen - IP_LENGTH);
    if p.error != NoError {
      return p.error;
    }
    var check := new InternetChecksum(0);
    check.AddBytes(data[..4 * h.hlen]);
    var value := check.FinalValue();
    return if value != 0 then BadChecksum else NoError;
  }

  lemma LeadingRoundTrip(h: Ipv4Header, rest: seq<byte>)
    requires h.ver == 4
    ensures ReadLeading(Parser(Bytes(1, FirstByte(h)) + (Bytes(1, h.tos) + (Bytes(2, h.len) + (Bytes(2, h.id)
              + (Bytes(2, FlagsAndOffset(h)) + rest)))), NoError))
         == (Leading(FirstByte(h), h.tos, h.len, h.id, FlagsAndOffset(h)), Parser(rest, NoError))
  {
    var r4 := Bytes(2, FlagsAndOffset(h)) + rest;
    var r3 := Bytes(2, h.id) + r4;
    var r2 := Bytes(2, h.len) + r3;
    TakeU8(FirstByte(h), Bytes(1, h.tos) + r2);
    TakeU8(h.tos, r2);
    TakeU16(h.len, r3);
    TakeU16(h.id, r4);
    TakeU16(FlagsAndOffset(h), rest);
  }

  lemma TrailingRoundTrip(h: Ipv4Header, rest: seq<byte>)
    ensures ReadTrailing(Parser(Bytes(1, h.ttl) + (Bytes(1, h.proto) + (Bytes(2, h.cksum) + (Bytes(4, h.src)
              + (Bytes(4, h.dst) + rest)))), NoError))
         == (Trailing(h.ttl, h.proto, h.cksum, h.src, h.dst), Parser(rest, NoError))
  {
    var r4 := Bytes(4, h.dst) + rest;
    var r3 := Bytes(4, h.src) + r4;
    var r2 := Bytes(2, h.cksum) + r3;
    TakeU8(h.ttl, Bytes(1, h.proto) + r2);
    TakeU8(h.proto, r2);
    TakeU16(h.cksum, r3);
    TakeU32(h.src, r4);
    TakeU32(h.dst, rest);
  }

  lemma AssembleIpRoundTrip(h: Ipv4Header)
    requires h.ver == 4 && h.hlen <= 15 && h.offset < 0x2000
    ensures AssembleIp(Leading(FirstByte(h), h.tos, h.len, h.id, FlagsAndOffset(h)),
                       Trailing(h.ttl, h.proto, h.cksum, h.src, h.dst)) == h
  {
  }

  // ----- Datagrams

  datatype Datagram = Datagram(header: Ipv4Header, payload: seq<byte>)

  function SealedIp(h: Ipv4Header): Ipv4Header
    requires Serializable(h)
  {
    h.(cksum := Value(Add(Sum(0, false), SerializeIp(h.(cksum := 0)))))
  }

  /** None where the source throws because the payload does not have the length the header claims. */
  function SerializeDatagram(d: Datagram): Option<seq<byte>>
    requires Serializable(d.header)
  {
    if |d.payload| != PayloadLength(d.header) then None
    else Some(SerializeIp(SealedIp(d.header)) + d.payload)
  }

  /** The verdict of the header parser is not looked at. */
  function ParseDatagram(data: seq<byte>): (Datagram, ParseResult) {
    var (h, p, _) := ParseIp(Parser(data, NoError));
    (Datagram(h, p.rest), if |p.rest| != PayloadLength(h) then PacketTooShort else p.error)
  }

  method SerializeDatagramTo(d: Datagram) returns (ret: Option<seq<byte>>)
    requires Serializable(d.header)
    ensures ret == SerializeDatagram(d)
  {
    if |d.payload| != PayloadLength(d.header) {
      return None;
    }
    var zeroed := SerializeIpHeader(d.header.(cksum := 0));
    var check := new InternetChecksum(0);
    check.AddBytes(zeroed);
    var value := check.FinalValue();
    var header := SerializeIpHeader(d.header.(cksum := value));
    return Some(header + d.payload);
  }

  method ParseDatagramFrom(buffer: Buffer) returns (d: Datagram, result: ParseResult)
    requires buffer.Valid()
    ensures (d, result) == ParseDatagram(buffer.Str())
  {
    var p := new NetParser(buffer);
    var h, _ := ParseIpFrom(p);
    d := Datagram(h, p.buffer.Str());
    result := if |d.payload| != PayloadLength(h) then PacketTooShort else p.error;
  }

  lemma SplitAtIpChecksum(h: Ipv4Header, tail: seq<byte>)
    requires Serializable(h)
    ensures SerializeIpOnto(h, tail) == IpFront(h, []) + (Word(h.cksum) + IpBack(h, tail))
    ensures |IpFront(h, [])| == 10 && |IpBack(h, tail)| == 4 * h.hlen - 12 + |tail|
  {
    WordIsBytes(h.cksum);
    var rest := Bytes(2, h.cksum) + IpBack(h, tail);
    IpFrontOnto(h, [], rest);
    assert [] + rest == rest;
  }

  lemma SealedIpChecks(h: Ipv4Header)
    requires Serializable(h)
    ensures Value(Add(Sum(0, false), SerializeIp(SealedIp(h)))) == 0
  {
    var front, back := IpFront(h, []), IpBack(h, []);
    SplitAtIpChecksum(h.(cksum := 0), []);
    SplitAtIpChecksum(SealedIp(h), []);
    WordsBound(false, front);
    WordsBound(false, back);
    StoredChecksumVerifies(0, front, back);
  }

  /** A header that describes its datagram: four-bit length, thirteen-bit offset, and the true total length. */
  predicate Describes(h: Ipv4Header, payload: seq<byte>) {
    h.ver == 4 && 5 <= h.hlen <= 15 && h.offset < 0x2000 && h.len == 4 * h.hlen + |payload|
  }

  /** Reading the fields of a serialized header gives the header back, up to its options. */
  lemma FieldsRoundTrip(h: Ipv4Header, tail: seq<byte>)
    requires Serializable(h) && h.hlen <= 15 && h.offset < 0x2000
    ensures var (a, p1) := ReadLeading(Parser(SerializeIpOnto(h, tail), NoError));
            var (b, p2) := ReadTrailing(p1);
            AssembleIp(a, b) == h && p2 == Parser(Zeros(4 * h.hlen - IP_LENGTH) + tail, NoError)
  {
    var pad := Zeros(4 * h.hlen - IP_LENGTH) + tail;
    TrailingRoundTrip(h, pad);
    LeadingRoundTrip(h, Bytes(1, h.ttl) + (Bytes(1, h.proto) + (Bytes(2, h.cksum) + (Bytes(4, h.src)
                        + (Bytes(4, h.dst) + pad)))));
    AssembleIpRoundTrip(h);
  }

  lemma JudgeAccepts(h: Ipv4Header, header: seq<byte>, payload: seq<byte>)
    requires Describes(h, payload) && |header| == 4 * h.hlen
    requires Value(Add(Sum(0, false), header)) == 0
    ensures JudgeIp(h, header + payload, Parser(Zeros(4 * h.hlen - IP_LENGTH) + payload, NoError))
         == (Parser(payload, NoError), NoError)
  {
  }

  lemma ParseIpRoundTrip(h: Ipv4Header, payload: seq<byte>)
    requires Describes(h, payload)
    ensures ParseIp(Parser(SerializeIp(SealedIp(h)) + payload, NoError))
            == (SealedIp(h), Parser(payload, NoError), NoError)
  {
    SerializeIpConcat(SealedIp(h), payload);
    FieldsRoundTrip(SealedIp(h), payload);
    SealedIpChecks(h);
    JudgeAccepts(SealedIp(h), SerializeIp(SealedIp(h)), payload);
  }

  lemma LengthIsDescribed(h: Ipv4Header, payload: seq<byte>)
    requires Describes(h, payload)
    ensures PayloadLength(h) == |payload| && PayloadLength(SealedIp(h)) == |payload|
    ensures SerializeDatagram(Datagram(h, payload)) == Some(SerializeIp(SealedIp(h)) + payload)
  {
  }

  /** Round trip: a serialized datagram parses, header checksum included, to itself with the checksum filled in. */
  lemma DatagramRoundTrip(d: Datagram)
    requires Describes(d.header, d.payload)
    ensures SerializeDatagram(d).Some?
    ensures ParseDatagram(SerializeDatagram(d).value) == (d.(header := SealedIp(d.header)), NoError)
    ensures ParseIp(Parser(SerializeDatagram(d).value, NoError)).2 == NoError
  {
    ParseIpRoundTrip(d.header, d.payload);
    LengthIsDescribed(d.header, d.payload);
    ParseFollowsHeader(SerializeIp(SealedIp(d.header)) + d.payload, SealedIp(d.header), d.payload);
  }

  lemma ParseFollowsHeader(data: seq<byte>, h: Ipv4Header, payload: seq<byte>)
    requires ParseIp(Parser(data, NoError)) == (h, Parser(payload, NoError), NoError)
    requires PayloadLength(h) == |payload|
    ensures ParseDatagram(data) == (Datagram(h, payload), NoError)
  {
  }
}
