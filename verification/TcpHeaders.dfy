/** The TCP header and segment on the wire (RFC 793 section 3.1). */
module TcpHeaders {
  import opened Common
  import opened Segments
  import opened Parsing

  const TCP_LENGTH := 20

  function Bit(b: bool, weight: byte): byte {
    if b then weight else 0
  }

  function Flags(h: TcpHeader): (b: byte) {
    Bit(h.urg, 32) + Bit(h.ack, 16) + Bit(h.psh, 8) + Bit(h.rst, 4) + Bit(h.syn, 2) + Bit(h.fin, 1)
  }

  /** Bit of the given weight, a power of two. */
  predicate IsSet(b: byte, weight: nat)
    requires weight > 0
  {
    (b / weight) % 2 == 1
  }

  function Zeros(n: nat): seq<byte> {
    seq(n, _ => 0)
  }

  // ----- Serializing, onto whatever follows the header

  function Back(h: TcpHeader, tail: seq<byte>): seq<byte>
    requires h.doff >= 5
  {
    Bytes(2, h.uptr) + (Zeros(4 * h.doff - TCP_LENGTH) + tail)
  }

  /** The 16 bytes before the checksum, followed by `rest`. */
  function Front(h: TcpHeader, rest: seq<byte>): (s: seq<byte>)
    ensures |s| == 16 + |rest|
  {
    Bytes(2, h.sport) + (Bytes(2, h.dport) + (Bytes(4, h.seqno) + (Bytes(4, h.ackno)
      + (Bytes(1, 16 * h.doff % 256) + (Bytes(1, Flags(h)) + (Bytes(2, h.win) + rest))))))
  }

  function SerializeOnto(h: TcpHeader, tail: seq<byte>): seq<byte>
    requires h.doff >= 5
  {
    Front(h, Bytes(2, h.cksum) + Back(h, tail))
  }

  function Serialize(h: TcpHeader): (s: seq<byte>)
    requires h.doff >= 5
    ensures |s| == 4 * h.doff
  {
    SerializeOnto(h, [])
  }

  lemma FrontOnto(h: TcpHeader, rest: seq<byte>, tail: seq<byte>)
    ensures Front(h, rest) + tail == Front(h, rest + tail)
  {
  }

  lemma SerializeConcat(h: TcpHeader, tail: seq<byte>)
    requires h.doff >= 5
    ensures Serialize(h) + tail == SerializeOnto(h, tail)
  {
  }

  /** The fields appended one after the other make up the header. */
  lemma AppendedIsFront(h: TcpHeader)
    ensures [] + Bytes(2, h.sport) + Bytes(2, h.dport) + Bytes(4, h.seqno) + Bytes(4, h.ackno)
            + Bytes(1, 16 * h.doff % 256) + Bytes(1, Flags(h)) + Bytes(2, h.win) == Front(h, [])
  {
  }

  lemma AppendedIsHeader(h: TcpHeader)
    requires h.doff >= 5
    ensures Front(h, []) + Bytes(2, h.cksum) + Bytes(2, h.uptr) + Zeros(4 * h.doff - TCP_LENGTH) == Serialize(h)
  {
  }

  method SerializeFront(h: TcpHeader) returns (ret: seq<byte>)
    ensures ret == Front(h, [])
  {
    ret := UnparseInt([], 2, h.sport);
    ret := UnparseInt(ret, 2, h.dport);
    ret := UnparseInt(ret, 4, h.seqno);
    ret := UnparseInt(ret, 4, h.ackno);
    ret := UnparseInt(ret, 1, 16 * h.doff % 256);
    ret := UnparseInt(ret, 1, Flags(h));
    ret := UnparseInt(ret, 2, h.win);
    AppendedIsFront(h);
  }

  /** Appends the fields, then expands the header to its advertised size. */
  method SerializeHeader(h: TcpHeader) returns (ret: seq<byte>)
    requires h.doff >= 5
    ensures ret == Serialize(h)
  {
    ret := SerializeFront(h);
    ret := UnparseInt(ret, 2, h.cksum);
    ret := UnparseInt(ret, 2, h.uptr);
    ret := ret + Zeros(4 * h.doff - |ret|);
    AppendedIsHeader(h);
  }

  // ----- Parsing

  datatype Ports = Ports(sport: u16, dport: u16, seqno: u32, ackno: u32)

  datatype Controls = Controls(offset: byte, flags: byte, win: u16, cksum: u16, uptr: u16)

  /** The first twelve bytes: ports and sequence numbers. */
  function ReadPorts(p: Parser): (Ports, Parser) {
    var (sport, p1) := p.U16();
    var (dport, p2) := p1.U16();
    var (seqno, p3) := p2.U32();
    var (ackno, p4) := p3.U32();
    (Ports(sport, dport, seqno, ackno), p4)
  }

  /** The next eight: offset, flags, window, checksum, urgent pointer. */
  function ReadControls(p: Parser): (Controls, Parser) {
    var (offset, p1) := p.U8();
    var (flags, p2) := p1.U8();
    var (win, p3) := p2.U16();
    var (cksum, p4) := p3.U16();
    var (uptr, p5) := p4.U16();
    (Controls(offset, flags, win, cksum, uptr), p5)
  }

  function Assemble(a: Ports, c: Controls): TcpHeader {
    TcpHeader(a.sport, a.dport, a.seqno, a.ackno, c.offset / 16,
              IsSet(c.flags, 32), IsSet(c.flags, 16), IsSet(c.flags, 8),
              IsSet(c.flags, 4), IsSet(c.flags, 2), IsSet(c.flags, 1),
              c.win, c.cksum, c.uptr)
  }

  /** Reads the fields in order; the second result is the parser behind the header, the third the verdict. */
  function ParseHeader(p: Parser): (TcpHeader, Parser, ParseResult) {
    var (a, p1) := ReadPorts(p);
    var (c, p2) := ReadControls(p1);
    var h := Assemble(a, c);
    if h.doff < 5 then (h, p2, HeaderTooShort)
    else
      var p3 := p2.RemovePrefix(4 * h.doff - TCP_LENGTH);
      (h, p3, p3.error)
  }

  method ParseHeaderFrom(p: NetParser) returns (h: TcpHeader, result: ParseResult)
    requires p.Valid()
    modifies p
    ensures p.Valid() && (h, p.Model(), result) == old(ParseHeader(p.Model()))
  {
    Capacities();
    var sport := p.ParseInt(2);
    var dport := p.ParseInt(2);
    var seqno := p.ParseInt(4);
    var ackno := p.ParseInt(4);
    var offset := p.ParseInt(1);
    var flags := p.ParseInt(1);
    var win := p.ParseInt(2);
    var cksum := p.ParseInt(2);
    var uptr := p.ParseInt(2);
    h := TcpHeader(sport, dport, seqno, ackno, offset / 16,
                   IsSet(flags, 32), IsSet(flags, 16), IsSet(flags, 8), IsSet(flags, 4), IsSet(flags, 2),
                   IsSet(flags, 1),
                   win, cksum, uptr);
    if h.doff < 5 {
      return h, HeaderTooShort;
    }
    p.RemovePrefix(4 * h.doff - TCP_LENGTH);
    result := p.error;
  }

  lemma ControlsRoundTrip(h: TcpHeader, rest: seq<byte>)
    ensures ReadControls(Parser(Bytes(1, 16 * h.doff % 256) + (Bytes(1, Flags(h)) + (Bytes(2, h.win)
              + (Bytes(2, h.cksum) + (Bytes(2, h.uptr) + rest)))), NoError))
         == (Controls(16 * h.doff % 256, Flags(h), h.win, h.cksum, h.uptr), Parser(rest, NoError))
  {
    var r4 := Bytes(2, h.uptr) + rest;
    var r3 := Bytes(2, h.cksum) + r4;
    var r2 := Bytes(2, h.win) + r3;
    TakeU8(16 * h.doff % 256, Bytes(1, Flags(h)) + r2);
    TakeU8(Flags(h), r2);
    TakeU16(h.win, r3);
    TakeU16(h.cksum, r4);
    TakeU16(h.uptr, rest);
  }

  lemma PortsRoundTrip(h: TcpHeader, rest: seq<byte>)
    ensures var written := Bytes(2, h.sport) + (Bytes(2, h.dport) + (Bytes(4, h.seqno) + (Bytes(4, h.ackno) + rest)));
            ReadPorts(Parser(written, NoError))
            == (Ports(h.sport, h.dport, h.seqno, h.ackno), Parser(rest, NoError))
  {
    var r3 := Bytes(4, h.ackno) + rest;
    var r2 := Bytes(4, h.seqno) + r3;
    TakeU16(h.sport, Bytes(2, h.dport) + r2);
    TakeU16(h.dport, r2);
    TakeU32(h.seqno, r3);
    TakeU32(h.ackno, rest);
  }

  lemma AssembleRoundTrip(h: TcpHeader)
    requires h.doff <= 15
    ensures Assemble(Ports(h.sport, h.dport, h.seqno, h.ackno),
                     Controls(16 * h.doff % 256, Flags(h), h.win, h.cksum, h.uptr)) == h
  {
  }

  lemma SkipOptions(n: nat, tail: seq<byte>)
    ensures Parser(Zeros(n) + tail, NoError).RemovePrefix(n) == Parser(tail, NoError)
  {
  }

  /** A header whose data offset fits its four bits is read back exactly, and exactly the header is consumed. */
  lemma HeaderRoundTrip(h: TcpHeader, tail: seq<byte>)
    requires 5 <= h.doff <= 15
    ensures ParseHeader(Parser(SerializeOnto(h, tail), NoError)) == (h, Parser(tail, NoError), NoError)
  {
    var pad := Zeros(4 * h.doff - TCP_LENGTH) + tail;
    ControlsRoundTrip(h, pad);
    PortsRoundTrip(h, Bytes(1, 16 * h.doff % 256) + (Bytes(1, Flags(h)) + (Bytes(2, h.win)
                      + (Bytes(2, h.cksum) + (Bytes(2, h.uptr) + pad)))));
    AssembleRoundTrip(h);
    SkipOptions(4 * h.doff - TCP_LENGTH, tail);
  }

  lemma PortsConsume(data: seq<byte>)
    ensures var p := ReadPorts(Parser(data, NoError)).1;
            if |data| >= 12 then p == Parser(data[12..], NoError) else p.error != NoError
  {
  }

  lemma ControlsConsume(data: seq<byte>)
    requires |data| >= 8
    ensures ReadControls(Parser(data, NoError)).1 == Parser(data[8..], NoError)
    ensures ReadControls(Parser(data, NoError)).0.offset == data[0]
  {
  }

  /**
   * The header parser rejects exactly the inputs that are too short for a header, or for the length it claims, or claim
   * too short a length.
   */
  lemma HeaderRejects(data: seq<byte>)
    ensures var (h, p, result) := ParseHeader(Parser(data, NoError));
            && (|data| < TCP_LENGTH ==> result != NoError)
            && (|data| >= TCP_LENGTH ==>
                  (result == NoError <==> h.doff >= 5 && 4 * h.doff <= |data|)
                  && h.doff == data[12] / 16
                  && (result == NoError ==> p.rest == data[4 * h.doff..]))
  {
    Capacities();
    PortsConsume(data);
    if |data| >= TCP_LENGTH {
      ControlsConsume(data[12..]);
    }
  }
}
