/** Where every field lies on the wire (RFC 793 section 3.1, RFC 791 section 3.1), and which headers are accepted. */
module WireFormat {
  import opened Common
  import opened Segments
  import opened Checksum
  import opened Parsing
  import opened TcpHeaders
  import opened TcpSegments
  import opened Ipv4

  /** Bit number k, counted from the least significant one. */
  predicate BitOf(b: nat, k: nat) {
    if k == 0 then b % 2 == 1 else BitOf(b / 2, k - 1)
  }

  lemma BitTwice(b: nat, k: nat)
    ensures BitOf(b, k + 1) == BitOf(b / 2, k)
  {
  }

  lemma Bits(b: byte)
    ensures BitOf(b, 0) == IsSet(b, 1) && BitOf(b, 1) == IsSet(b, 2) && BitOf(b, 2) == IsSet(b, 4)
  {
    assert b / 2 / 2 == b / 4;
  }

  lemma HighBits(b: byte)
    ensures BitOf(b, 3) == IsSet(b, 8) && BitOf(b, 4) == IsSet(b, 16) && BitOf(b, 5) == IsSet(b, 32)
    ensures BitOf(b, 6) == IsSet(b, 64)
  {
    Bits(b / 8);
    BitOf8(b, 0);
    BitOf8(b, 1);
    BitOf8(b, 2);
    BitOf8(b, 3);
    assert b / 8 / 2 == b / 16 && b / 8 / 4 == b / 32 && b / 8 / 8 == b / 64;
    BitOf8(b / 8, 0);
  }

  lemma BitOf8(b: nat, k: nat)
    ensures BitOf(b, k + 3) == BitOf(b / 8, k)
  {
    BitTwice(b, k + 2);
    BitTwice(b / 2, k + 1);
    BitTwice(b / 2 / 2, k);
    assert b / 2 / 2 / 2 == b / 8;
  }

  /** Two bytes as one number. */
  function Pair(high: nat, low: nat): nat {
    256 * high + low
  }

  /** The 16-bit and 32-bit numbers at an offset. */
  function At16(data: seq<byte>, at: nat): (v: u16)
    requires at + 2 <= |data|
    ensures v == BigEndian(data[at..at + 2])
  {
    Capacities();
    BigEndianFits(data[at..at + 2]);
    BigEndian(data[at..at + 2])
  }

  function At32(data: seq<byte>, at: nat): (v: u32)
    requires at + 4 <= |data|
    ensures v == BigEndian(data[at..at + 4])
  {
    Capacities();
    BigEndianFits(data[at..at + 4]);
    BigEndian(data[at..at + 4])
  }

  /** Reading a number consumes its bytes. */
  lemma TakeAt(data: seq<byte>, from: nat, len: nat)
    requires from + len <= |data|
    ensures Parser(data[from..], NoError).TakeInt(len)
            == (BigEndian(data[from..from + len]), Parser(data[from + len..], NoError))
  {
    assert data[from..][..len] == data[from..from + len];
    assert data[from..][len..] == data[from + len..];
  }

  lemma OneByte(data: seq<byte>, at: nat)
    requires at < |data|
    ensures BigEndian(data[at..at + 1]) == data[at]
  {
    assert data[at..at + 1][..0] == [];
  }

  lemma PortsLayout(data: seq<byte>)
    requires |data| >= TCP_LENGTH
    ensures ReadPorts(Parser(data, NoError))
            == (Ports(At16(data, 0), At16(data, 2), At32(data, 4), At32(data, 8)),
                Parser(data[12..], NoError))
  {
    Capacities();
    assert data[0..] == data;
    TakeAt(data, 0, 2);
    TakeAt(data, 2, 2);
    TakeAt(data, 4, 4);
    TakeAt(data, 8, 4);
  }

  lemma ControlsLayout(data: seq<byte>)
    requires |data| >= TCP_LENGTH
    ensures ReadControls(Parser(data[12..], NoError))
            == (Controls(data[12], data[13], At16(data, 14), At16(data, 16), At16(data, 18)),
                Parser(data[20..], NoError))
  {
    Capacities();
    TakeAt(data, 12, 1);
    OneByte(data, 12);
    TakeAt(data, 13, 1);
    OneByte(data, 13);
    TakeAt(data, 14, 2);
    TakeAt(data, 16, 2);
    TakeAt(data, 18, 2);
  }

  /** Every field of a TCP header is read at its offset, whatever the data. */
  lemma TcpLayout(data: seq<byte>)
    requires |data| >= TCP_LENGTH
    ensures var h := ParseHeader(Parser(data, NoError)).0;
            && h.sport == At16(data, 0) && h.dport == At16(data, 2)
            && h.seqno == At32(data, 4) && h.ackno == At32(data, 8)
            && h.doff == data[12] / 16
            && h.urg == BitOf(data[13], 5) && h.ack == BitOf(data[13], 4) && h.psh == BitOf(data[13], 3)
            && h.rst == BitOf(data[13], 2) && h.syn == BitOf(data[13], 1) && h.fin == BitOf(data[13], 0)
            && h.win == At16(data, 14) && h.cksum == At16(data, 16)
            && h.uptr == At16(data, 18)
  {
    PortsLayout(data);
    ControlsLayout(data);
    Bits(data[13]);
    HighBits(data[13]);
  }

  // ----- The pseudo-header

  /** Source and destination address, a zero byte, the protocol, and the length of the segment. */
  function PseudoHeader(h: Ipv4Header): seq<byte> {
    Bytes(4, h.src) + (Bytes(4, h.dst) + ([0, h.proto] + Bytes(2, PayloadLength(h))))
  }

  lemma WordsOfFour(v: u32)
    ensures Words(false, Bytes(4, v)) == v / TWO16 + v % TWO16
  {
    var b := Bytes(4, v);
    assert b == Bytes(2, v / TWO16) + Bytes(2, v % TWO16) by {
      SplitFour(v);
    }
    WordIsBytes(v / TWO16);
    WordIsBytes(v % TWO16);
    WordsConcat(false, Word(v / TWO16), Word(v % TWO16));
    WordsOfWord(v / TWO16);
    WordsOfWord(v % TWO16);
  }

  lemma SplitFour(v: u32)
    ensures Bytes(4, v) == Bytes(2, v / TWO16) + Bytes(2, v % TWO16)
  {
    assert v / 256 / 256 == v / TWO16;
    assert (v % TWO16) / 256 % 256 == v / 256 % 256 && (v % TWO16) % 256 == v % 256;
    assert Bytes(4, v) == Bytes(3, v / 256) + [v % 256];
    assert Bytes(3, v / 256) == Bytes(2, v / TWO16) + [v / 256 % 256];
    assert Bytes(2, v % TWO16) == Bytes(1, (v % TWO16) / 256) + [v % TWO16 % 256];
  }

  lemma WordsOfWord(v: u16)
    ensures Words(false, Word(v)) == v
  {
    WordsAround([], v, []);
    assert [] + (Word(v) + []) == Word(v);
  }

  /** What an IP header contributes to the checksum of its segment is the word sum of the pseudo-header. */
  lemma PseudoChecksumIsPseudoHeader(h: Ipv4Header)
    ensures PseudoChecksum(h) == Words(false, PseudoHeader(h))
  {
    var len := Bytes(2, PayloadLength(h));
    WordIsBytes(PayloadLength(h));
    WordsOfWord(PayloadLength(h));
    WordsOfFour(h.src);
    WordsOfFour(h.dst);
    assert Word(h.proto) == [0, h.proto];
    WordsOfWord(h.proto);
    WordsConcat(false, [0, h.proto], len);
    WordsConcat(false, Bytes(4, h.dst), [0, h.proto] + len);
    WordsConcat(false, Bytes(4, h.src), Bytes(4, h.dst) + ([0, h.proto] + len));
  }

  // ----- The IP header

  lemma LeadingLayout(data: seq<byte>)
    requires |data| >= IP_LENGTH
    ensures ReadLeading(Parser(data, NoError))
            == (Leading(data[0], data[1], At16(data, 2), At16(data, 4), At16(data, 6)),
                Parser(data[8..], NoError))
  {
    Capacities();
    assert data[0..] == data;
    TakeAt(data, 0, 1);
    OneByte(data, 0);
    TakeAt(data, 1, 1);
    OneByte(data, 1);
    TakeAt(data, 2, 2);
    TakeAt(data, 4, 2);
    TakeAt(data, 6, 2);
  }

  lemma TrailingLayout(data: seq<byte>)
    requires |data| >= IP_LENGTH
    ensures ReadTrailing(Parser(data[8..], NoError))
            == (Trailing(data[8], data[9], At16(data, 10), At32(data, 12), At32(data, 16)),
                Parser(data[20..], NoError))
  {
    Capacities();
    TakeAt(data, 8, 1);
    OneByte(data, 8);
    TakeAt(data, 9, 1);
    OneByte(data, 9);
    TakeAt(data, 10, 2);
    TakeAt(data, 12, 4);
    TakeAt(data, 16, 4);
  }

  /** Every field of an IP header is read at its offset; flags and fragment offset share two bytes. */
  lemma IpLayout(data: seq<byte>)
    requires |data| >= IP_LENGTH
    ensures var h := ParseIp(Parser(data, NoError)).0;
            && h.ver == data[0] / 16 && h.hlen == data[0] % 16 && h.tos == data[1]
            && h.len == At16(data, 2) && h.id == At16(data, 4)
            && h.df == BitOf(data[6], 6) && h.mf == BitOf(data[6], 5)
            && h.offset == Pair(data[6] % 32, data[7])
            && h.ttl == data[8] && h.proto == data[9] && h.cksum == At16(data, 10)
            && h.src == At32(data, 12) && h.dst == At32(data, 16)
  {
    LeadingLayout(data);
    TrailingLayout(data);
    FlagBits(data);
  }

  lemma FlagBits(data: seq<byte>)
    requires |data| >= 8
    ensures var fo := At16(data, 6);
            && ((fo / 0x4000) % 2 == 1) == BitOf(data[6], 6) && ((fo / 0x2000) % 2 == 1) == BitOf(data[6], 5)
            && fo % 0x2000 == Pair(data[6] % 32, data[7])
  {
    HighBits(data[6]);
    TwoBytes(data, 6);
    var fo := At16(data, 6);
    assert fo / 0x4000 == data[6] / 64 && fo / 0x2000 == data[6] / 32;
  }

  lemma TwoBytes(data: seq<byte>, at: nat)
    requires at + 2 <= |data|
    ensures At16(data, at) == Pair(data[at], data[at + 1])
  {
    assert data[at..at + 2][..1] == data[at..at + 1];
    OneByte(data, at);
  }

  /** The word sum checks out: a positive multiple of 65535. */
  predicate Sums(n: nat) {
    n > 0 && n % 65535 == 0
  }

  /**
   * The IP header parser accepts exactly the data of which the header says its true length, that begins with a version
   * 4 header of at least 20 bytes, as long as the header claims, whose words check out.
   */
  lemma IpAcceptsExactly(data: seq<byte>)
    ensures var n := if data == [] then 0 else 4 * (data[0] % 16);
            ParseIp(Parser(data, NoError)).2 == NoError <==>
              && |data| >= IP_LENGTH && data[0] / 16 == 4 && IP_LENGTH <= n <= |data|
              && At16(data, 2) == |data| && Sums(Words(false, data[..n]))
  {
    if |data| >= IP_LENGTH {
      IpLayout(data);
      LeadingLayout(data);
      TrailingLayout(data);
      var n := 4 * (data[0] % 16);
      if n <= |data| {
        WordsBound(false, data[..n]);
        ChecksExactly(0, data[..n]);
      }
    }
  }

  /**
   * A datagram is accepted whatever its header checksum: only the header parser looks at it, and its verdict is not
   * heeded.
   */
  lemma HeaderChecksumIsNotHeeded(h: Ipv4Header, payload: seq<byte>)
    requires Describes(h, payload)
    ensures ParseDatagram(SerializeIp(h) + payload) == (Datagram(h, payload), NoError)
    ensures ParseIp(Parser(SerializeIp(h) + payload, NoError)).2 == NoError <==> Sums(Words(false, SerializeIp(h)))
  {
    ReadsAnyChecksum(h, payload);
    LengthIsDescribed(h, payload);
    WordsBound(false, SerializeIp(h));
    ChecksExactly(0, SerializeIp(h));
  }

  lemma ReadsAnyChecksum(h: Ipv4Header, payload: seq<byte>)
    requires Describes(h, payload)
    ensures ParseIp(Parser(SerializeIp(h) + payload, NoError))
            == (h, Parser(payload, NoError),
                if Value(Add(Sum(0, false), SerializeIp(h))) != 0 then BadChecksum else NoError)
  {
    SerializeIpConcat(h, payload);
    FieldsRoundTrip(h, payload);
    JudgesChecksum(h, SerializeIp(h), payload);
  }

  lemma JudgesChecksum(h: Ipv4Header, header: seq<byte>, payload: seq<byte>)
    requires Describes(h, payload) && |header| == 4 * h.hlen
    ensures JudgeIp(h, header + payload, Parser(Zeros(4 * h.hlen - IP_LENGTH) + payload, NoError))
         == (Parser(payload, NoError), if Value(Add(Sum(0, false), header)) != 0 then BadChecksum else NoError)
  {
    assert (header + payload)[..4 * h.hlen] == header;
  }
}
