/** What does not get through: damaged segments, and segments from anyone but the peer. */
module Rejection {
  import opened Common
  import opened Segments
  import opened Checksum
  import opened Parsing
  import opened TcpHeaders
  import opened TcpSegments
  import opened Ipv4
  import opened Encapsulation
  import opened WireFormat

  // ----- Which segments are accepted

  /** The header, or the header as long as it claims, does not fit. */
  predicate RunsOut(data: seq<byte>) {
    |data| < TCP_LENGTH || (data[12] / 16 >= 5 && 4 * (data[12] / 16) > |data|)
  }

  /** A header parser runs out of data exactly then. */
  lemma HeaderRunsOut(data: seq<byte>)
    ensures var p := ParseHeader(Parser(data, NoError)).1;
            p.error == (if RunsOut(data) then PacketTooShort else NoError)
  {
    if |data| >= TCP_LENGTH {
      PortsLayout(data);
      ControlsLayout(data);
    } else {
      ShortPorts(data);
    }
  }

  /** Errors of a parser: none, or too little data. */
  predicate Plainly(p: Parser) {
    p.error == NoError || p.error == PacketTooShort
  }

  lemma TakeFails(p: Parser, len: nat)
    requires Plainly(p)
    ensures var q := p.TakeInt(len).1;
            && Plainly(q) && (p.error != NoError || len > |p.rest| ==> q.error == PacketTooShort)
            && (q.error == NoError ==> |q.rest| == |p.rest| - len)
            && (q.error != NoError ==> q.rest == p.rest)
  {
  }

  lemma ShortPorts(data: seq<byte>)
    requires |data| < TCP_LENGTH
    ensures ParseHeader(Parser(data, NoError)).1.error == PacketTooShort
  {
    var p := ReadPorts(Parser(data, NoError)).1;
    PortsFail(Parser(data, NoError));
    ControlsFail(p);
  }

  lemma PortsFail(p: Parser)
    requires p.error == NoError
    ensures var q := ReadPorts(p).1;
            Plainly(q) && (|p.rest| < 12 ==> q.error != NoError) && (q.error == NoError ==> |q.rest| == |p.rest| - 12)
  {
    Capacities();
    var p1 := p.U16().1;
    var p2 := p1.U16().1;
    var p3 := p2.U32().1;
    TakeFails(p, 2);
    TakeFails(p1, 2);
    TakeFails(p2, 4);
    TakeFails(p3, 4);
  }

  lemma ControlsFail(p: Parser)
    requires Plainly(p) && (p.error == NoError ==> |p.rest| < 8)
    ensures ReadControls(p).1.error == PacketTooShort
  {
    Capacities();
    var p1 := p.U8().1;
    var p2 := p1.U8().1;
    var p3 := p2.U16().1;
    var p4 := p3.U16().1;
    TakeFails(p, 1);
    TakeFails(p1, 1);
    TakeFails(p2, 2);
    TakeFails(p3, 2);
    TakeFails(p4, 2);
  }

  /** Data within the 32-bit bound of the sum. */
  predicate Bounded(data: seq<byte>, pseudo: u32) {
    pseudo + Words(false, data) < TWO32
  }

  /**
   * A segment is rejected for its checksum exactly if pseudo-header and data do not sum up, and accepted exactly if
   * they do and the header fits. A header that claims fewer than 20 bytes passes, since the header parser's verdict is
   * not heeded.
   */
  lemma VerdictExactly(data: seq<byte>, pseudo: u32)
    requires Bounded(data, pseudo)
    ensures ParseSegment(data, pseudo).1
            == if !Sums(pseudo + Words(false, data)) then BadChecksum
               else if RunsOut(data) then PacketTooShort else NoError
  {
    ChecksExactly(pseudo, data);
    HeaderRunsOut(data);
  }

  // ----- Damage

  function ReplaceWord(data: seq<byte>, at: nat, w: u16): seq<byte>
    requires at + 2 <= |data|
  {
    data[..at] + (Word(w) + data[at + 2..])
  }

  lemma WordAt(data: seq<byte>, at: nat)
    requires at + 2 <= |data|
    ensures Word(At16(data, at)) == data[at..at + 2]
  {
    TwoBytes(data, at);
  }

  /** Replacing a 16-bit word moves the sum by the difference. */
  lemma ReplacedWord(data: seq<byte>, at: nat, w: u16)
    requires at + 2 <= |data| && at % 2 == 0
    ensures Words(false, ReplaceWord(data, at, w)) == Words(false, data) - At16(data, at) + w
  {
    WordAt(data, at);
    SplitsAround(data, at);
    WordsAround(data[..at], At16(data, at), data[at + 2..]);
    WordsAround(data[..at], w, data[at + 2..]);
  }

  lemma SplitsAround(data: seq<byte>, at: nat)
    requires at + 2 <= |data|
    ensures data == data[..at] + (data[at..at + 2] + data[at + 2..])
  {
  }

  lemma MovedSum(n: nat, d: int)
    requires Sums(n) && n + d >= 0
    ensures Sums(n + d) <==> d % 65535 == 0 && n + d > 0
  {
    var q := n / 65535;
    assert n + d == d + 65535 * q;
    ShiftByMultiple(d, q);
  }

  lemma ShiftByMultiple(d: int, q: nat)
    ensures (d + 65535 * q) % 65535 == d % 65535
  {
  }

  lemma DamagedWordSum(data: seq<byte>, pseudo: u32, at: nat, w: u16)
    requires at + 2 <= |data| && at % 2 == 0 && Sums(pseudo + Words(false, data))
    ensures Sums(pseudo + Words(false, ReplaceWord(data, at, w)))
            <==> (w - At16(data, at)) % 65535 == 0 && pseudo + Words(false, ReplaceWord(data, at, w)) > 0
    ensures Words(false, ReplaceWord(data, at, w)) < Words(false, data) + TWO16
  {
    ReplacedWord(data, at, w);
    MovedSum(pseudo + Words(false, data), w - At16(data, at));
  }

  /**
   * Data that checks out is rejected after a 16-bit word of it was replaced, exactly unless the new word equals the old
   * one modulo 65535, as zeros and ones do, and something is left of the sum.
   */
  lemma DamagedWordExactly(data: seq<byte>, pseudo: u32, at: nat, w: u16)
    requires at + 2 <= |data| && at % 2 == 0 && pseudo + Words(false, data) + TWO16 <= TWO32
    requires Sums(pseudo + Words(false, data))
    ensures ParseSegment(ReplaceWord(data, at, w), pseudo).1 == BadChecksum
            <==> (w - At16(data, at)) % 65535 != 0 || pseudo + Words(false, ReplaceWord(data, at, w)) == 0
  {
    DamagedWordSum(data, pseudo, at, w);
    VerdictExactly(ReplaceWord(data, at, w), pseudo);
  }

  /** Replacing one byte moves the sum by at most 65280 one way or the other. */
  lemma ReplacedByte(data: seq<byte>, at: nat, b: byte)
    requires at < |data|
    ensures var d := b - data[at];
            Words(false, data[at := b]) == Words(false, data) + (if at % 2 == 0 then 256 * d else d)
  {
    var front, back := data[..at], data[at + 1..];
    assert data == front + ([data[at]] + back) && data[at := b] == front + ([b] + back);
    WordsConcat(false, front, [data[at]] + back);
    WordsConcat(false, front, [b] + back);
    assert ([data[at]] + back)[1..] == back && ([b] + back)[1..] == back;
  }

  lemma DamagedByteSum(data: seq<byte>, pseudo: u32, at: nat, b: byte)
    requires at < |data| && b != data[at] && Sums(pseudo + Words(false, data))
    ensures !Sums(pseudo + Words(false, data[at := b]))
    ensures Words(false, data[at := b]) < Words(false, data) + TWO16
  {
    var d: int := b - data[at];
    ReplacedByte(data, at, b);
    MovedSum(pseudo + Words(false, data), if at % 2 == 0 then 256 * d else d);
  }

  /** A single damaged byte, header or payload, is always found out. */
  lemma DamagedByteIsRejected(data: seq<byte>, pseudo: u32, at: nat, b: byte)
    requires at < |data| && b != data[at] && pseudo + Words(false, data) + TWO16 <= TWO32
    requires Sums(pseudo + Words(false, data))
    ensures ParseSegment(data[at := b], pseudo).1 == BadChecksum
  {
    DamagedByteSum(data, pseudo, at, b);
    VerdictExactly(data[at := b], pseudo);
  }

  lemma SealedSums(seg: Segment, pseudo: u32)
    requires 5 <= seg.header.doff <= 15 && Summable(seg, pseudo)
    ensures var n := pseudo + Words(false, SerializeSegment(seg, pseudo)); Sums(n) && n + TWO16 <= TWO32
  {
    SealedChecks(seg, pseudo);
    WordsBound(false, SerializeSegment(seg, pseudo));
    ChecksExactly(pseudo, SerializeSegment(seg, pseudo));
  }

  lemma RejectedIsUnwrappedByNobody(c: Config, d: Datagram)
    requires ParseSegment(d.payload, PseudoChecksum(d.header)).1 == BadChecksum
    ensures UnwrapDatagram(c, d) == (None, c)
  {
  }

  /** The payload and its pseudo-header check out, with room to spare in the 32-bit sum. */
  predicate Sound(d: Datagram) {
    var n := PseudoChecksum(d.header) + Words(false, d.payload);
    Sums(n) && n + TWO16 <= TWO32
  }

  /** Whatever is wrapped is sound, also after its IP header was sealed. */
  lemma WrappedIsSound(sender: Config, seg: Segment)
    requires Fitting(seg)
    ensures var d := WrapSegment(sender, seg); Sound(d) && Sound(d.(header := SealedIp(d.header)))
  {
    WrapDescribes(sender, seg);
    SealedSums(SetPorts(sender, seg), PseudoChecksum(HeaderFor(sender, seg)));
  }

  /** A segment of which a byte was damaged on its way reaches no endpoint, and binds none. */
  lemma DamagedByteReachesNobody(c: Config, d: Datagram, at: nat, b: byte)
    requires Sound(d) && at < |d.payload| && b != d.payload[at]
    ensures UnwrapDatagram(c, d.(payload := d.payload[at := b])) == (None, c)
  {
    DamagedByteIsRejected(d.payload, PseudoChecksum(d.header), at, b);
    RejectedIsUnwrappedByNobody(c, d.(payload := d.payload[at := b]));
  }

  /** Nor does one of which a 16-bit word was replaced by one that differs modulo 65535. */
  lemma DamagedWordReachesNobody(c: Config, d: Datagram, at: nat, w: u16)
    requires Sound(d) && at + 2 <= |d.payload| && at % 2 == 0 && (w - At16(d.payload, at)) % 65535 != 0
    ensures UnwrapDatagram(c, d.(payload := ReplaceWord(d.payload, at, w))) == (None, c)
  {
    DamagedWordExactly(d.payload, PseudoChecksum(d.header), at, w);
    RejectedIsUnwrappedByNobody(c, d.(payload := ReplaceWord(d.payload, at, w)));
  }

  // ----- Only the peer is heard

  /** What an endpoint delivers of the datagrams that arrive, each with the datagram it came in. */
  function Deliveries(c: Config, ds: seq<Datagram>): seq<(Datagram, Segment)>
    decreases |ds|
  {
    if ds == [] then []
    else
      var (r, bound) := UnwrapDatagram(c, ds[0]);
      (if r.Some? then [(ds[0], r.value)] else []) + Deliveries(bound, ds[1..])
  }

  function ConfigAfter(c: Config, ds: seq<Datagram>): Config
    decreases |ds|
  {
    if ds == [] then c else ConfigAfter(UnwrapDatagram(c, ds[0]).1, ds[1..])
  }

  /** The datagram carries, undamaged, this segment from `remote` to `local`. */
  predicate Brings(d: Datagram, seg: Segment, remote: Endpoint, local: Endpoint) {
    && d.header.proto == PROTO_TCP && d.header.src == remote.address && d.header.dst == local.address
    && ParseSegment(d.payload, PseudoChecksum(d.header)) == (seg, NoError)
    && seg.header.sport == remote.port && seg.header.dport == local.port
  }

  /** A bound endpoint delivers exactly the undamaged segments from its peer to itself, and stays bound as it is. */
  lemma BoundHearsPeerExactly(c: Config, d: Datagram, seg: Segment)
    requires !c.listening
    ensures UnwrapDatagram(c, d) == (Some(seg), c) <==> Brings(d, seg, c.destination, c.source)
    ensures UnwrapDatagram(c, d).1 == c
  {
  }

  /** A listening endpoint is bound exactly by an undamaged SYN to its port, no reset, and delivers it. */
  lemma ListenerBindsExactly(c: Config, d: Datagram, seg: Segment)
    requires c.listening
    ensures var remote, local := Endpoint(d.header.src, seg.header.sport), Endpoint(d.header.dst, c.source.port);
            UnwrapDatagram(c, d) == (Some(seg), Config(local, remote, false))
            <==> Brings(d, seg, remote, local) && seg.header.syn && !seg.header.rst
    ensures UnwrapDatagram(c, d).0.None? ==> UnwrapDatagram(c, d).1 == c
    ensures UnwrapDatagram(c, d).0.Some? ==> !UnwrapDatagram(c, d).1.listening
  {
  }

  /** Over every run of a bound endpoint, everything delivered came from its peer. */
  lemma {:induction false} BoundHearsOnlyPeer(c: Config, ds: seq<Datagram>)
    requires !c.listening
    ensures ConfigAfter(c, ds) == c
    ensures forall x | x in Deliveries(c, ds) :: x.0 in ds && Brings(x.0, x.1, c.destination, c.source)
    decreases |ds|
  {
    if ds == [] {
    } else {
      BoundDelivers(c, ds[0]);
      BoundHearsOnlyPeer(c, ds[1..]);
      var r := UnwrapDatagram(c, ds[0]).0;
      assert Deliveries(c, ds) == (if r.Some? then [(ds[0], r.value)] else []) + Deliveries(c, ds[1..]);
    }
  }

  lemma BoundDelivers(c: Config, d: Datagram)
    requires !c.listening
    ensures UnwrapDatagram(c, d).1 == c
    ensures UnwrapDatagram(c, d).0.Some? ==> Brings(d, UnwrapDatagram(c, d).0.value, c.destination, c.source)
  {
    var r := UnwrapDatagram(c, d).0;
    if r.Some? {
      BoundHearsPeerExactly(c, d, r.value);
    }
  }

  /**
   * Over every run of a listening endpoint: it delivers nothing and stays as it is, or what it delivers begins with a
   * SYN, which binds it for good, and all of it comes from the endpoint that sent the SYN.
   */
  lemma {:induction false} ListenerHearsOnePeer(c: Config, ds: seq<Datagram>)
    requires c.listening
    ensures var heard, bound := Deliveries(c, ds), ConfigAfter(c, ds);
            if heard == [] then bound == c
            else
              && heard[0].1.header.syn && !heard[0].1.header.rst
              && !bound.listening && bound.source.port == c.source.port
              && forall x | x in heard :: x.0 in ds && Brings(x.0, x.1, bound.destination, bound.source)
    decreases |ds|
  {
    if ds == [] {
    } else {
      var (r, bound) := UnwrapDatagram(c, ds[0]);
      if r.Some? {
        ListenerBindsExactly(c, ds[0], r.value);
        BoundHearsOnlyPeer(bound, ds[1..]);
        assert Deliveries(c, ds) == [(ds[0], r.value)] + Deliveries(bound, ds[1..]);
      } else {
        ListenerHearsOnePeer(c, ds[1..]);
        assert Deliveries(c, ds) == Deliveries(c, ds[1..]);
      }
    }
  }
}
