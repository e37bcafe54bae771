/** Carrying TCP segments in IPv4 datagrams between two configured endpoints. */
module Encapsulation {
  import opened Common
  import opened Buffers
  import opened Segments
  import opened Parsing
  import opened TcpSegments
  import opened Ipv4

  datatype Endpoint = Endpoint(address: u32, port: u16)

  /** What an adapter is bound to, and whether it still waits for a peer. */
  datatype Config = Config(source: Endpoint, destination: Endpoint, listening: bool)

  // ----- Wrapping

  function SetPorts(c: Config, seg: Segment): Segment {
    seg.(header := seg.header.(sport := c.source.port, dport := c.destination.port))
  }

  function HeaderFor(c: Config, seg: Segment): Ipv4Header {
    DEFAULT_IP.(src := c.source.address, dst := c.destination.address,
                len := (4 * DEFAULT_IP.hlen + 4 * seg.header.doff + |seg.payload|) % TWO16)
  }

  function WrapSegment(c: Config, seg: Segment): Datagram
    requires seg.header.doff >= 5
  {
    Datagram(HeaderFor(c, seg), SerializeSegment(SetPorts(c, seg), PseudoChecksum(HeaderFor(c, seg))))
  }

  // ----- Unwrapping

  /** The segment, if the datagram carries one that concerns this endpoint, and the possibly updated configuration. */
  function UnwrapDatagram(c: Config, d: Datagram): (Option<Segment>, Config) {
    if !c.listening && (d.header.dst != c.source.address || d.header.src != c.destination.address) then (None, c)
    else if d.header.proto != PROTO_TCP then (None, c)
    else
      var (seg, result) := ParseSegment(d.payload, PseudoChecksum(d.header));
      if result != NoError || seg.header.dport != c.source.port then (None, c)
      else if c.listening && !(seg.header.syn && !seg.header.rst) then (None, c)
      else
        var bound := if c.listening
          then Config(Endpoint(d.header.dst, c.source.port), Endpoint(d.header.src, seg.header.sport), false) else c;
        (if seg.header.sport != bound.destination.port then None else Some(seg), bound)
  }

  class TCPOverIPv4Adapter {
    var source: Endpoint
    var destination: Endpoint
    var listening: bool

    ghost function Model(): Config
      reads this
    {
      Config(source, destination, listening)
    }

    constructor (source: Endpoint, destination: Endpoint, listening: bool)
      ensures Model() == Config(source, destination, listening)
    {
      this.source, this.destination, this.listening := source, destination, listening;
    }

    method WrapTcpInIp(seg: Segment) returns (d: Datagram, sent: Segment)
      requires seg.header.doff >= 5
      ensures d == WrapSegment(Model(), seg) && sent == SetPorts(Model(), seg)
    {
      sent := seg.(header := seg.header.(sport := source.port, dport := destination.port));
      var header := DEFAULT_IP.(src := source.address, dst := destination.address);
      header := header.(len := (4 * header.hlen + 4 * seg.header.doff + |seg.payload|) % TWO16);
      var payload := SerializeSegmentTo(sent, PseudoChecksum(header));
      d := Datagram(header, payload);
    }

    method UnwrapTcpInIp(d: Datagram) returns (r: Option<Segment>)
      modifies this
      ensures (r, Model()) == old(UnwrapDatagram(Model(), d))
    {
      if !listening && d.header.dst != source.address {
        return None;
      }
      if !listening && d.header.src != destination.address {
        return None;
      }
      if d.header.proto != PROTO_TCP {
        return None;
      }
      var seg, result := ParseSegmentFrom(FromString(d.payload), PseudoChecksum(d.header));
      if result != NoError {
        return None;
      }
      if seg.header.dport != source.port {
        return None;
      }
      if listening {
        if seg.header.syn && !seg.header.rst {
          source := Endpoint(d.header.dst, source.port);
          destination := Endpoint(d.header.src, seg.header.sport);
          listening := false;
        } else {
          return None;
        }
      }
      if seg.header.sport != destination.port {
        return None;
      }
      return Some(seg);
    }
  }

  // ----- Round trip

  /** The segment as it travels: ports set and checksum filled in. */
  function OnTheWire(c: Config, seg: Segment): Segment
    requires seg.header.doff >= 5
  {
    Sealed(SetPorts(c, seg), PseudoChecksum(HeaderFor(c, seg)))
  }

  predicate Fitting(seg: Segment) {
    5 <= seg.header.doff <= 15 && 20 + 4 * seg.header.doff + |seg.payload| < TWO16
  }

  /** The receiving configuration the segment is meant for: mirrored, or listening on the port it is sent to. */
  predicate Mirrors(c: Config, sender: Config, seg: Segment) {
    if c.listening then c.source.port == sender.destination.port && seg.header.syn && !seg.header.rst
    else c.source == sender.destination && c.destination == sender.source
  }

  lemma WrapDescribes(c: Config, seg: Segment)
    requires Fitting(seg)
    ensures Describes(WrapSegment(c, seg).header, WrapSegment(c, seg).payload)
    ensures Summable(SetPorts(c, seg), PseudoChecksum(HeaderFor(c, seg)))
  {
  }

  lemma UnwrapReceives(c: Config, sender: Config, seg: Segment, d: Datagram)
    requires Fitting(seg) && Mirrors(c, sender, seg)
    requires d == WrapSegment(sender, seg).(header := SealedIp(WrapSegment(sender, seg).header))
    ensures var (r, c') := UnwrapDatagram(c, d);
            && r == Some(OnTheWire(sender, seg))
            && c' == Config(sender.destination, sender.source, false)
  {
    WrapDescribes(sender, seg);
    assert PseudoChecksum(d.header) == PseudoChecksum(HeaderFor(sender, seg));
    SegmentRoundTrip(SetPorts(sender, seg), PseudoChecksum(d.header));
  }

  /**
   * Encapsulation round trip: wrapped in IP, serialized, parsed and unwrapped by the mirrored (or a listening)
   * endpoint, a segment comes back with its header, up to ports and checksum, and its payload; both checksums verify,
   * and the receiving endpoint ends up bound to the sender.
   */
  lemma EncapsulationRoundTrip(sender: Config, receiver: Config, seg: Segment)
    requires Fitting(seg) && Mirrors(receiver, sender, seg)
    ensures var wire := SerializeDatagram(WrapSegment(sender, seg));
            && wire.Some?
            && var (d, result) := ParseDatagram(wire.value); var (r, bound) := UnwrapDatagram(receiver, d);
               && result == NoError && ParseIp(Parser(wire.value, NoError)).2 == NoError
               && r.Some? && r.value.payload == seg.payload
               && r.value.header == seg.header.(sport := sender.source.port, dport := sender.destination.port,
                                                cksum := r.value.header.cksum)
               && bound == Config(sender.destination, sender.source, false)
  {
    WrapDescribes(sender, seg);
    DatagramRoundTrip(WrapSegment(sender, seg));
    UnwrapReceives(receiver, sender, seg,
        WrapSegment(sender, seg).(header := SealedIp(WrapSegment(sender, seg).header)));
  }
}
