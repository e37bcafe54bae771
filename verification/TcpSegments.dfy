/** Whole TCP segments on the wire: the checksum covers header, payload and the pseudo-header's contribution. */
module TcpSegments {
  import opened Common
  import opened Buffers
  import opened Segments
  import opened Checksum
  import opened Parsing
  import opened TcpHeaders

  const NO_SEGMENT: Segment := Segment(DEFAULT_HEADER, [])

  function ParseSegment(data: seq<byte>, pseudo: u32): (Segment, ParseResult) {
    if Value(Add(Sum(pseudo, false), data)) != 0 then (NO_SEGMENT, BadChecksum)
    else
      var (h, p, _) := ParseHeader(Parser(data, NoError));
      (Segment(h, p.rest), p.error)
  }

  /** The checksum of the segment, computed with its checksum field zeroed. */
  function SegmentChecksum(seg: Segment, pseudo: u32): u16
    requires seg.header.doff >= 5
  {
    Value(Add(Add(Sum(pseudo, false), Serialize(seg.header.(cksum := 0))), seg.payload))
  }

  function Sealed(seg: Segment, pseudo: u32): Segment
    requires seg.header.doff >= 5
  {
    seg.(header := seg.header.(cksum := SegmentChecksum(seg, pseudo)))
  }

  function SerializeSegment(seg: Segment, pseudo: u32): seq<byte>
    requires seg.header.doff >= 5
  {
    Serialize(Sealed(seg, pseudo).header) + seg.payload
  }

  method ParseSegmentFrom(buffer: Buffer, pseudo: u32) returns (seg: Segment, result: ParseResult)
    requires buffer.Valid()
    ensures (seg, result) == ParseSegment(buffer.Str(), pseudo)
  {
    var check := new InternetChecksum(pseudo);
    check.AddBytes(buffer.Str());
    var value := check.FinalValue();
    if value != 0 {
      return NO_SEGMENT, BadChecksum;
    }
    var p := new NetParser(buffer);
    var h, _ := ParseHeaderFrom(p);
    seg := Segment(h, p.buffer.Str());
    result := p.error;
  }

  method SerializeSegmentTo(seg: Segment, pseudo: u32) returns (ret: seq<byte>)
    requires seg.header.doff >= 5
    ensures ret == SerializeSegment(seg, pseudo)
  {
    var check := new InternetChecksum(pseudo);
    var zeroed := SerializeHeader(seg.header.(cksum := 0));
    check.AddBytes(zeroed);
    check.AddBytes(seg.payload);
    var value := check.FinalValue();
    ret := SerializeHeader(seg.header.(cksum := value));
    ret := ret + seg.payload;
  }

  lemma WordIsBytes(v: u16)
    ensures Bytes(2, v) == Word(v)
  {
  }

  /** The bytes of a segment, split around the checksum field, which lies at an even offset. */
  lemma SplitAtChecksum(h: TcpHeader, tail: seq<byte>)
    requires h.doff >= 5
    ensures SerializeOnto(h, tail) == Front(h, []) + (Word(h.cksum) + Back(h, tail))
    ensures |Front(h, [])| == 16
    ensures |Back(h, tail)| == 4 * h.doff - 18 + |tail|
  {
    WordIsBytes(h.cksum);
    var rest := Bytes(2, h.cksum) + Back(h, tail);
    FrontOnto(h, [], rest);
    assert [] + rest == rest;
  }

  /** The 32-bit sum cannot overflow for this segment. */
  predicate Summable(seg: Segment, pseudo: u32) {
    pseudo + 65280 * (4 * seg.header.doff + |seg.payload|) + TWO16 <= TWO32
  }

  lemma SealedChecks(seg: Segment, pseudo: u32)
    requires seg.header.doff >= 5 && Summable(seg, pseudo)
    ensures Value(Add(Sum(pseudo, false), SerializeSegment(seg, pseudo))) == 0
  {
    var h0 := seg.header.(cksum := 0);
    var h := Sealed(seg, pseudo).header;
    var front, back := Front(h, []), Back(h, seg.payload);
    AddIsChunkIndependent(Sum(pseudo, false), Serialize(h0), seg.payload);
    SerializeConcat(h0, seg.payload);
    SerializeConcat(h, seg.payload);
    SplitAtChecksum(h0, seg.payload);
    SplitAtChecksum(h, seg.payload);
    assert Front(h0, []) == front && Back(h0, seg.payload) == back;
    WordsBound(false, front);
    WordsBound(false, back);
    StoredChecksumVerifies(pseudo, front, back);
  }

  /** Round trip: a serialized segment parses, checksum included, to itself with the checksum filled in. */
  lemma SegmentRoundTrip(seg: Segment, pseudo: u32)
    requires 5 <= seg.header.doff <= 15 && Summable(seg, pseudo)
    ensures ParseSegment(SerializeSegment(seg, pseudo), pseudo) == (Sealed(seg, pseudo), NoError)
  {
    SealedChecks(seg, pseudo);
    SerializeConcat(Sealed(seg, pseudo).header, seg.payload);
    HeaderRoundTrip(Sealed(seg, pseudo).header, seg.payload);
  }
}
