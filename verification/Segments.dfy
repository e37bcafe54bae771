/** TCP segments and the configuration constants of the data path. */
module Segments {
  import opened Common

  const MAX_PAYLOAD_SIZE := 1000
  const MAX_RETX_ATTEMPTS := 8

  datatype TcpHeader = TcpHeader(
    sport: u16, dport: u16, seqno: u32, ackno: u32, doff: byte,
    urg: bool, ack: bool, psh: bool, rst: bool, syn: bool, fin: bool,
    win: u16, cksum: u16, uptr: u16)

  const DEFAULT_HEADER: TcpHeader :=
    TcpHeader(0, 0, 0, 0, 5, false, false, false, false, false, false, 0, 0, 0)

  datatype Segment = Segment(header: TcpHeader, payload: seq<byte>) {

    function LengthInSequenceSpace(): nat {
      |payload| + (if header.syn then 1 else 0) + (if header.fin then 1 else 0)
    }
  }

  function NewSegment(syn: bool, fin: bool, payload: seq<byte>): Segment {
    Segment(DEFAULT_HEADER.(syn := syn, fin := fin), payload)
  }
}
