/** The TCP sender as a value: each operation as a function from sender state to sender state. */
module SenderSpec {
  import opened Common
  import opened WrappingIntegers
  import opened Streams
  import opened Segments

  datatype Sender = Sender(
    syn: bool, fin: bool, windowIsZero: bool, clockIsCounting: bool,
    bytesInFlight: int, windowSize: u16, checkpoint: nat, clock: nat,
    inFlight: seq<Segment>, consecutiveRetrans: nat, retransTimeout: u32, receiveAck: nat,
    isn: u32, out: seq<Segment>, initialTimeout: u16, stream: Stream, nextSeqno: nat) {

    function SendSegment(seg0: Segment): Sender {
      var seg := seg0.(header := seg0.header.(seqno := Wrap(nextSeqno, isn)));
      this.(nextSeqno := nextSeqno + seg.LengthInSequenceSpace(),
            bytesInFlight := bytesInFlight + seg.LengthInSequenceSpace(),
            inFlight := inFlight + [seg],
            out := out + [seg],
            clock := if clockIsCounting then clock else 0,
            clockIsCounting := true)
    }

    function SendEmptySegment(): Sender {
      this.(out := out + [Segment(DEFAULT_HEADER.(seqno := Wrap(nextSeqno, isn)), [])])
    }

    /** What is left of the window; the subtraction is on unsigned 64-bit numbers. */
    function Remain(win: nat): nat {
      (win - (nextSeqno - receiveAck)) % TWO64
    }

    /** A zero window counts as one. */
    function Window(): nat {
      if windowSize > 0 then windowSize else 1
    }

    /** The bytes the next segment carries, and whether they end the stream with room for a FIN. */
    function Piece(win: nat): seq<byte>
      requires stream.Valid()
    {
      stream.Peek(Min(Remain(win), MAX_PAYLOAD_SIZE))
    }

    predicate Last(win: nat)
      requires stream.Valid()
    {
      stream.Pop(Min(Remain(win), MAX_PAYLOAD_SIZE)).Eof() && |Piece(win)| < win
    }

    /** One round of the loop: cut a piece off the stream and send it. */
    function Round(win: nat): (s: Sender)
      requires stream.Valid()
      ensures s.stream == stream.(popped := stream.popped + |Piece(win)|) && s.fin == Last(win)
      ensures s.isn == isn && s.receiveAck == receiveAck
    {
      this.(stream := stream.Pop(Min(Remain(win), MAX_PAYLOAD_SIZE)), fin := Last(win))
          .SendSegment(NewSegment(false, Last(win), Piece(win)))
    }

    /** The loop goes on while there is window left, no FIN was sent, and the next segment would not be empty. */
    predicate CanSend(win: nat)
      requires stream.Valid()
    {
      Remain(win) != 0 && !fin && (Piece(win) != [] || Last(win))
    }

    /** Sends segments until the window is full, the FIN is sent, or there is nothing to send. */
    function FillLoop(win: nat): (s: Sender)
      requires stream.Valid()
      ensures s.stream.Valid()
      decreases stream.BufferSize(), !fin
    {
      if CanSend(win) then Round(win).FillLoop(win) else this
    }

    function FillWindow(): (s: Sender)
      requires stream.Valid()
      ensures s.stream.Valid()
    {
      if !syn then SendSegment(NewSegment(true, false, [])).(syn := true)
      else this.(windowIsZero := windowSize == 0).FillLoop(Window())
    }

    /** Drops the fully acknowledged segments from the front of the retransmission queue. */
    function PopAcked(ack: nat): Sender
      decreases |inFlight|
    {
      if inFlight != [] && Unwrap(inFlight[0].header.seqno, isn, nextSeqno) + inFlight[0].LengthInSequenceSpace() <= ack
      then this.(bytesInFlight := bytesInFlight - inFlight[0].LengthInSequenceSpace(),
                 inFlight := inFlight[1..]).PopAcked(ack)
      else this
    }

    /** A new acknowledgment taken over and the queue trimmed, before the window is refilled. */
    function Acked(ack: nat, window: u16): (s: Sender)
      ensures s.stream == stream
    {
      var s := this.(windowSize := window, receiveAck := ack, checkpoint := ack);
      PopAckedKeeps(s, ack);
      s.PopAcked(ack)
    }

    function RestartTimer(): Sender {
      this.(retransTimeout := initialTimeout, consecutiveRetrans := 0,
            clockIsCounting := inFlight != [] || clockIsCounting, clock := if inFlight != [] then 0 else clock)
    }

    function AckReceived(ackno: u32, window: u16): (s: Sender)
      requires stream.Valid()
      ensures s.stream.Valid()
    {
      var ack := Unwrap(ackno, isn, checkpoint);
      if ack > nextSeqno then this
      else if ack <= receiveAck then this.(windowSize := window)
      else Acked(ack, window).FillWindow().RestartTimer()
    }

    function Tick(ms: nat): Sender {
      var s := this.(clock := clock + ms);
      var t := if s.clock >= retransTimeout && inFlight != []
               then s.(out := out + [inFlight[0]], consecutiveRetrans := consecutiveRetrans + 1,
                       clockIsCounting := true, clock := 0,
                       retransTimeout := if windowIsZero then retransTimeout else 2 * retransTimeout % TWO32)
               else s;
      if inFlight == [] then t.(clockIsCounting := false) else t
    }

    function Write(data: seq<byte>): (s: Sender)
      requires stream.Valid()
      ensures s.stream.Valid()
    {
      this.(stream := stream.Write(data))
    }

    function EndInput(): Sender {
      this.(stream := stream.EndInput())
    }
  }

  /** Popping touches nothing but the queue, of which a suffix stays, and its byte count. */
  lemma {:induction false} PopAckedKeeps(s: Sender, ack: nat)
    ensures var t := s.PopAcked(ack); t == s.(inFlight := t.inFlight, bytesInFlight := t.bytesInFlight)
    ensures forall seg | seg in s.PopAcked(ack).inFlight :: seg in s.inFlight
    decreases |s.inFlight|
  {
    if s.inFlight != [] {
      var n := s.inFlight[0].LengthInSequenceSpace();
      if Unwrap(s.inFlight[0].header.seqno, s.isn, s.nextSeqno) + n <= ack {
        PopAckedKeeps(s.(bytesInFlight := s.bytesInFlight - n, inFlight := s.inFlight[1..]), ack);
      }
    }
  }

  function NewSender(capacity: nat, timeout: u16, isn: u32): (s: Sender)
    ensures s.stream.Valid()
  {
    Sender(false, false, false, false, 0, 0, 0, 0, [], 0, timeout, 0, isn, [], timeout, NewStream(capacity), 0)
  }
}
