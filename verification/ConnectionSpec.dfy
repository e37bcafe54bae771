/** A connection endpoint as a value: sender, receiver and the flags that tie them together. */
module ConnectionSpec {
  import opened Common
  import opened Segments
  import opened SenderSpec
  import opened ReceiverSpec
  import opened StateSummary

  datatype Connection = Connection(
    rtTimeout: u16, receiver: Receiver, sender: Sender, active: bool, synSended: bool,
    timeSinceLastSegment: nat, needSendRst: bool, out: seq<Segment>, linger: bool) {

    ghost predicate Valid() {
      receiver.Valid() && sender.stream.Valid()
    }

    predicate InboundEnded() {
      receiver.reassembler.output.inputEnded
    }

    predicate OutboundEof() {
      sender.stream.Eof()
    }

    /** Fills in what the receiver has to tell the peer. */
    function Stamp(seg: Segment): Segment {
      var told := match receiver.Ackno()
        case Some(a) => seg.header.(ack := true, ackno := a, win := receiver.WindowSize() % TWO16)
        case None => seg.header;
      seg.(header := if needSendRst then told.(rst := true) else told)
    }

    function StampAll(segs: seq<Segment>): seq<Segment> {
      if segs == [] then [] else [Stamp(segs[0])] + StampAll(segs[1..])
    }

    function Drain(): Connection {
      this.(out := out + StampAll(sender.out), sender := sender.(out := []))
    }

    function CleanShutdown(): Connection {
      var stay := linger && !(InboundEnded() && !OutboundEof());
      var done := InboundEnded() && OutboundEof() && sender.bytesInFlight == 0
                  && (!stay || timeSinceLastSegment >= 10 * rtTimeout);
      this.(linger := stay, active := active && !done)
    }

    function SegmentSends(sendSyn: bool): (c: Connection)
      requires Valid()
      ensures c.Valid()
    {
      if !sendSyn && !synSended then this
      else this.(synSended := true, sender := sender.FillWindow()).Drain().CleanShutdown()
    }

    function SetErrors(): (c: Connection)
      requires Valid()
      ensures c.Valid()
    {
      this.(receiver := receiver.SetError(), sender := sender.(stream := sender.stream.SetError()),
            linger := false, active := false)
    }

    function UncleanShutdown(sendRst: bool): (c: Connection)
      requires Valid()
      ensures c.Valid()
    {
      if !sendRst then SetErrors()
      else SetErrors().(needSendRst := true).EnsureSegment().SegmentSends(false)
    }

    function EnsureSegment(): (c: Connection)
      requires Valid()
      ensures c.Valid()
    {
      if sender.out == [] then this.(sender := sender.SendEmptySegment()) else this
    }

    /** In state SYN_SENT an acknowledgment with payload is dropped. */
    predicate Ignores(seg: Segment) {
      SummarizeSender(sender) == SynSent && seg.header.ack && seg.payload != []
    }

    /** Both halves take in the segment. */
    function TakeIn(seg: Segment): (c: Connection)
      requires Valid()
      ensures c.Valid()
    {
      this.(sender := if seg.header.ack && sender.nextSeqno > 0
                      then sender.AckReceived(seg.header.ackno, seg.header.win) else sender,
            receiver := receiver.SegmentReceived(seg))
    }

    /** What the endpoint does about a segment both halves have taken in. */
    function React(seg: Segment): (c: Connection)
      requires Valid()
      ensures c.Valid()
    {
      if seg.header.syn && sender.nextSeqno == 0 then SegmentSends(true)
      else if seg.header.rst then
        if SummarizeSender(sender) == SynSent && !seg.header.ack then this else UncleanShutdown(false)
      else if seg.LengthInSequenceSpace() > 0 && receiver.Ackno().Some? then EnsureSegment().SegmentSends(false)
      else SegmentSends(false)
    }

    function SegmentReceived(seg: Segment): (c: Connection)
      requires Valid()
      ensures c.Valid()
    {
      if !active then this
      else
        var c := this.(timeSinceLastSegment := 0);
        if Ignores(seg) then c else c.TakeIn(seg).React(seg)
    }

    function Write(data: seq<byte>): (c: Connection)
      requires Valid()
      ensures c.Valid()
    {
      this.(sender := sender.Write(data)).SegmentSends(false)
    }

    function EndInputStream(): (c: Connection)
      requires Valid()
      ensures c.Valid()
    {
      this.(sender := sender.EndInput()).SegmentSends(false)
    }

    function Connect(): (c: Connection)
      requires Valid()
      ensures c.Valid()
    {
      SegmentSends(true)
    }

    /** Time passes for the endpoint and its sender. */
    function Elapse(ms: nat): (c: Connection)
      requires Valid()
      ensures c.Valid()
    {
      this.(timeSinceLastSegment := timeSinceLastSegment + ms, sender := sender.Tick(ms))
    }

    function Tick(ms: nat): (c: Connection)
      requires Valid()
      ensures c.Valid()
    {
      if !active then this
      else
        var c := Elapse(ms);
        (if c.sender.consecutiveRetrans > MAX_RETX_ATTEMPTS then c.UncleanShutdown(true) else c).SegmentSends(false)
    }

    /** The application reads from the inbound stream. */
    function ReadInbound(len: nat): (c: Connection)
      requires Valid()
      ensures c.Valid()
    {
      this.(receiver := receiver.Read(len))
    }

    /** The owner takes the first queued segment. */
    function TakeSegment(): (c: Connection)
      requires Valid()
      ensures c.Valid()
    {
      if out == [] then this else this.(out := out[1..])
    }
  }

  function NewConnection(rtTimeout: u16, recvCapacity: nat, sendCapacity: nat, isn: u32): (c: Connection)
    ensures c.Valid()
  {
    Connection(rtTimeout, NewReceiver(recvCapacity), NewSender(sendCapacity, rtTimeout, isn),
               true, false, 0, false, [], true)
  }

  lemma {:induction false} StampAllAt(c: Connection, segs: seq<Segment>, i: nat)
    requires i < |segs|
    ensures |c.StampAll(segs)| == |segs| && c.StampAll(segs)[i] == c.Stamp(segs[i])
  {
    if i > 0 {
      StampAllAt(c, segs[1..], i - 1);
    } else if |segs| > 1 {
      StampAllAt(c, segs[1..], 0);
    }
  }
}
