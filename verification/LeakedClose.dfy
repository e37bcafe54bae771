/**
 * What a truncated write costs a connection: bytes that were lost to a full output stay counted as pending, so the
 * inbound stream never ends and the connection cannot close cleanly any more.
 */
module LeakedClose {
  import opened Segments
  import opened Reassembly
  import opened ReceiverSpec
  import opened ConnectionSpec
  import opened ConnectionInvariant

  /** Bytes were lost, and the end of the stream has not been declared. */
  ghost predicate Leaking(r: Receiver) {
    r.Valid() && Leaked(r.reassembler) > 0 && !r.reassembler.output.inputEnded
  }

  lemma AcceptKeepsLeaking(r: Receiver, seg: Segment, first: bool)
    requires Leaking(r)
    ensures Leaking(r.Accept(seg, first))
  {
    PushLeaks(r.reassembler, seg.payload, if first then 0 else r.IndexOf(seg.header.seqno), seg.header.fin);
  }

  lemma CloseKeepsLeaking(r: Receiver, fin: bool)
    requires Leaking(r)
    ensures Leaking(r.Close(fin))
  {
  }

  lemma SegmentKeepsLeaking(r: Receiver, seg: Segment)
    requires Leaking(r)
    ensures Leaking(r.SegmentReceived(seg))
  {
    if !(seg.header.syn && r.syn) {
      var g := r.Greet(seg);
      AcceptKeepsLeaking(g, seg, seg.header.syn);
      CloseKeepsLeaking(g.Accept(seg, seg.header.syn), seg.header.fin);
      CloseKeepsLeaking(g, seg.header.fin);
    }
  }

  // ----- The receiver inside a connection

  lemma UncleanShutdownKeepsReceiver(c: Connection, sendRst: bool)
    requires c.Valid()
    ensures c.UncleanShutdown(sendRst).receiver == c.receiver.SetError()
  {
  }

  lemma ReactKeepsReceiver(c: Connection, seg: Segment)
    requires c.Valid()
    ensures c.React(seg).receiver == c.receiver || c.React(seg).receiver == c.receiver.SetError()
  {
  }

  lemma NextKeepsLeaking(c: Connection, e: Event)
    requires c.Valid() && Leaking(c.receiver)
    ensures Leaking(Next(c, e).receiver)
  {
    match e {
      case Arrives(seg) => ArrivalKeepsLeaking(c, seg);
      case TimePasses(ms) => TickKeepsLeaking(c, ms);
      case _ =>
    }
  }

  lemma ArrivalKeepsLeaking(c: Connection, seg: Segment)
    requires c.Valid() && Leaking(c.receiver)
    ensures Leaking(c.SegmentReceived(seg).receiver)
  {
    SegmentKeepsLeaking(c.receiver, seg);
    ReactKeepsReceiver(c.(timeSinceLastSegment := 0).TakeIn(seg), seg);
  }

  lemma TickKeepsLeaking(c: Connection, ms: nat)
    requires c.Valid() && Leaking(c.receiver)
    ensures Leaking(c.Tick(ms).receiver)
  {
    UncleanShutdownKeepsReceiver(c.Elapse(ms), true);
  }

  lemma {:induction false} AfterKeepsLeaking(c: Connection, events: seq<Event>)
    requires c.Valid() && Leaking(c.receiver)
    ensures Leaking(After(c, events).receiver)
    decreases |events|
  {
    if events == [] {
    } else {
      NextKeepsLeaking(c, events[0]);
      AfterKeepsLeaking(Next(c, events[0]), events[1..]);
    }
  }

  /**
   * Once bytes were lost, no run ends the inbound stream: the connection stays active until it is reset or gives up.
   */
  lemma LeakPreventsCleanClose(c: Connection, events: seq<Event>)
    requires ConnInv(c) && AllowedRun(c, events) && Leaking(c.receiver)
    ensures !After(c, events).InboundEnded()
    ensures After(c, events).active || Errored(After(c, events))
  {
    AfterKeepsLeaking(c, events);
    AfterKeepsInv(c, events);
  }
}
