/**
 * Two endpoints of this implementation, over channels that lose, duplicate, delay and reorder whole segments: no reset
 * comes from nowhere, so that neither fails unless one of them gives up.
 */
module PeerFailure {
  import opened Common
  import opened Segments
  import opened SenderInvariant
  import opened ConnectionSpec
  import opened ConnectionInvariant
  import opened ConnectionLifetime
  import opened EndToEnd
  import opened ShortStreams
  import opened CleanDelivery
  import opened Acknowledging
  import opened Handover
  import opened Failure

  ghost predicate NoReset(wire: set<Segment>) {
    forall seg | seg in wire :: !seg.header.rst
  }

  /** Neither side has failed, and no reset is on its way. */
  ghost predicate Unharmed(p: Pair) {
    && !Errored(p.a) && !Errored(p.b) && NoReset(p.toA) && NoReset(p.toB)
  }

  /** The bookkeeping of both sides. */
  ghost predicate Tallied(p: Pair) {
    && PairInv(p) && ShortStream(p.a) && ShortStream(p.b)
    && Tally(p.a) && Tally(p.b) && Marked(p.a) && Marked(p.b)
  }

  predicate GivesUpA(p: Pair, m: Move) {
    m.Local? && GivesUp(p.a, m.e)
  }

  lemma MoveKeepsTally(p: Pair, m: Move)
    requires Tallied(p) && WholeMoveA(p, m)
    ensures Tallied(MoveA(p, m))
    ensures Errored(p.a) ==> Errored(MoveA(p, m).a)
    ensures GivesUpA(p, m) ==> Errored(MoveA(p, m).a)
  {
    WholeIsShort(p, m);
    ShortMoveStaysShort(p, m);
    ShortMoveAllowed(p, m);
    match m {
      case Local(e) =>
        EventFailsExactly(p.a, e);
        NextAppends(p.a, e);
      case Transmit =>
        NextAppends(p.a, OwnerTakes);
    }
  }

  /** A move after which the moving side has not given up leaves both unharmed. */
  lemma MoveKeepsUnharmed(p: Pair, m: Move)
    requires Tallied(p) && Unharmed(p) && WholeMoveA(p, m) && !GivesUpA(p, m)
    ensures Unharmed(MoveA(p, m))
  {
    WholeIsShort(p, m);
    ShortMoveAllowed(p, m);
    match m {
      case Local(e) => EventFailsExactly(p.a, e);
      case Transmit =>
        if p.a.out != [] {
          assert p.a.out[0] in p.a.out;
        }
    }
  }

  predicate SomeoneFailed(p: Pair) {
    Errored(p.a) || Errored(p.b)
  }

  predicate GivesUpNow(p: Pair, m: PairMove) {
    match m
    case AtA(m) => GivesUpA(p, m)
    case AtB(m) => GivesUpA(Swap(p), m)
  }

  predicate SomeoneGivesUp(p: Pair, moves: seq<PairMove>)
    requires p.a.Valid() && p.b.Valid()
    decreases |moves|
  {
    moves != [] && (GivesUpNow(p, moves[0]) || SomeoneGivesUp(PairNext(p, moves[0]), moves[1..]))
  }

  lemma NextTallies(p: Pair, m: PairMove)
    requires Tallied(p) && WholeMove(p, m)
    ensures var q := PairNext(p, m);
            && Tallied(q) && (SomeoneFailed(p) || GivesUpNow(p, m) ==> SomeoneFailed(q))
            && (Unharmed(p) && !GivesUpNow(p, m) ==> Unharmed(q))
  {
    match m {
      case AtA(m) =>
        MoveKeepsTally(p, m);
        if Unharmed(p) && !GivesUpA(p, m) {
          MoveKeepsUnharmed(p, m);
        }
      case AtB(m) =>
        MoveKeepsTally(Swap(p), m);
        if Unharmed(p) && !GivesUpA(Swap(p), m) {
          MoveKeepsUnharmed(Swap(p), m);
        }
    }
  }

  lemma {:induction false} RunTallies(p: Pair, moves: seq<PairMove>)
    requires Tallied(p) && WholeRun(p, moves)
    ensures var q := PairRun(p, moves);
            && (SomeoneFailed(p) || SomeoneGivesUp(p, moves) ==> SomeoneFailed(q))
            && (Unharmed(p) && !SomeoneGivesUp(p, moves) ==> Unharmed(q))
    decreases |moves|
  {
    if moves == [] {
    } else {
      NextTallies(p, moves[0]);
      RunTallies(PairNext(p, moves[0]), moves[1..]);
    }
  }

  /** From two fresh endpoints, after any run: one of them has failed if and only if one of them gave up on the way. */
  lemma FailsOnlyByGivingUp(a: Connection, b: Connection, moves: seq<PairMove>,
                            rtA: u16, rtB: u16, recvA: nat, recvB: nat,
                            sendA: nat, sendB: nat, isnA: u32, isnB: u32)
    requires a == NewConnection(rtA, recvA, sendA, isnA) && b == NewConnection(rtB, recvB, sendB, isnB)
    requires WholeRun(Pair(a, b, {}, {}), moves)
    ensures SomeoneFailed(PairRun(Pair(a, b, {}, {}), moves)) <==> SomeoneGivesUp(Pair(a, b, {}, {}), moves)
  {
    var p := Pair(a, b, {}, {});
    NewPairInv(rtA, rtB, recvA, recvB, sendA, sendB, isnA, isnB);
    RunTallies(p, moves);
  }
}
