# Sponge TCP, verified

A Dafny model of the TCP data path in `sponge/libsponge`: wrapping sequence numbers, the chunked byte stream, the
stream reassembler, receiver, sender and connection, the state summaries, and the wire format of TCP segments in IPv4
datagrams. The standards behind it are RFC 793 (sections 3.1, 3.2, 3.5), RFC 6298 section 5, RFC 1071 section 1 and
RFC 791 section 3.1.

Every component exists twice. A *specification* gives its state as a datatype and each operation as a function from
state to state (`Streams`, `Reassembly`, `ReceiverSpec`, `SenderSpec`, `ConnectionSpec`, `Checksum`, `Parsing`, ...).
A *class* with the source's fields and loops (`ByteStream`, `StreamReassembler`, `TCPReceiver`, `TCPSender`,
`TCPConnection`, `InternetChecksum`, `NetParser`, `TCPOverIPv4Adapter`) is proved to compute those functions: each
method's new `Model()` is the function applied to the old one. Everything else is proved about the functions: what each
operation keeps, what holds over all runs, and what two parties joined by bad channels can and cannot do.

How the files build on each other:

- `Common`, `WrappingIntegers`, `Streams`, `Buffers`, `Segments`: foundations.
- `Blocks`, `Reassembly`, `Confluence`, `StreamReassembler`: reassembly, from one-pass insertion to confluence.
- `SenderSpec`, `SenderInvariant`, `SenderWindow`, `SenderTimer`, `Retransmission`, `TcpSender`: the sender, its queue,
  window and timer.
- `ReceiverSpec`, `TcpReceiver`: the receiver.
- `ConnectionSpec`, `ConnectionInvariant`, `ConnectionLifetime`, `TcpConnection`, `StateSummary`, `OfficialStates`,
  `OffDiagramStates`, `Acknowledging`, `Handover`, `Failure`, `LeakedClose`: the endpoint over runs of arbitrary events.
- `EndToEnd`, `ShortStreams`, `CleanDelivery`, `PeerFailure`: two endpoints; `Segmentation`, `AckExactness`, `AckLag`, `FlowControl`,
  `Delivery`, `Progress`, `CompleteOnClose`, `EarlyFin`: one sender and one receiver in a loop of segments and
  acknowledgments.
- `Checksum`, `Parsing`, `TcpHeaders`, `TcpSegments`, `Ipv4`, `Encapsulation`, `WireFormat`, `Rejection`: the wire
  format, and what is rejected.

Check the whole project with `dafny verify dfyconfig.toml`.

Arithmetic: sequence numbers wrap at 32 bits, `unwrap` and the window subtraction at 64, the retransmission timeout and
the checksum's running sum at 32, window and length fields at 16. The other 64-bit counters (bytes, absolute numbers,
milliseconds) are natural numbers.

Where code and documentation part, the model follows the code:

- `unwrap` promises the closest preimage; within 2^32 of the top of the 64-bit range it can be far off
  (`WrappingIntegers.UnwrapIsClosest` says exactly when).
- `ackno()` promises to be empty only before the SYN; it is also empty whenever the next number expected wraps to 0
  (`AckLag.AcknoTellsExpected`). In particular the answer to a SYN acknowledges it exactly unless what is counted of that
  segment takes the number to 0, as for a bare SYN numbered 2^32 - 1 (`Acknowledging.SynIsAcknowledgedExactly`).
- The acknowledgment number promises to be that of the next byte wanted; it falls behind for good exactly when a segment
  with bytes on both sides of the head is taken in, which only truncated writes bring about (`AckLag.AckIsExact`,
  `AckLag.UntruncatedIsExact`, instance `AckLag.CrossingExample`).
- `empty()` promises that no substrings wait; it means a counter of 0, which a truncated write makes unreachable
  (`Reassembly.PushLeaks`, `Confluence.LeakBlocksEof`, `LeakedClose.LeakPreventsCleanClose`). And since the stream is
  ended once a FIN was seen and nothing waits, a FIN that does not bring the last byte itself, because it has no payload
  or lies beyond the window, ends it early, at once or later, exactly if the end is not secure when it arrives: the last
  byte is not held, no byte was lost, and what is stored can still be output whole (`EarlyFin.EarlyFinExactly`, instances
  `EarlyFin.EarlyFinExample`, `EarlyFin.DelayedEarlyFinExample` and `EarlyFin.DroppedFinExample`).
- The FIN is tested against the window rather than what remains of it, so it may exceed the window by one;
  `SenderWindow.FillExceedsExactly` says exactly when, `SenderWindow.FinExceedsExample` is an instance.
- The window subtraction is unsigned, and every acknowledgment in range overwrites the window. The send bound holds at
  every point of a run exactly if no acknowledgment pulls the right edge below what was sent
  (`SenderWindow.SendBoundExactly`), the subtraction is exact exactly while no more than the window is outstanding
  (`SenderWindow.RemainExactly`), and `SenderWindow.ShrunkWindowExample` breaks both. An old acknowledgment can also
  grant a larger window than the receiver has room for (`SenderWindow.OldWindowExample`); `FlowControl.AckFitsExactly`
  says exactly which acknowledgments keep the sender within what the receiver grants.
- The timer is not zeroed when an acknowledgment empties the queue, so a first retransmission can come right after the
  send (`SenderTimer.EarlyRetransmissionExample`).
- RFC 6298 section 5 doubles the timeout at every expiry. Into a zero window the code does not, and a SYN counts as sent
  into one as soon as the window is filled again, which every tick does (`Retransmission.ZeroWindowNeverBacksOff`); so
  a SYN that is never answered is given up after 9 * rt_timeout ms instead of 511 (`Failure.SynGivesUpExample`).
- A datagram parser promises to check the IP header; the verdict of the header parser is not heeded, so that a wrong
  header checksum passes (`WireFormat.HeaderChecksumIsNotHeeded`). Nor is that of the TCP header parser, so that a header
  claiming fewer than 20 bytes passes (`Rejection.VerdictExactly`).
- Three situations that RFC 793 section 3.2 does not have are reached; in them an endpoint reports no official state
  (`OfficialStates.ReachableStatesAreOfficial`, `OffDiagramStates.AcknowledgedAlone`,
  `OffDiagramStates.ClosedUnacknowledged`, `OffDiagramStates.FinWaitsForWindow`).

## Model

| member | source | states |
|---|---|---|
| EndToEnd.ReceivedIsPrefixOfWritten | sponge/libsponge/tcp_connection.cc:23-137 | Two endpoints over channels that lose, duplicate, delay and reorder, with arbitrary acknowledgment fields: after every run, what each side received is a prefix of what the other wrote, as long as arriving data is less than 2^31 numbers from what was written |
| EndToEnd.ShortStreamsAreNear | sponge/libsponge/wrapping_integers.cc:33-40 | The distance assumption of the end-to-end theorem holds of everything on the wire while a stream stays under 2^31 - 2 bytes |
| ShortStreams.ShortStreamsArriveIntact | sponge/libsponge/tcp_connection.cc:23-137 | The same end-to-end safety with no assumption on distances or flights: it is enough that each application writes fewer than 2^31 - 2 bytes |
| ShortStreams.EventGrowsStream | sponge/libsponge/tcp_connection.cc:23-137 | Every event leaves the outbound stream as it was but for a write, which appends as much of its data as there is room for, and closing, which alone ends it |
| PeerFailure.FailsOnlyByGivingUp | sponge/libsponge/tcp_connection.cc:23-137 | Two endpoints with short streams, over channels that lose, duplicate, delay and reorder whole segments: after every run one of them has failed if and only if one of them gave up on the way |
| CleanDelivery.CleanCloseDelivers | sponge/libsponge/tcp_connection.cc:104-147 | Two endpoints with short streams, over channels that lose, duplicate, delay and reorder whole segments: an endpoint that is inactive without an error has a peer that output its whole stream and counted its FIN |
| CleanDelivery.MoveKeepsSound | sponge/libsponge/tcp_connection.cc:23-137 | Every move of the pair keeps that everything told acknowledges only what its teller has, on the wire and in the queues, and that neither sender holds more acknowledged than its peer has |
| EndToEnd.SegmentReceivedTracks | sponge/libsponge/tcp_receiver.cc:13-53 | One delivery: a segment that carries the sender's bytes leaves the receiver holding nothing but the sender's stream, in place |
| EndToEnd.MoveKeepsInv | sponge/libsponge/tcp_connection.cc:23-137 | Every move of the pair keeps the joint invariant: both retransmission queues, the wire and both receivers |
| FlowControl.NoOverrun | sponge/libsponge/tcp_sender.cc:38-74 | With acknowledgments lost but in order: the unsigned window subtraction is exact until the FIN, all data ever sent lies below bytes_read + capacity except a one-byte probe right there, and acknowledgment numbers are exact |
| FlowControl.NoOverrunIfAcksFit | sponge/libsponge/tcp_sender.cc:60-74 | The same guarantees for acknowledgments lost, repeated and reordered, as long as each that is in range, when it is read, leaves a number and a right edge that the receiver grants by then and does not pull that edge below what was sent |
| FlowControl.AckFitsExactly | sponge/libsponge/tcp_sender.cc:60-74 | An acknowledgment keeps the sender's number and right edge within what the receiver grants, and what was sent within the edge, if and only if it meets that condition |
| Delivery.AllAcknowledgedMeansReceived | sponge/libsponge/tcp_receiver.cc:13-53 | Over every run whose acknowledgments, in any order, with any window, lost and repeated, claim no more than the receiver has when they are read: once the sender's FIN and all before it are acknowledged, the receiver has output the whole stream and counted the FIN, with no condition on FINs |
| Delivery.ReadingStaysWithin | sponge/libsponge/tcp_sender.cc:60-74 | Reading an acknowledgment that claims at most a limit leaves the sender's number at or below that limit |
| FlowControl.RightEdgeNeverMovesLeft | sponge/libsponge/tcp_receiver.cc:13-61 | Between any two points of any run of a receiver, whatever arrives and is read, neither the number it asks for nor that number plus its window moves left |
| FlowControl.EdgeIsReadPlusCapacity | sponge/libsponge/tcp_receiver.cc:55-61 | Acknowledgment number plus window equals 1 + bytes_read + capacity, and one more once the FIN is counted |
| FlowControl.AckTakesGrant | sponge/libsponge/tcp_sender.cc:60-74 | An acknowledgment that is not older than the one held becomes the sender's number and window exactly, and never shrinks the window below what was sent |
| Progress.DeliveryMakesProgress | sponge/libsponge/tcp_sender.cc:60-84 | After any run whose acknowledgments arrive in order, deliver the oldest segment in flight and then the receiver's acknowledgment: all of it is acknowledged if and only if the receiver takes it in, has room for its data and, for a FIN, lost no byte, or is done with its number already beyond it; its data is acknowledged whenever it is taken in and fits |
| Progress.CutOrDropped | sponge/libsponge/stream_reassembler.cc:22-78 | Data from at or below the head that overruns the room does not take the head to its end, and leaves something pending unless it was dropped |
| Progress.LastPieceEmpties | sponge/libsponge/stream_reassembler.cc:70-86 | The last piece of the stream, with nothing lost and everything before it output, leaves nothing pending |
| AckLag.AckIsExact | sponge/libsponge/tcp_receiver.cc:18-51 | After any run with acknowledgments of any content, the raw acknowledgment number is the wrapped 1 + bytes_written + [FIN counted] if and only if the receiver never took in a segment with bytes on both sides of a head that had room |
| AckLag.AckFollowsExactly | sponge/libsponge/tcp_receiver.cc:27-41 | One delivery to an exact receiver leaves the number exact if and only if the segment does not cross the head into room |
| AckLag.AcceptLag | sponge/libsponge/tcp_receiver.cc:27-41 | The number is behind by a lag that never shrinks, and that arises exactly at such a delivery |
| AckLag.UntruncatedIsExact | sponge/libsponge/tcp_receiver.cc:18-51 | The number is exact after every run in which no delivery is truncated, unless nothing on the wire straddles the end of the room |
| AckLag.CrossingExample | sponge/libsponge/tcp_receiver.cc:27-41 | Instance: room for two bytes, three in one segment, the two read and the three delivered again: three written, the number still at the third |
| AckLag.AcknoTellsExpected | sponge/libsponge/tcp_receiver.cc:55-59 | Over the runs that keep the number exact, `ackno()` is the next number expected, and empty exactly before the SYN and when that number wraps to 0 |
| AckExactness.AckFollowsHead | sponge/libsponge/tcp_receiver.cc:28-40 | The number advances by as much as the head does: against one fixed segmentation only the segment with the expected number moves the head |
| Segmentation.PushKeepsEnds | sponge/libsponge/stream_reassembler.cc:22-78 | Unless the write is truncated, head and blocks begin and end only where pushed pieces do; truncated, also where the output is full |
| Segmentation.AddsKeepsSegmented | sponge/libsponge/tcp_sender.cc:94-127 | Retransmitting verbatim and sending only beyond what was sent, no segment ever sent ends inside another |
| CompleteOnClose.EndedMeansComplete | sponge/libsponge/stream_reassembler.cc:80-86 | Over every run, whatever data is delivered, fitting or not, probes included: if every FIN the receiver heeds brings the last byte itself or finds the end secure (last byte held, bytes lost, or stored data that cannot be output whole), an ended inbound stream equals the sender's entire, ended stream |
| CompleteOnClose.PushHolds | sponge/libsponge/stream_reassembler.cc:22-78 | A push keeps every byte held and adds those it brings, unless a write is truncated |
| CompleteOnClose.PushKeepsStuck | sponge/libsponge/stream_reassembler.cc:22-78 | Stored data behind a stretch that does not fit the output stays so under every push, until bytes are lost |
| EarlyFin.EarlyFinExactly | sponge/libsponge/tcp_receiver.cc:43-52 | After any such run let any FIN arrive: no continuation, whatever it delivers, ends the stream early if and only if the FIN brings the last byte (payload that begins inside the window) or the end is secure |
| EarlyFin.FillGaps | sponge/libsponge/stream_reassembler.cc:70-86 | After a misleading FIN, reading and delivering the segments at the head ends the stream without its last byte |
| EarlyFin.SendingKeepsCovered | sponge/libsponge/tcp_sender.cc:29-127 | Every byte cut off the stream is in a segment on the wire |
| EarlyFin.EarlyFinExample | sponge/libsponge/tcp_receiver.cc:43-52 | Instance: SYN, then a bare FIN behind three missing bytes, gives an ended empty stream with the FIN acknowledged |
| EarlyFin.DelayedEarlyFinExample | sponge/libsponge/tcp_receiver.cc:43-52 | Instance: SYN, the second of three bytes, the bare FIN, the first byte: ended with two bytes and the FIN acknowledged, the third never received |
| EarlyFin.DroppedFinExample | sponge/libsponge/stream_reassembler.cc:23-25 | Instance: room for two bytes, and the FIN with the last of four bytes arrives: its payload is dropped, the empty stream ended and the FIN acknowledged |
| Confluence.ReassemblyIsConfluent | sponge/libsponge/stream_reassembler.cc:22-87 | Two runs of fitting pushes that cover the same indices end with the same output, blocks, counter and flags, whatever the order, pieces, duplicates and interleaved reads |
| Confluence.RunCanonical | sponge/libsponge/stream_reassembler.cc:22-87 | After every run of fitting pushes the head is the length of the longest gap-free prefix and the blocks are exactly the maximal runs of pushed indices above it |
| Confluence.CanonicalDetermined | sponge/libsponge/stream_reassembler.hh:60-64 | The pushed index set determines the state; the byte counter counts each index above the head once |
| Confluence.BlocksDetermined | sponge/libsponge/stream_reassembler.hh:18-24 | Ordered, separated, non-empty blocks of one stream are determined by the indices they cover |
| Confluence.LeakBlocksEof | sponge/libsponge/stream_reassembler.cc:71-86 | Once a truncated write has lost bytes, no later pushes and reads ever make the reassembler empty or end the stream |
| Confluence.ProbeLeaks | sponge/libsponge/stream_reassembler.cc:71-78 | A byte pushed at the head while the output is full leaks for ever, whatever is stored: no later pushes and reads bring the counter back to 0 |
| LeakedClose.LeakPreventsCleanClose | sponge/libsponge/tcp_connection.cc:139-147 | Once a truncated write has lost bytes, no run of connection events ends the inbound stream; the endpoint stays active until it is reset or gives up |
| Reassembly.PushLeaks | sponge/libsponge/stream_reassembler.cc:70-78 | A push leaks exactly the bytes by which the run it completes overshoots bytes_read + capacity; the counter stays exact exactly when there are none |
| Reassembly.PushFaithful | sponge/libsponge/stream_reassembler.cc:22-87 | Pushing pieces of one stream, truncated or not, keeps output a prefix of it and every block a piece of it |
| Blocks.InsertAbsorbsNext | sponge/libsponge/stream_reassembler.cc:44-52 | Merging a following block first gives the same set as one ordered insertion pass |
| Blocks.InsertAbsorbsPrevious | sponge/libsponge/stream_reassembler.cc:53-66 | Merging a preceding block first gives the same set as one ordered insertion pass |
| Blocks.InsertSeparated | sponge/libsponge/stream_reassembler.cc:43-68 | Insertion keeps blocks ordered with a gap between any two |
| StreamReassemblers.MergeBlock | sponge/libsponge/stream_reassembler.cc:93-113 | Joins two blocks exactly if they overlap or touch; bytes of the join plus bytes in common equal the bytes of both |
| StreamReassemblers.StreamReassembler.MergeNext | sponge/libsponge/stream_reassembler.cc:45-52 | Leaves no following block in touch, without changing the outcome of the insertion or the accounting |
| StreamReassemblers.StreamReassembler.MergePrevious | sponge/libsponge/stream_reassembler.cc:53-66 | Leaves no block in touch, without changing the outcome of the insertion or the accounting |
| StreamReassemblers.StreamReassembler.PushSubstring | sponge/libsponge/stream_reassembler.cc:22-87 | The in-place loops compute the one-pass insertion, write-out and end-of-stream step |
| StreamReassemblers.StreamReassembler.WriteOut | sponge/libsponge/stream_reassembler.cc:70-78 | Writes what the output takes of the first block and erases the block |
| SenderInvariant.ReachableInv | sponge/libsponge/tcp_sender.cc:29-127 | In every reachable state the queue partitions [una, next_seqno) contiguously, bytes_in_flight is its length, each segment carries its stream bytes, una <= receive_ack < end of the first segment, and next_seqno = [SYN] + bytes read + [FIN] |
| SenderInvariant.FillWindowSends | sponge/libsponge/tcp_sender.cc:29-56 | Filling the window sends contiguous segments cut off the stream in order and never restarts a running timer |
| SenderInvariant.PopAckedExact | sponge/libsponge/tcp_sender.cc:76-83 | Exactly the fully acknowledged segments leave the queue |
| SenderInvariant.AckReceivedKeepsInv | sponge/libsponge/tcp_sender.cc:60-91 | Acknowledgments of any content keep the queue invariant while fewer than 2^31 numbers are in flight |
| SenderWindow.FillIsEager | sponge/libsponge/tcp_sender.cc:29-56 | After every run, whatever the acknowledgments, filling stops only with the FIN sent, the window full, or an open stream drained |
| SenderWindow.SendBound | sponge/libsponge/tcp_sender.cc:29-84 | After every run of non-shrinking acknowledgments at most max(window, 1) is outstanding, plus one once the FIN is sent, and until then the subtraction is exact |
| SenderWindow.SendBoundExactly | sponge/libsponge/tcp_sender.cc:60-84 | The bound holds at every point of a run if and only if no acknowledgment of it pulls the right edge of the window below what was sent |
| SenderWindow.AckBoundExactly | sponge/libsponge/tcp_sender.cc:60-84 | The same for one acknowledgment |
| SenderWindow.RemainExactly | sponge/libsponge/tcp_sender.cc:41 | The unsigned subtraction is exact if and only if no more than the window is outstanding, and otherwise 2^64 too large |
| SenderWindow.ShrunkWindowExample | sponge/libsponge/tcp_sender.cc:67-71 | Instance: two bytes outstanding and the last acknowledgment again with a window of one: the bound fails and 2^64 - 1 is left of the window |
| SenderWindow.OldWindowExample | sponge/libsponge/tcp_sender.cc:67-71 | Instance: all acknowledged, a closed window and two bytes to go; the older acknowledgment of the SYN with a window of two lets both bytes out |
| SenderWindow.FillLoopEager | sponge/libsponge/tcp_sender.cc:38-55 | Whatever is outstanding, within the window or beyond, the loop ends for one of those three reasons |
| SenderWindow.FillLoopBound | sponge/libsponge/tcp_sender.cc:38-55 | From within the bound the loop keeps it, and ends for one of the three reasons |
| SenderWindow.FillExceedsExactly | sponge/libsponge/tcp_sender.cc:38-55 | Filling exceeds the window by one if and only if what is left of an ended stream exactly fills it and does not go out as one segment that is as large as the window |
| SenderWindow.FinExceedsExample | sponge/libsponge/tcp_sender.cc:47-50 | Instance: a window of two, a byte in flight and the last byte to go: three numbers are outstanding |
| SenderWindow.IdleMeansFinSent | sponge/libsponge/tcp_sender.cc:41-55 | Right after filling, an exhausted stream with nothing in flight means that the FIN was sent |
| SenderTimer.BackoffSpacing | sponge/libsponge/tcp_sender.cc:85-107 | While nothing new is acknowledged and the zero-window flag is off, n further retransmissions after the first take at least initial * (2^(n+1) - 2) ms and leave the timeout at initial * 2^(n+1), however sends are interleaved |
| SenderTimer.BackoffTakes | sponge/libsponge/tcp_sender.cc:85-107 | From any point on, the retransmissions of a quiet run take as long as their doubled timeouts add up to, less what the clock showed at the start |
| SenderTimer.EarlyRetransmissionExample | sponge/libsponge/tcp_sender.cc:87-90 | Instance: the SYN is acknowledged just before it would expire, and a byte sent then is sent again after 1 ms |
| SenderTimer.TimeoutDoubles | sponge/libsponge/tcp_sender.cc:94-104 | k retransmissions multiply the 32-bit timeout by 2^k |
| SenderTimer.StepKeepsSchedule | sponge/libsponge/tcp_sender.cc:85-107 | The timeout never exceeds initial * 2^k after k consecutive retransmissions, zero window or not |
| Retransmission.TickRetransmits | sponge/libsponge/tcp_sender.cc:94-107 | A tick that expires with something in flight queues exactly one segment: it starts at the first unacknowledged number, occupies some, and ends beyond what is acknowledged; any other tick queues none |
| Retransmission.RetransmitsOldest | sponge/libsponge/tcp_sender.cc:94-107 | Between any two points of a run in which nothing new is acknowledged, the oldest segment in flight is queued again, verbatim, exactly as often as retransmissions are counted |
| Retransmission.FreshIsContiguous | sponge/libsponge/tcp_sender.cc:29-127 | Between any two points of any run every sequence number in between is sent for the first time exactly once, in order, with the stream's bytes |
| Retransmission.QueueIsFifo | sponge/libsponge/tcp_sender.cc:94-127 | Over every run, what the owner took followed by what is queued equals what was queued at first followed by what was added: nothing is lost, repeated or overtaken |
| Retransmission.NewAckRestartsTimer | sponge/libsponge/tcp_sender.cc:73-90 | A new acknowledgment ends the back-off and sends all that can be sent; the clock is zeroed exactly if something is left in flight |
| Retransmission.StoppedTimerStarts | sponge/libsponge/tcp_sender.cc:105-127 | A stopped timer stays so while nothing is in flight and starts from zero with the next send |
| Retransmission.BackoffFromZero | sponge/libsponge/tcp_sender.cc:85-107 | From a clock at zero, as after a new acknowledgment, a retransmission or a send with the timer stopped, n quiet retransmissions take at least timeout * (2^n - 1) ms |
| Retransmission.ZeroWindowNeverBacksOff | sponge/libsponge/tcp_sender.cc:38-104 | From the moment a zero window is filled until it opens or something new is acknowledged, the timeout never changes, however often it expires |
| Retransmission.SegmentsAreSmall | sponge/libsponge/tcp_sender.cc:41-53 | Over every run no segment queued or in flight carries more than 1000 bytes |
| TcpSenders.TCPSender.SendSegment | sponge/libsponge/tcp_sender.cc:117-127 | Numbers, counts, queues and sends the segment; starts the timer if it is not running |
| TcpSenders.TCPSender.FillWindow | sponge/libsponge/tcp_sender.cc:29-56 | The loop computes the window-filling function and terminates for every window |
| TcpSenders.TCPSender.AckReceived | sponge/libsponge/tcp_sender.cc:60-91 | Computes the acknowledgment function, in the source's order: trim, fill, restart timer |
| TcpSenders.TCPSender.PopAcked | sponge/libsponge/tcp_sender.cc:76-83 | The loop trims the acknowledged prefix of the queue |
| TcpSenders.TCPSender.Tick | sponge/libsponge/tcp_sender.cc:94-107 | Retransmits the oldest segment on expiry and doubles the timeout unless the window is zero |
| TcpSenders.TCPSender.SendEmptySegment | sponge/libsponge/tcp_sender.cc:111-115 | Queues an empty segment with the next number, without putting it in flight |
| TcpReceivers.TCPReceiver.SegmentReceived | sponge/libsponge/tcp_receiver.cc:13-53 | Computes the delivery function: greet, accept, close |
| TcpReceivers.TCPReceiver.Accept | sponge/libsponge/tcp_receiver.cc:27-41 | Pushes at the unwrapped index and advances the number only for the expected segment |
| TcpReceivers.TCPReceiver.Close | sponge/libsponge/tcp_receiver.cc:42-52 | Counts the FIN at most once and ends the stream when nothing is stored |
| TcpReceivers.TCPReceiver.WindowSize | sponge/libsponge/tcp_receiver.cc:61 | Capacity minus what is buffered |
| ConnectionInvariant.AfterKeepsInv | sponge/libsponge/tcp_connection.cc:23-147 | Every run of events, with arbitrary arriving segments, keeps the connection invariant that ties activity, lingering and errors to both halves |
| ConnectionLifetime.CleanCloseIsSound | sponge/libsponge/tcp_connection.cc:104-147 | Absent reset and giving up, an endpoint is inactive exactly when both streams are done, all is acknowledged and lingering is over; then its whole stream and FIN were sent and acknowledged |
| ConnectionLifetime.FirstToCloseLingers | sponge/libsponge/tcp_connection.cc:139-147 | If the outbound stream is done before the inbound one ends, the endpoint is active, absent an error, exactly until the inbound stream has ended, everything is acknowledged and the clock shows 10 * rt_timeout ms or more since a segment arrived, however long it was quiet before |
| ConnectionLifetime.ClockShowsQuiet | sponge/libsponge/tcp_connection.cc:23-79 | Along every run an active endpoint's clock shows the milliseconds ticked since a segment last arrived |
| ConnectionLifetime.LastToCloseDoesNotLinger | sponge/libsponge/tcp_connection.cc:139-147 | If the inbound stream has ended and lingering is off, as it is when it ended while the outbound stream was open and the SYN acknowledged, the endpoint is inactive exactly when its FIN was sent and everything is acknowledged |
| ConnectionLifetime.SilentPeerEndsConnection | sponge/libsponge/tcp_connection.cc:70-79 | With something in flight and a silent peer, 511 * rt_timeout ticks of at least 1 ms make the endpoint inactive, whatever the application does |
| ConnectionLifetime.SilenceSpendsPatience | sponge/libsponge/tcp_sender.cc:94-107 | A measure over retransmissions and time left decreases with every tick and is never increased by writes, reads or closing |
| Acknowledging.AcknowledgmentsAreTruthful | sponge/libsponge/tcp_connection.cc:110-122 | Whatever arrives, every acknowledging segment claims at most the SYN, the bytes written inbound and a counted FIN |
| Acknowledging.ArrivalIsAnswered | sponge/libsponge/tcp_connection.cc:54-58 | Every arriving segment that occupies sequence space, is no reset and is not dropped in SYN_SENT is answered with the current acknowledgment number and window, unless there was no SYN yet or that number wraps to 0 |
| Acknowledging.SynIsAcknowledgedExactly | sponge/libsponge/tcp_receiver.cc:13-59 | A fresh endpoint answers a SYN, with whatever data and FIN, with one segment; that acknowledges it exactly unless the SYN, the bytes there is room for and a FIN with nothing pending take the number to 0 |
| Acknowledging.GivingUpSendsReset | sponge/libsponge/tcp_connection.cc:126-137 | Giving up makes the endpoint inactive and queues at least one segment, all of them resets |
| Handover.DrainStamps | sponge/libsponge/tcp_connection.cc:110-122 | Draining moves every segment in order and changes no field but ack, ackno, win and rst; rst is set exactly if a reset is due |
| Handover.NothingIsHeldBack | sponge/libsponge/tcp_connection.cc:104-123 | After every run an endpoint without error has nothing waiting in its sender's queue and, once open, has sent all it can: the FIN is out, the window exactly full, or an open stream drained |
| Handover.TicksRetransmit | sponge/libsponge/tcp_connection.cc:70-124 | After every run, a tick of an active endpoint hands over exactly one segment, the oldest unacknowledged one, if the timer expires, also when giving up; and otherwise none |
| Handover.AllInFlightWasHandedOver | sponge/libsponge/tcp_connection.cc:104-124 | Over every run the owner gets what is handed over once and in order, and, absent an error, everything in flight is among it |
| Handover.SilentUntilOpened | sponge/libsponge/tcp_connection.cc:104-108 | Over every run the SYN was sent if and only if the endpoint was told to connect or got a SYN while alive and not open; until then it queues nothing |
| Failure.ResetsExactly | sponge/libsponge/tcp_connection.cc:28-52 | An arriving segment fails an active endpoint, making it inactive and queueing nothing, if and only if it has RST, is not the SYN that opens a passive endpoint, and, while our SYN is unacknowledged, has ACK and no payload; a reset without ACK then leaves sender, queue and activity alone |
| Failure.DroppedExactly | sponge/libsponge/tcp_connection.cc:29-32 | Exactly an acknowledgment with payload while our SYN is unacknowledged is dropped, with only the clock zeroed |
| Failure.ArrivalIsTakenIn | sponge/libsponge/tcp_connection.cc:34-38 | Every other arriving segment is taken in by the receiver, and its number and window by the sender if it acknowledges something sent |
| Failure.ErrorsHaveACause | sponge/libsponge/tcp_connection.cc:45-79 | Over every run an endpoint has failed if and only if such a reset arrived or it gave up |
| Failure.GivesUpAtNinth | sponge/libsponge/tcp_connection.cc:70-79 | Over every run an endpoint gives up at the ninth retransmission since anything new was acknowledged, exactly; a segment waiting for the owner is a reset only then, and has nothing but number, flags, acknowledgment and window set |
| Failure.ResetsOnlyAfterGivingUp | sponge/libsponge/tcp_connection.cc:119-137 | Of what one event queues, all are resets if the endpoint has given up by then, and none otherwise |
| Failure.PatienceLasts | sponge/libsponge/tcp_connection.cc:70-79 | With something in flight and the back-off at its start, an endpoint to which nothing new is acknowledged and which is not reset stays active for 511 * rt_timeout ms less what its clock shows, unless it probes a zero window; and for 9 * rt_timeout in any case |
| Failure.SynGivesUpExample | sponge/libsponge/tcp_connection.cc:70-79 | Instance: a SYN that is never answered, one tick to fill the zero window, and nine of rt_timeout: the endpoint has given up, so that nine times is exact |
| Failure.NewAckRenewsPatience | sponge/libsponge/tcp_sender.cc:73-90 | A new acknowledgment puts an endpoint at the start of the back-off, with its clock at zero if something is left in flight |
| TcpConnections.TCPConnection.SegmentReceived | sponge/libsponge/tcp_connection.cc:23-59 | Computes the arrival function: clock, filter, both halves, reaction |
| TcpConnections.TCPConnection.React | sponge/libsponge/tcp_connection.cc:40-58 | Passive open, reset handling, answering |
| TcpConnections.TCPConnection.SegmentSends | sponge/libsponge/tcp_connection.cc:104-124 | Fills the window, stamps and moves every queued segment, then checks for a clean shutdown |
| TcpConnections.TCPConnection.Drain | sponge/libsponge/tcp_connection.cc:110-122 | The loop stamps and moves all queued segments in order |
| TcpConnections.TCPConnection.CleanShutdown | sponge/libsponge/tcp_connection.cc:139-147 | Turns lingering off and deactivates under the source's conditions |
| TcpConnections.TCPConnection.UncleanShutdown | sponge/libsponge/tcp_connection.cc:126-137 | Marks both streams failed, deactivates, and sends a reset if asked to |
| TcpConnections.TCPConnection.Tick | sponge/libsponge/tcp_connection.cc:70-79 | Advances both clocks, gives up after too many retransmissions, sends |
| TcpConnections.TCPConnection.Write | sponge/libsponge/tcp_connection.cc:63-67 | Writes to the outbound stream, returns how much was taken, sends |
| TcpConnections.TCPConnection.SenderState | sponge/libsponge/tcp_helpers/tcp_state.cc:94-110 | The summary computed from the counters of the sender object |
| StateSummary.SummaryIsFaithful | sponge/libsponge/tcp_helpers/tcp_state.cc:94-110 | The summary derived from counters equals the one told by what was sent and acknowledged |
| StateSummary.SummaryIsMonotone | sponge/libsponge/tcp_helpers/tcp_state.cc:94-110 | Along every run the summary only moves forward |
| OfficialStates.ReachableStatesAreOfficial | sponge/libsponge/tcp_helpers/tcp_state.cc:17-80 | A reachable endpoint reports the official state its history tells if and only if it failed, or its raw acknowledgment number is not 0 and it is in none of three named situations; in those it reports no official state |
| OffDiagramStates.AcknowledgedAlone | sponge/libsponge/tcp_connection.cc:23-59 | Reached from every fresh endpoint with initial number 0: a bare acknowledgment of our SYN leads to no official state |
| OffDiagramStates.ClosedUnacknowledged | sponge/libsponge/tcp_connection.cc:23-59 | Reached likewise: a peer that opens and closes without acknowledging our SYN leads to no official state |
| OffDiagramStates.FinWaitsForWindow | sponge/libsponge/tcp_connection.cc:23-59 | Reached likewise: closing with the window exactly full, and then the peer's FIN, leads to no official state |
| OffDiagramStates.FreshIsReady | sponge/libsponge/tcp_connection.hh:14-36 | Every fresh endpoint with initial number 0 and room to send meets what those runs start from |
| OfficialStates.EndedIsClosedOrReset | sponge/libsponge/tcp_helpers/tcp_state.cc:61-92 | An ended endpoint reports RESET after an error, and otherwise CLOSED exactly unless its raw acknowledgment number is 0 |
| WrappingIntegers.UnwrapIsClosest | sponge/libsponge/wrapping_integers.cc:33-40 | unwrap returns a closest 64-bit preimage exactly when the first preimage at or after the checkpoint is a 64-bit number |
| WrappingIntegers.UnwrapWrap | sponge/libsponge/wrapping_integers.cc:16-40 | A number within 2^31 of the checkpoint survives wrapping and unwrapping |
| WrappingIntegers.WrapCongruent | sponge/libsponge/wrapping_integers.cc:16-21 | Two numbers wrap alike exactly when they differ by a multiple of 2^32 |
| Streams.StreamIsFifo | sponge/libsponge/byte_stream.cc:17-66 | Along any run the reads return the accepted bytes once each, in order, and what is left stays within the capacity |
| Buffers.BufferList.RemovePrefix | sponge/libsponge/util/buffer.cc:51-65 | Drops exactly the first n bytes through empty and partly consumed chunks; reports failure, with everything dropped, exactly when there are fewer |
| Buffers.BufferList.Append | sponge/libsponge/util/buffer.cc:15-19 | Contents become the old contents followed by the appended ones |
| Buffers.BufferList.Concatenate | sponge/libsponge/util/buffer.cc:34-41 | Returns the contents as one string |
| Buffers.BufferList.Size | sponge/libsponge/util/buffer.cc:43-49 | Returns the length of the contents |
| Buffers.ByteStream.Write | sponge/libsponge/byte_stream.cc:17-36 | Accepts as much of the data as fits and returns how much |
| Buffers.ByteStream.PeekOutput | sponge/libsponge/byte_stream.cc:39-45 | Returns the next accepted bytes not yet popped |
| Buffers.ByteStream.PopOutput | sponge/libsponge/byte_stream.cc:48-55 | Pops as many bytes as there are, up to the request; the chunks keep holding exactly the rest |
| Buffers.ByteStream.Read | sponge/libsponge/byte_stream.cc:60-66 | Returns and pops the next bytes |
| Checksum.StoredChecksumVerifies | sponge/libsponge/util/util.cc:87-108 | Computed with a zeroed field at an even offset and stored there, the checksum makes the whole data check to 0, up to the 32-bit bound |
| Checksum.ChecksExactly | sponge/libsponge/util/util.cc:87-108 | Data checks to 0 exactly when its word sum is a positive multiple of 65535 |
| Checksum.AddIsChunkIndependent | sponge/libsponge/util/util.cc:89-98 | How data is cut into chunks does not matter, not even at odd places |
| Checksum.FoldPreserves | sponge/libsponge/util/util.cc:100-108 | Folding preserves the sum modulo 65535 and gives 0 only for 0 |
| Checksum.InternetChecksum.AddBytes | sponge/libsponge/util/util.cc:89-98 | The loop adds every byte at its parity, on 32 bits |
| Checksum.InternetChecksum.FinalValue | sponge/libsponge/util/util.cc:100-108 | The loop folds to 16 bits and complements |
| Parsing.TakeWritten | sponge/libsponge/util/parser.cc:26-60 | Reading a written integer gives it back and leaves what follows |
| Parsing.NetParser.ParseInt | sponge/libsponge/util/parser.cc:26-43 | Reads a big-endian integer, or 0 after an error, and consumes exactly its bytes |
| Parsing.NetParser.RemovePrefix | sponge/libsponge/util/parser.cc:45-51 | Consumes n bytes or records that there are fewer |
| Parsing.UnparseInt | sponge/libsponge/util/parser.cc:53-60 | Shifting and masking append the big-endian bytes |
| TcpHeaders.HeaderRoundTrip | sponge/libsponge/tcp_helpers/tcp_header.cc:17-78 | A header with 5 <= doff <= 15 is read back exactly and exactly the header is consumed |
| TcpHeaders.HeaderRejects | sponge/libsponge/tcp_helpers/tcp_header.cc:17-48 | The header parser accepts exactly the inputs that hold a header as long as they claim, of at least 20 bytes |
| TcpHeaders.SerializeHeader | sponge/libsponge/tcp_helpers/tcp_header.cc:51-78 | Appending the fields one by one and expanding gives the header layout |
| TcpHeaders.ParseHeaderFrom | sponge/libsponge/tcp_helpers/tcp_header.cc:17-48 | Consuming the fields one by one gives header, rest and verdict |
| TcpSegments.SegmentRoundTrip | sponge/libsponge/tcp_helpers/tcp_segment.cc:12-45 | A serialized segment parses, checksum included, to itself with the checksum filled in |
| TcpSegments.ParseSegmentFrom | sponge/libsponge/tcp_helpers/tcp_segment.cc:12-23 | Checks the sum over pseudo-header and data first, then parses |
| TcpSegments.SerializeSegmentTo | sponge/libsponge/tcp_helpers/tcp_segment.cc:30-45 | Fills in the checksum computed over the header with a zeroed field and the payload |
| Ipv4.DatagramRoundTrip | sponge/libsponge/tcp_helpers/ipv4_datagram.cc:11-41 | A serialized datagram parses, header checksum included, to itself with the checksum filled in |
| Ipv4.ParseIpFrom | sponge/libsponge/tcp_helpers/ipv4_header.cc:23-75 | Reads the fields and judges them in the source's order |
| Ipv4.SerializeIpHeader | sponge/libsponge/tcp_helpers/ipv4_header.cc:78-110 | Appending the fields one by one and expanding gives the header layout |
| Ipv4.ParseDatagramFrom | sponge/libsponge/tcp_helpers/ipv4_datagram.cc:11-21 | Compares the rest with the payload length the header claims; the header verdict itself is not looked at |
| Ipv4.SerializeDatagramTo | sponge/libsponge/tcp_helpers/ipv4_datagram.cc:23-41 | Fails exactly if the payload has not the claimed length; otherwise fills in the header checksum |
| WireFormat.TcpLayout | sponge/libsponge/tcp_helpers/tcp_header.cc:17-40 | Whatever the data, every field of a TCP header is read as the big-endian number at its offset, and every flag as its bit |
| WireFormat.IpLayout | sponge/libsponge/tcp_helpers/ipv4_header.cc:31-47 | The same for every field of an IP header |
| WireFormat.PseudoChecksumIsPseudoHeader | sponge/libsponge/tcp_helpers/ipv4_header.cc:125-131 | What the IP header contributes to the segment's checksum is the word sum of the twelve bytes of the pseudo-header |
| WireFormat.IpAcceptsExactly | sponge/libsponge/tcp_helpers/ipv4_header.cc:23-75 | The IP header parser accepts exactly data of the length told, with a version 4 header of at least 20 bytes, as long as it claims, whose words sum up to a positive multiple of 65535 |
| WireFormat.HeaderChecksumIsNotHeeded | sponge/libsponge/tcp_helpers/ipv4_datagram.cc:11-21 | Every datagram with a well-formed header parses, whatever its header checksum, which only the header parser judges |
| Rejection.VerdictExactly | sponge/libsponge/tcp_helpers/tcp_segment.cc:12-23 | A segment is rejected for its checksum if and only if pseudo-header and data do not sum up to a positive multiple of 65535; otherwise for running out of data if and only if the header it claims does not fit |
| Rejection.DamagedWordExactly | sponge/libsponge/util/util.cc:87-108 | Data that checks out is rejected with a 16-bit word replaced if and only if the new word differs from the old modulo 65535 or nothing is left of the sum |
| Rejection.DamagedByteReachesNobody | sponge/libsponge/tcp_helpers/tcp_over_ip.cc:43-47 | A sound datagram with any one byte of its segment changed is unwrapped by no endpoint, bound or listening, and changes no configuration |
| Rejection.DamagedWordReachesNobody | sponge/libsponge/tcp_helpers/tcp_over_ip.cc:43-47 | The same with a 16-bit word replaced by one that differs modulo 65535 |
| Rejection.WrappedIsSound | sponge/libsponge/tcp_helpers/tcp_over_ip.cc:75-90 | Every wrapped segment is sound in that sense |
| Rejection.BoundHearsPeerExactly | sponge/libsponge/tcp_helpers/tcp_over_ip.cc:26-71 | A bound endpoint delivers a segment if and only if it came undamaged from its peer's address and port to its own, and its configuration stays |
| Rejection.ListenerHearsOnePeer | sponge/libsponge/tcp_helpers/tcp_over_ip.cc:26-71 | Over every run of datagrams a listening endpoint delivers nothing and stays as it is, or delivers a SYN first, is bound by it for good, and delivers only what its sender sends |
| Encapsulation.EncapsulationRoundTrip | sponge/libsponge/tcp_helpers/tcp_over_ip.cc:26-90 | Wrapped, serialized, parsed and unwrapped by the mirrored or listening endpoint, a segment comes back with header (up to ports and checksum) and payload, both checksums verifying |
| Encapsulation.TCPOverIPv4Adapter.UnwrapTcpInIp | sponge/libsponge/tcp_helpers/tcp_over_ip.cc:26-71 | Filters by address, protocol, checksum and ports, and binds a listening endpoint to the peer of a SYN |
| Encapsulation.TCPOverIPv4Adapter.WrapTcpInIp | sponge/libsponge/tcp_helpers/tcp_over_ip.cc:75-90 | Sets ports, addresses and length and serializes under the pseudo-header sum |

## Left out

- EndToEnd.ReceivedIsPrefixOfWritten: assumes that arriving data lies within 2^31 sequence numbers of what the receiver has written and that fewer than 2^31 numbers are in flight, since 32-bit numbers are ambiguous beyond; `ShortStreams.ShortStreamsArriveIntact` needs neither for streams under 2^31 - 2 bytes.
- AckLag.AckIsExact: streams are under 2^31 - 2 bytes and the receive capacity under 2^16.
- FlowControl.NoOverrun: the receive capacity is under 2^16, because the advertised window is cut to 16 bits, and streams are under 2^31 - 2 bytes; an old acknowledgment that arrives late can move the window left, or right of the receiver's room (`SenderWindow.OldWindowExample`); for those, `FlowControl.NoOverrunIfAcksFit` has the condition on each.
- CompleteOnClose.EndedMeansComplete: asks of every FIN that it is proper; for any other FIN `EarlyFin.EarlyFinExactly` gives a run that ends the stream early.
- Delivery.AllAcknowledgedMeansReceived: acknowledgments that claim more than the receiver has are excluded, since the code takes any number up to next_seqno at its word; streams are under 2^31 - 2 bytes and the receive capacity under 2^16.
- CleanDelivery.CleanCloseDelivers: segments arrive as they were sent and streams are under 2^31 - 2 bytes; forged acknowledgments are believed by the code.
- Progress.DeliveryMakesProgress: leaves out the case that the number told after the delivery wraps to 0, in which no acknowledgment is sent at all.
- SenderWindow.SendBound: acknowledgments that pull the right edge below what was sent are excluded; the bound fails for each of them (`SenderWindow.SendBoundExactly`).
- SenderTimer.BackoffSpacing: counts from the first retransmission; from the first send it is false (`SenderTimer.EarlyRetransmissionExample`), and `SenderTimer.BackoffTakes` has the general statement. Only up to timeouts that fit 32 bits.
- Retransmission.RetransmitsOldest: runs that end with no more than 2^32 numbers in flight, since a new segment is told from the oldest by its number.
- Retransmission.BackoffFromZero: only up to timeouts that fit 32 bits, and with the zero-window flag off.
- Failure.PatienceLasts: an endpoint that probes a zero window meanwhile is only promised 9 * rt_timeout ms, since its timeouts do not double.
- Handover.NothingIsHeldBack: after an error, what the sender still holds may stay there until the next event; streams are under 2^64 - 2 bytes.
- Rejection.DamagedWordExactly: a word of zeros that becomes one of ones, or the reverse, goes unnoticed, as it does under every Internet checksum.
- TcpConnections.TCPConnection.SegmentReceived: the destructor's reset is not part of this model.
- Writes after `end_input` are not refused by the stream; runs assume that the application makes none.
- The `length` field of a block is the length of its data; the reassembler's unused `_buffer` and the unused `_is_passive_close` are dropped.
- Headers are values that methods return anew, where the source assigns their fields in place; storage shared between copies of a buffer is not modelled.
- Sockets, TUN/TAP, the event loop, threads, the applications and the lossy adapter: channels are nondeterministic instead. The random initial sequence number is a parameter.
- Addresses are 32-bit numbers and ports 16-bit ones; address parsing and DNS are not part of this model.
- `NetworkInterface` erases from containers while iterating over them, which has no defined meaning to be faithful to; the router, Ethernet and ARP would only add easy members.
- Serializing a header that is too short, which throws in the source, is a precondition; text output is dropped.
