# A verified model of lneto

lneto is a heapless network stack in Go: TCP, UDP, IPv4, DNS and HTTP/1 over caller-owned buffers. This
project models its most intricate parts in Dafny 4.11 and proves what they are for. `dafny verify
dfyconfig.toml` checks everything.

**TCP data path.** `SeqNum` gives 32-bit sequence arithmetic an exact meaning on unwrapped positions.
`Rings.Ring` is the byte ring of internal/ring.go, proved to be a FIFO with a staging area behind it.
`RingTransmit.RingTx` is the transmit queue: offsets into one buffer, proved to act on `TxQueue.TxView`, the
pair of sent and unsent bytes with the spans of sequence space they went out in. `Reassembling.Reassembly` keeps
sequence numbers and no offsets; `RxStream` proves why that works. `Control` is the connection state machine as
functions, carried out by `ControlBlocks.ControlBlock`; `ControlRuns` proves safety over all its runs and
`ConnectionEnds` what its closing states do and do not mean. `Offers` says what the next segment acknowledges and how
much it carries, `Recovery` how duplicate ACKs, stray segments and bad ACKs are answered, what is let in and out, and
that data to read, data held and the window make up the buffer.
`HandlerSpec` composes these into what a connection does, carried out by `Handlers.Handler`; `HandlerEnds` gives runs
of the handler that end where they should not. `StreamEnd` follows one endpoint as a reader and `Writers` as a writer,
through every close, on what `Endpoint` and `SendQueue` prove of single arrivals and of the queue. `NetworkRuns` puts
two of them on a network that loses, duplicates and reorders segments: each user reads a prefix of what the other
wrote, over streams of any length, and is told of the end only after all of it. `Handshake` proves that opening a
connection leads there.

**HTTP.** `HttpHead` and `HttpStream` prove that a header parsed in pieces is the header parsed at once, and
exactly when that fails for responses; `HttpHeaders.HeaderV1` carries the parser out. `HttpGrammar` states on positions
which bytes are a header, and proves that the parser accepts exactly these; `HttpRender` that what is written is read
back. `Multiparts` parses multipart bodies in pieces, through a small buffer. `Routes` proves the router's pattern score
sound for language inclusion, `RoutePatterns` what a written pattern matches and binds, and `Muxes.MuxSlice` that lookup never prefers a strictly more general route. `ExchangePool` is the
router's pool of exchanges as a step system, safe and losing no connection in every interleaving; `Routers.Router`
carries its steps out.
`PercentUrl` is URL decoding, in place and not.

**The rest.** `DnsWire`, `DnsMessages` and `DnsCodec` prove the DNS codec's round trip, `DnsPointers` what
compressed names spell, and `DnsFaults` when decoding goes wrong. `Checksums` proves that
every packet sent passes the receiver's checksum tests. `UdpHandlers` proves the UDP handler a pair of datagram
queues.

An object the source updates in place is a class whose methods are each proved against a function of its abstract
value (`View`, `Tcb`, `State`, `Contents`); the properties are lemmas about those functions. Bytes are integers
below 256, views into buffers are (start, length) pairs, and slices a call fills are returned as values unless the
call works in place, in which case the array is kept.

## Where the code falls short

Each of these is a property one would expect that the code does not have, with the exact condition under which it
does.

- A rewind to a queued packet that is not the oldest and lies at buffer offset 0 marks the sent region empty:
  `RingTransmit.RewindToIndexZeroReached` is a run to one, and `RingTransmit.RingTx.RetransmitFrom` keeps the queue valid if and
  only if the packet is the oldest or at another offset.
- A rewind into the middle of a packet moves SND.NXT there and the queue to the packet's start
  (`HandlerEnds.RewindMidPacket`); `SendQueue.RewindExactly` has the condition.
- Modular order is not antisymmetric half a turn apart (`SeqNum.OrderAntisymmetric`), so one acknowledgement value
  moves SND.UNA past SND.NXT (`ConnectionEnds.HalfTurnReached`, `ControlRuns.HalfTurnExactly`).
- Receiving in TIME-WAIT reaches a panic (`ConnectionEnds.PanicReached`, `ControlRuns.RecvPanicsExactly`,
  `ConnectionEnds.HandlerPanicsExactly`); an offered segment with FIN and data is refused exactly when no sequence
  number is left for the FIN (`ConnectionEnds.FinWithDataRefused`, `ControlRuns.NoSelfRejection`).
- The closing states promise more than they keep. FIN-WAIT-2 means the FIN was acknowledged exactly when SND.NXT was
  not rewound below it (`ConnectionEnds.FinWait2Unacked`, `ControlRuns.FinWait2Exactly`, `ControlRuns.FinAheadExactly`); TIME-WAIT and LAST-ACK are
  entered and left on other ACKs (`ConnectionEnds.TimeWaitExactly`, `ConnectionEnds.LastAckExactly`); a FIN during
  the handshake is acknowledged and forgotten (`ConnectionEnds.FinReceivedExactly`).
- A close that finds the packet list full leaves its FIN pending (`HandlerEnds.FinDeferred`,
  `HandlerEnds.FinAtOnceExactly`). Then a write still succeeds (`HandlerEnds.WriteAfterClose`,
  `HandlerEnds.WriteAfterCloseExactly`), and a rewind sends the FIN ahead of written data
  (`HandlerEnds.FinBeforeData`, `Writers.FinLastExactly`), after which SND.NXT and the queue disagree
  (`HandlerEnds.OutOfStep`).
- A full packet list holds back acknowledgements too, when there is room for data to go with them
  (`HandlerEnds.AckHeldBack`, `Offers.SendsExactly`).
- A keepalive probe is not answered, unlike every other empty segment out of place (`Recovery.ProbeUnanswered`).
- Data that repeats an acknowledgement counts as a duplicate, and three such segments cause a retransmission; section 2
  of RFC 5681 asks for no data and the same window (`Recovery.DataCounted`, `Recovery.CountsAsStandard`).
- A read for no bytes returns end of file while there is data (`HandlerEnds.EofWithBytesUnread`,
  `StreamEnd.EmptyReadEof`), and the last ACK of TIME-WAIT drops data not yet read (`HandlerEnds.UnreadDropped`,
  `StreamEnd.LastAckDrops`).
- An aborted connection keeps its held segments and a zero rcv.NXT, so a later read can hand out bytes that were never
  received (`HandlerEnds.AbortedReadExample`, `StreamEnd.AbortedReadExactly`).
- A response without a status code has its first line parsed again after every pause, and stores fields twice
  (`HttpStream.NoCodeRepeats`, `HttpStream.ResponseExactly`).
- A pattern with `{$}` before its end matches nothing and may score low (`Routes.ImpossibleScoresLow`); the score is
  sound exactly for all others (`Routes.SpecificityExactly`). A `{}` wildcard is bound but not counted when path
  values are sized (`Muxes.UnnamedNeverServed`, `Routes.CountBalance`, `Muxes.ServedExactly`).
- A datagram over 65527 bytes is queued and then panics or is sent short (`UdpHandlers.OversizedSends`,
  `UdpHandlers.DrainExactly`).
- The documentation of `Shutdown` promises that connections are refused; without fixed workers they are not
  (`ExchangePool.ShutdownRefusesExactly`).
- A correct IPv4 header with options is refused, as only its first 20 bytes are summed (`Checksums.OptionsRefused`,
  `Checksums.OptionsExactly`), and so is a UDP datagram sent without a checksum (`Checksums.UncheckedRefused`,
  `Checksums.UncheckedExactly`).
- A DNS compression pointer to offset zero is taken for a terminator, one byte long (`DnsFaults.PointerToZero`,
  `DnsFaults.NameEndExactly`).
- Decoding some DNS messages panics (`DnsFaults.TruncatedAnswerPanics`, `DnsFaults.LargestPanics`,
  `DnsFaults.DecodePanicsExactly`).
- The documentation of `DecodeMessage` promises that a nil section is skipped; it is passed over, and the next
  section starts in it (`DnsFaults.NilAnswersShift`, `DnsMessages.DecodeInvertsEncode`). A capacity is compared in 16
  bits (`DnsMessages.LargeCapacityKeepsNothing`, `DnsMessages.IncompleteExactly`).

## Model

| member | source | states |
|---|---|---|
| `SeqNum.WrapIsMod` | tcp/valuesize.go:27-60 | truncation to 32 bits is remainder modulo 2^32, for every integer |
| `SeqNum.OrderExact` | tcp/valuesize.go:27-34 | for positions less than half a turn apart, modular less-than, less-or-equal and equality are those of the positions |
| `SeqNum.OrderAntisymmetric` | tcp/valuesize.go:27-29 | two numbers precede each other at once if and only if they are exactly 2^31 apart |
| `SeqNum.WindowExact` | tcp/valuesize.go:43-45 | the window test is an interval test on positions, as long as the window leaves room for the distance |
| `SeqNum.SizeofExact` | tcp/valuesize.go:53-55 | the size between two numbers is the distance of their positions, for every distance below a turn |
| `SeqNum.AddExact` | tcp/valuesize.go:48-50 | adding a size moves the position by it, across wrap-around |
| `SeqNum.AddThenSizeof` | tcp/valuesize.go:48-55 | Sizeof inverts Add for every size |
| `Rings.Ring.Write` | internal/ring.go:60-94 | appends the bytes to the contents for every wrap position, takes them off the free region, fails exactly on no data or no room and then changes nothing |
| `Rings.Ring.WriteLimited` | internal/ring.go:39-51 | appends when the bytes fit before the limit; the errors exactly; nothing changes otherwise |
| `Rings.Ring.PeekWrite` | internal/ring.go:113-126 | stages bytes at a gap in the free region exactly when they fit, leaving contents and write position alone |
| `Rings.Ring.Commit` | internal/ring.go:131-146 | reveals the next staged bytes as contents; fails exactly on a non-positive count or one past the free region |
| `Rings.Ring.ReadDiscard` | internal/ring.go:151-167 | drops from the front and returns the space to the end of the free region; the write position stays |
| `Rings.Ring.ReadPeek` | internal/ring.go:184-187 | the first bytes of the contents, without consuming them; EOF exactly on an empty ring |
| `Rings.Ring.ReadAt` | internal/ring.go:170-181 | the slice of the contents at an offset, or an error exactly when it reaches past them |
| `Rings.Ring.Read` | internal/ring.go:190-219 | takes the front of the contents; freed bytes go behind the staged ones; the write position stays |
| `Rings.Ring.OnReadEnd` | internal/ring.go:315-327 | bookkeeping after a read: contents drop, free region grows, write position stays, empty is marked |
| `Rings.Ring.Emptied` | internal/ring.go:231-237 | an emptied ring keeps its write position and staged bytes |
| `Rings.Ring.Reset` | internal/ring.go:222-225 | nothing buffered, all of the buffer free |
| `Rings.Ring.Free` | internal/ring.go:250-264 | size less contents, and the length of the free region, in every layout |
| `Rings.Ring.Buffered` | internal/ring.go:245-247 | length of the contents |
| `Rings.Ring.IsFull` | internal/ring.go:305-307 | full exactly when no free byte is left |
| `Rings.Ring.IsEmpty` | internal/ring.go:310-312 | empty exactly when there are no contents |
| `Rings.Ring.WriteStart` | internal/ring.go:98-106 | the index where the next byte goes: the slot as far past the read offset as there are contents |
| `Rings.Ring.AddOff` | internal/ring.go:331-337 | stays within the buffer and is zero only for zero, the sentinel |
| `Rings.Ring.StageFillReveal` | internal/ring.go:113-146 | staging past a gap, filling the gap and committing yields contents, gap and staged bytes in order |
| `Rings.Ring.WritePosAdvances` | internal/ring.go:60-146 | a write or commit of n bytes moves the write position on by n, modulo the size |
| `TxQueue.TxWriteError` | tcp/txqueue.go:103-115 | a write is taken if and only if it is not empty and fits the free space |
| `TxQueue.Holding` | tcp/txqueue.go:354-362 | the first packet whose span contains the sequence number, and that none before it does |
| `TxQueue.StartingAt` | tcp/txqueue.go:125-137 | the first packet that starts at the sequence number |
| `TxQueue.InSpan` | tcp/txqueue.go:354-362 | the two modular tests of the packet search are membership in the packet's span |
| `TxQueue.EndOfChain` | tcp/txqueue.go:272-278 | the end sequence number is the start of the oldest packet plus all sizes |
| `TxQueue.MakeKeeps` | tcp/txqueue.go:119-169 | a new packet keeps the queue coherent if and only if it starts at the end sequence number |
| `TxQueue.DropChained` | tcp/txqueue.go:399-434 | dropping acknowledged numbers leaves a chain that starts where they end, ends where it did and is shorter by their count |
| `TxQueue.DropTo` | tcp/txqueue.go:399-434 | an acknowledgement into a packet trims that packet and keeps the later ones as they are |
| `TxQueue.AckKeeps` | tcp/txqueue.go:172-189 | an acknowledgement keeps the queue coherent, the end sequence number, and makes the acknowledged number the new start |
| `TxQueue.RewindKeeps` | tcp/txqueue.go:238-260 | a rewind loses no byte: sent and unsent together are what they were, and the chain stays gapless |
| `TxQueue.ResendBytes` | tcp/txqueue.go:125-137 | data sent again is the bytes that went out under its number, up to the end of their packet |
| `RingTransmit.RingTx.constructor` | tcp/txqueue.go:52-67 | an empty queue over the buffer |
| `RingTransmit.RingTx.Reset` | tcp/txqueue.go:52-67 | an empty queue again |
| `RingTransmit.RingTx.Write` | tcp/txqueue.go:103-115 | appends to the unsent bytes exactly when they fit, for every layout of the buffer |
| `RingTransmit.RingTx.Free` | tcp/txqueue.go:85-88 | free, sent and unsent bytes add up to the buffer size in every valid state |
| `RingTransmit.RingTx.BufferedUnsent` | tcp/txqueue.go:91-94 | number of unsent bytes |
| `RingTransmit.RingTx.BufferedSent` | tcp/txqueue.go:97-100 | number of sent bytes |
| `RingTransmit.RingTx.MakePacket` | tcp/txqueue.go:119-169 | moves a prefix of the unsent bytes to sent under a new span, or reads the packet queued at the number again; the queue stays valid if and only if no packet is made or it continues the others |
| `RingTransmit.RingTx.CutPacket` | tcp/txqueue.go:138-169 | the new packet holds exactly the next unsent bytes |
| `RingTransmit.RingTx.AddPacket` | tcp/txqueue.go:381-397 | the packet joins the list; the contiguity check cannot fail |
| `RingTransmit.RingTx.Resend` | tcp/txqueue.go:125-137 | the bytes of the packet queued at the number, wherever they wrap |
| `RingTransmit.RingTx.RecvACK` | tcp/txqueue.go:172-189 | drops exactly the acknowledged bytes, partial packets included, and refuses what lies outside the queue |
| `RingTransmit.RingTx.AckPackets` | tcp/txqueue.go:399-434 | the loop over the packets trims and drops up to the acknowledged number |
| `RingTransmit.RingTx.RemoveReceived` | tcp/txqueue.go:436-450 | compacts the list in place, keeping the order of what is left |
| `RingTransmit.RingTx.DropAcked` | tcp/txqueue.go:172-189 | the sent region starts where the oldest packet left does |
| `RingTransmit.RingTx.PacketContaining` | tcp/txqueue.go:354-362 | finds the packet the span search specifies |
| `RingTransmit.RingTx.TruncateFrom` | tcp/txqueue.go:369-379 | keeps exactly the packets before the number |
| `RingTransmit.RingTx.RetransmitFrom` | tcp/txqueue.go:238-260 | rewinds to the start of the packet; the queue stays valid if and only if that packet is the oldest or not at offset 0 |
| `RingTransmit.RingTx.RetransmitFromUNA` | tcp/txqueue.go:225-231 | everything sent becomes unsent again, in order |
| `RingTransmit.RingTx.ViewIsCoherent` | tcp/txqueue.go:15-48 | a valid queue stands for spans that tile the sent bytes without gap |
| `RingTransmit.WriteEffect` | tcp/txqueue.go:103-115 | a write behind the unsent bytes disturbs neither region, in all wrap cases |
| `RingTransmit.CutEffect` | tcp/txqueue.go:138-169 | cutting a packet moves bytes between the regions without touching them |
| `RingTransmit.AckEffect` | tcp/txqueue.go:399-434 | packets left after an acknowledgement still lie where their spans say |
| `RingTransmit.RewindEffect` | tcp/txqueue.go:238-260 | the regions after a rewind hold the same bytes, split earlier |
| `RingTransmit.RewindToIndexZero` | tcp/txqueue.go:238-260 | a valid layout where rewinding to a packet at offset 0 leaves packets outside the sent region and makes their bytes look free |
| `RingTransmit.RewindToIndexZeroReached` | tcp/txqueue.go:103-260 | writes, packets and an acknowledgement that lead there from a fresh queue, and the rewind that leaves it broken |
| `Reassembling.Rank` | tcp/reassembly.go:79-84 | everything before the index starts earlier, the segment at it does not |
| `Reassembling.Reassembly.Store` | tcp/reassembly.go:69-104 | stages the payload as far past the write position as its number is past rcv.NXT and keeps the list as placement says, or refuses and changes nothing |
| `Reassembling.Reassembly.FindRank` | tcp/reassembly.go:79-84 | the search loop finds the rank |
| `Reassembling.Reassembly.Reassemble` | tcp/reassembly.go:112-135 | commits exactly the contiguous bytes and keeps the rest |
| `Reassembling.Reassembly.BufferedBytes` | tcp/reassembly.go:56-62 | sum of the held lengths |
| `Reassembling.Reassembly.Clear` | tcp/reassembly.go:44-46 | nothing held |
| `RxStream.PosShift` | tcp/reassembly.go:24-31 | a held segment's stream position does not depend on how far rcv.NXT moved |
| `RxStream.PosOrder` | tcp/reassembly.go:112-135 | equality with rcv.NXT and staleness read off the position |
| `RxStream.DeliverKeeps` | tcp/reassembly.go:112-135 | delivery commits exactly the stream bytes that follow and stops only at a gap; no commit of a contiguous segment fails |
| `RxStream.InOrderKeeps` | tcp/handler.go:256-266 | an in-order payload and all it uncovers are the next stream bytes, and the rest stays in lockstep |
| `RxStream.StoreKeeps` | tcp/reassembly.go:69-104 | staging an out-of-order payload of the stream keeps every held segment in lockstep, sorted and disjoint |
| `RxStream.PlacedBetween` | tcp/reassembly.go:79-96 | an inserted segment overlaps neither neighbour |
| `RxStream.ReadKeeps` | tcp/handler.go:555-577 | reading frees space behind staged bytes and nothing becomes deliverable by it |
| `RxStream.StreamGrows` | tcp/reassembly.go:24-31 | the peer writing more leaves the lockstep alone |
| `RxStream.PlaceExactly` | tcp/reassembly.go:63-105 | in lockstep with the stream: a segment is inserted if and only if there is room and it meets no held one, and is taken as kept if and only if one starts there |
| `RxStream.DeliverReaches` | tcp/reassembly.go:107-135 | a delivery that reaches a held segment delivers it |
| `RxStream.StoredIsDelivered` | tcp/reassembly.go:63-135 | a stored segment is delivered once the gap before it fills |
| `ControlBlocks.ControlBlock.constructor` | tcp/control.go:36-81 | a closed control block |
| `ControlBlocks.ControlBlock.Open` | tcp/control.go:228-243 | listening with the given numbers, refused exactly when not closed or the window is too large |
| `ControlBlocks.ControlBlock.Close` | tcp/control.go:728-756 | the state's reaction to a close, errors included |
| `ControlBlocks.ControlBlock.RetransmitFrom` | tcp/control.go:273-285 | SND.NXT moves back exactly when the number lies between SND.UNA and SND.NXT and data may be sent |
| `ControlBlocks.ControlBlock.PendingSegment` | tcp/control.go:297-357 | challenge ACK, fast retransmit or pending flags with as much data as window and segment size allow |
| `ControlBlocks.ControlBlock.Send` | tcp/control.go:458-522 | refuses what the validation refuses, else moves state, SND.NXT, pending flags and counters as one step of the machine |
| `ControlBlocks.ControlBlock.SendQueue` | tcp/control.go:491-521 | flags, counters and SND.NXT after the transition |
| `ControlBlocks.ControlBlock.ValidateIncoming` | tcp/control.go:565-651 | the verdict on a segment and the challenge ACK, drop or reset it leads to |
| `ControlBlocks.ControlBlock.HandleRst` | tcp/control.go:671-697 | the reaction to an RST in every state |
| `ControlBlocks.ControlBlock.RcvListen` | tcp/control_rcvhandlers.go:3-19 | SYN in LISTEN |
| `ControlBlocks.ControlBlock.RcvSynSent` | tcp/control_rcvhandlers.go:21-47 | SYN and ACK in SYN-SENT, simultaneous open included |
| `ControlBlocks.ControlBlock.RcvSynRcvd` | tcp/control_rcvhandlers.go:49-62 | ACK in SYN-RECEIVED |
| `ControlBlocks.ControlBlock.RcvEstablished` | tcp/control_rcvhandlers.go:64-79 | data and FIN in ESTABLISHED |
| `ControlBlocks.ControlBlock.RcvFinWait1` | tcp/control_rcvhandlers.go:81-107 | the four ways out of FIN-WAIT-1 |
| `ControlBlocks.ControlBlock.RcvFinWait2` | tcp/control_rcvhandlers.go:109-120 | FIN in FIN-WAIT-2 |
| `ControlBlocks.ControlBlock.Dispatch` | tcp/control.go:381-406 | the state's handler |
| `ControlBlocks.ControlBlock.UpdateWindow` | tcp/control.go:419-432 | SND.WND under the WL1 and WL2 guards |
| `ControlBlocks.ControlBlock.UpdateUna` | tcp/control.go:434-444 | SND.UNA, duplicate ACK count and retransmission count |
| `ControlBlocks.ControlBlock.Recv` | tcp/control.go:363-454 | validation, handler, window, SND.UNA and rcv.NXT as one step of the machine |
| `ControlBlocks.ControlBlock.Abort` | tcp/control.go:713-722 | back to closed |
| `ControlBlocks.ControlBlock.QueueRst` | tcp/control.go:158-161 | an RST is all that is pending |
| `ControlRuns.UnaExact` | tcp/control.go:434-444 | SND.UNA takes an acknowledgement exactly when it lies in flight or is the half-turn exception |
| `ControlRuns.RewindExact` | tcp/control.go:273-285 | the rewind test is membership between SND.UNA and SND.NXT |
| `ControlRuns.NoSelfRejection` | tcp/control.go:297-357 | whatever PendingSegment offers, also with less data, Send accepts if and only if it is not a FIN behind as much data as the window holds |
| `ControlRuns.SentInFlight` | tcp/control.go:458-522 | a send leaves at most a maximum window and a FIN in flight |
| `ControlRuns.SendKeeps` | tcp/control.go:458-522 | sends keep the send space, flag and history invariants |
| `ControlRuns.RecvKeeps` | tcp/control.go:363-454 | arbitrary arriving segments keep them |
| `ControlRuns.RefusalKeeps` | tcp/control.go:565-651 | refused segments keep them, whatever state they force |
| `ControlRuns.RewindKeeps` | tcp/control.go:273-293 | rewinds keep them, also after our FIN went out |
| `ControlRuns.RequeueKeeps` | tcp/handler.go:445-460 | the handshake segment sent again keeps them |
| `ControlRuns.RequeueAccepted` | tcp/handler.go:445-460 | it is accepted, and moves SND.NXT only if it had not been sent |
| `ControlRuns.CloseKeeps` | tcp/control.go:728-756 | closes keep them |
| `ControlRuns.ConnectKeeps` | tcp/control.go:470-475 | the first SYN keeps them |
| `ControlRuns.OpenKeeps` | tcp/control.go:228-251 | opens keep them |
| `ControlRuns.StepKeeps` | tcp/control.go:363-522 | every step keeps them |
| `ControlRuns.RunSafe` | tcp/control.go:297-563 | in every run, with rewinds, aborts and repeated handshake segments at any time: SND.UNA never passes SND.NXT, in flight at most the maximum window and a FIN, each closing state implies the FINs sent and received it stands for, and what is offered is refused if and only if it is a FIN behind a full window of data |
| `ControlRuns.FinAheadExactly` | tcp/control.go:273-285 | a step keeps SND.NXT past an unacknowledged FIN, and FIN-WAIT-2 meaning that it was acknowledged, if and only if it is not a rewind below the FIN |
| `ControlRuns.RunFinAhead` | tcp/control.go:273-285 | both hold from any point of a run before the FIN on, as long as no rewind goes below it |
| `ControlRuns.UnaForward` | tcp/control.go:434-444 | in every step within a connection, handshake and rewinds at any time included, SND.UNA stays or moves forward to what an arriving segment acknowledges, by at most what is in flight; acknowledged and in flight together are at most what was in flight and is sent |
| `ControlRuns.RunUnaForward` | tcp/control.go:434-444 | over every stretch of a connection in every run: SND.UNA is its earlier position plus the acknowledged steps, which add up to no more than was in flight and sent since |
| `ControlRuns.HalfTurnExactly` | tcp/valuesize.go:27-34 | in every state, an accepted segment that leaves the connection open keeps SND.UNA from passing SND.NXT if and only if it is not the half-turn acknowledgement |
| `ControlRuns.RecvPanicsExactly` | tcp/control.go:381-406 | the default panic is reached if and only if an acceptable segment without RST or SYN arrives in TIME-WAIT |
| `ControlRuns.FinWithDataExactly` | tcp/control.go:524-563 | with a FIN pending, n bytes of data are accepted if and only if n is below the window |
| `ControlRuns.FinWait2Exactly` | tcp/control_rcvhandlers.go:81-107 | entering FIN-WAIT-2 acknowledges the FIN if and only if SND.NXT was not rewound below it |
| `ConnectionEnds.TimeWaitExactly` | tcp/control.go:399-403 | entering TIME-WAIT means our FIN was acknowledged if and only if it was before or the entering segment reaches it; with SND.NXT past the FIN, exactly unless it is from CLOSING by sending an ACK or by an acknowledgement short of the FIN |
| `ConnectionEnds.TimeWaitUnacked` | tcp/control.go:480-483 | a run into TIME-WAIT with our FIN unacknowledged |
| `ConnectionEnds.HalfTurnReached` | tcp/control.go:434-444 | a run to an established connection that takes the half-turn acknowledgement, which moves SND.UNA past SND.NXT |
| `ConnectionEnds.LastAckExactly` | tcp/control.go:396-398 | an accepted segment ends LAST-ACK if and only if it has an ACK, which acknowledges our FIN if and only if SND.NXT is past it and the number lies from its end up to SND.NXT |
| `ConnectionEnds.LastAckUnsent` | tcp/control.go:396-398 | a run in which LAST-ACK ends before the FIN was sent |
| `ConnectionEnds.FinReceivedExactly` | tcp/control_rcvhandlers.go:49-120 | an accepted FIN leaves the connection half closed if and only if the handshake was over |
| `ConnectionEnds.FinInHandshake` | tcp/control_rcvhandlers.go:49-62 | a run in which a FIN with the last handshake ACK leaves ESTABLISHED |
| `ConnectionEnds.PanicReached` | tcp/control.go:381-406 | a run into TIME-WAIT where a bare ACK in sequence panics |
| `ConnectionEnds.HandlerPanicsExactly` | tcp/handler.go:178-241 | a handler reaches that panic if and only if its last ACK of TIME-WAIT is pending and an acceptable segment without RST or SYN arrives that fits its buffer |
| `ConnectionEnds.HandlerPanics` | tcp/handler.go:178-241 | it does so in that run, whatever its buffers hold |
| `ConnectionEnds.FinWithDataRefused` | tcp/control.go:524-563 | a run that offers a FIN with a full window of data, which is then refused |
| `ConnectionEnds.FinWait2Unacked` | tcp/control_rcvhandlers.go:81-107 | a run through a rewind below the FIN into FIN-WAIT-2 with the FIN unacknowledged |
| `HandlerEnds.FinAtOnceExactly` | tcp/handler.go:414-492 | a close with nothing unsent sends the FIN in the same call if and only if the packet list has room or no data was offered with it; the state either way |
| `HandlerEnds.FinDeferred` | tcp/handler.go:414-492 | a close that finds the packet list full: nothing goes out and the FIN stays pending |
| `HandlerEnds.FinBeforeData` | tcp/handler.go:398-492 | a run from opening the handler: the deferred FIN, and then a rewind after which it goes out ahead of written data |
| `HandlerEnds.WriteAfterCloseExactly` | tcp/handler.go:544-552 | after a close that was asked for, a write is taken if and only if the packet list was full with data offered and the bytes fit |
| `HandlerEnds.WriteAfterClose` | tcp/handler.go:544-552 | a run to such a write |
| `HandlerEnds.OutOfStep` | tcp/handler.go:464-492 | a run to a handler whose next send asks the queue for a packet past its end |
| `HandlerEnds.EofWithBytesUnread` | tcp/handler.go:555-577 | a run to CLOSE-WAIT with bytes unread, where a read for none says end of file |
| `HandlerEnds.UnreadDropped` | tcp/handler.go:507-518 | a run to TIME-WAIT with bytes unread, where sending the last ACK drops them |
| `HandlerEnds.AbortedReadExample` | tcp/handler.go:342-356 | a run from a connection numbered across the wrap to an abort with a segment held at number zero, and a read after which a byte that was never received is readable |
| `HandlerEnds.RewindMidPacket` | tcp/txqueue.go:238-260 | a run to a handler whose rewind into a packet puts SND.NXT and the queue out of step |
| `HandlerEnds.AckHeldBack` | tcp/handler.go:452-500 | a run to a handler that owes an ACK, has its packet list full, and sends nothing |
| `HandlerSpec.RewindTotals` | tcp/handler.go:398-409 | a rewind keeps the packets' sizes equal to the sent bytes and leaves the receive side |
| `Handlers.Handler.constructor` | tcp/handler.go:68-83 | a closed handler with empty buffers |
| `Handlers.Handler.Recv` | tcp/handler.go:178-308 | keepalive, reassembly, buffer-full, refusal and acceptance, on all four parts of the handler at once |
| `Handlers.Handler.HandleOutOfOrder` | tcp/handler.go:315-338 | stages in-window data ahead of rcv.NXT and queues an ACK, or leaves everything alone |
| `Handlers.Handler.DeliverReassembled` | tcp/handler.go:342-356 | makes held data readable, advances rcv.NXT by it and queues an ACK |
| `Handlers.Handler.Accept` | tcp/handler.go:256-297 | payload written, uncovered data delivered, acknowledged bytes freed, SYN options kept |
| `Handlers.Handler.TakeIn` | tcp/handler.go:256-266 | an accepted payload and what it uncovers |
| `Handlers.Handler.FreeAcked` | tcp/handler.go:267-275 | acknowledged bytes leave the transmit queue |
| `Handlers.Handler.Read` | tcp/handler.go:555-577 | the front of the receive ring, then delivery and window update; EOF and closed exactly |
| `Handlers.Handler.Write` | tcp/handler.go:544-552 | bytes queued for sending, or why not |
| `Handlers.Handler.Send` | tcp/handler.go:383-519 | policy rewind, close when due, then one segment with data from the queue; the segment and the state after it |
| `Handlers.Handler.SendNext` | tcp/handler.go:464-492 | the pending segment, its window and its data |
| `Handlers.Handler.CloseIfDue` | tcp/handler.go:414-438 | when a close starts and when there is nothing to do |
| `Handlers.Handler.Rewind` | tcp/handler.go:398-409 | SND.NXT and the queue rewound together |
| `Handlers.Handler.RecvWindowNow` | tcp/handler.go:635-644 | free receive space less what is held out of order |
| `Handlers.Handler.MaybeQueueWindowUpdate` | tcp/handler.go:587-600 | an ACK is queued once the window grew by the threshold |
| `Handlers.Handler.NextSegmentIsRetransmit` | tcp/handler.go:524-527 | whether SND.NXT lies below the queue's end |
| `Handlers.Handler.Close` | tcp/handler.go:369-378 | closing is noted, or refused |
| `Handlers.Handler.Reset` | tcp/handler.go:150-174 | everything buffered is dropped |
| `NetworkRuns.RunStreamSafe` | tcp/handler.go:178-577 | in every run of two endpoints from the handshake through every close, over a lossy, duplicating, reordering network, with SYN and RST segments from anywhere: what either user read is a prefix of what the other wrote; SND.UNA is at most the peer's rcv.NXT, and that is at most the end, FIN included, of some segment that was sent; a sender that may still send holds every byte the peer has not received; every FIN ever sent is numbered past everything its sender ever wrote |
| `NetworkRuns.EndOfFile` | tcp/handler.go:555-577 | in every such run a read for bytes that returns end of file has been given all the other user wrote, then and at any later time |
| `NetworkRuns.Frozen` | tcp/handler.go:544-552 | once the FIN went out nothing more is written |
| `NetworkRuns.RunInOrder` | tcp/handler.go:178-577 | the connection invariant, of both streams and of all segments ever sent, holds in every state of every run |
| `NetworkRuns.ReaderCovered` | tcp/handler.go:178-308 | an arrival takes rcv.NXT, past the FIN too, no further than the segments sent reach |
| `NetworkRuns.RunSends` | tcp/handler.go:383-519 | in every run a send meets the queue's precondition, and while queued data may be sent the control block does not refuse it |
| `NetworkRuns.RunSameBytes` | tcp/txqueue.go:225-260 | two segments of a direction never disagree about a byte, whatever rewinds and packet boundaries lay between |
| `NetworkRuns.NetKeeps` | tcp/handler.go:178-577 | every act of either endpoint keeps the connection invariant |
| `NetworkRuns.SentFlow` | tcp/handler.go:383-519 | a send keeps it, its segment included |
| `NetworkRuns.DoneReads` | tcp/handler.go:178-308 | any segment the peer ever sent, with any window, and any other act keeps the stream towards the endpoint, and what it acknowledges never moves back |
| `Writers.SendWriter` | tcp/handler.go:383-519 | every send in any state, rewound to a packet or closing, unless a pending FIN would leave data behind it or be refused: the writer stays in order, and its segment is the stream at its number, a FIN only at the end |
| `Writers.PendingKept` | tcp/handler.go:464-492 | the same for the pending segment |
| `Writers.ArrivalWriter` | tcp/handler.go:178-308 | any segment with an honest acknowledgement keeps the writer in order; SND.UNA stays or moves forward to what it acknowledges |
| `Writers.AckedPastFin` | tcp/txqueue.go:172-189 | an acknowledgement frees the same bytes in the queue and in the send space, with the FIN in flight |
| `Writers.RewoundQueue` | tcp/control.go:273-285 | a rewind to a packet, also from past the FIN, leaves the queue in step |
| `Writers.WriteKept` | tcp/handler.go:544-552 | a write extends the stream, and is taken only before the FIN |
| `Writers.FinLastExactly` | tcp/handler.go:464-492 | a pending FIN goes out if and only if the packet list has room or no data is wanted, and its data is below the window; it then follows everything written if and only if what was unsent fits its segment |
| `StreamEnd.EofMeansAll` | tcp/handler.go:178-577 | through every way of closing, by either side or both: what the user read is a prefix of the peer's stream, and a read for bytes that returns end of file was given all of it |
| `StreamEnd.HistoryOk` | tcp/handler.go:178-577 | the reader's invariant holds in every state of every such run |
| `StreamEnd.ArrivalKept` | tcp/handler.go:178-308 | any segment of the peer's, FIN included, in any order and state, keeps it |
| `StreamEnd.FinKept` | tcp/control_rcvhandlers.go:64-120 | the FIN is taken in its turn, with everything before it received and nothing left staged |
| `StreamEnd.TailKept` | tcp/control_rcvhandlers.go:64-120 | after the FIN only segments without content are taken |
| `StreamEnd.StrayKept` | tcp/handler.go:178-308 | SYN and RST segments from anywhere keep it |
| `StreamEnd.SendSafe` | tcp/handler.go:383-519 | every send, rewound or closing, leaves the receive side alone or ends the connection |
| `StreamEnd.ReadKept` | tcp/handler.go:555-577 | a read hands out the stream's next bytes |
| `StreamEnd.EmptyReadEof` | tcp/handler.go:555-577 | end of file with bytes unread: if and only if the read asks for none and the peer's FIN was taken outside TIME-WAIT |
| `StreamEnd.LastAckDrops` | tcp/handler.go:507-518 | sending the last ACK of TIME-WAIT keeps what was received if and only if nothing was left to read |
| `StreamEnd.AbortedReadExactly` | tcp/handler.go:555-577 | a read after an abort hands out only received bytes if and only if no held segment is numbered zero |
| `StreamEnd.StaleTaken` | tcp/valuesize.go:43-55 | why arrivals must be less than a turn old: a data segment exactly one turn old is taken for the next one and its bytes appended |
| `Endpoint.AckedSender` | tcp/txqueue.go:172-189 | an acknowledgement frees the same bytes in the send space and in the queue |
| `Endpoint.TakenIn` | tcp/handler.go:256-266 | a payload in its turn continues the stream, and so does what it uncovers |
| `Endpoint.StoredIn` | tcp/handler.go:315-338 | a staged segment is the part of the stream its number says |
| `Endpoint.ClosedRecv` | tcp/handler.go:178-181 | an aborted endpoint ignores arrivals |
| `SendQueue.RewindExactly` | tcp/control.go:273-285 | SND.NXT and the queue stay in step if and only if the rewind goes to a packet start or SND.NXT |
| `SendQueue.MadeSender` | tcp/txqueue.go:118-168 | new data is the next unsent part of the stream, and the queue stays in step |
| `SendQueue.ResendSender` | tcp/txqueue.go:118-137 | a retransmission is the stream at SND.UNA |
| `SendQueue.HoldingPosition` | tcp/txqueue.go:354-362 | the packet search finds the span a number near the queue falls in, or it lies past the end |
| `Handshake.HandshakeConnects` | tcp/handler.go:109-139 | an actively opened handler and a listening one, with any numbers, buffers and windows, end up established after SYN, SYN-ACK and ACK, as the stream theorem starts them, copies of the last ACK included |
| `Handshake.FirstPass` | tcp/handler.go:445-448 | the SYN is sent and taken |
| `Handshake.SecondPass` | tcp/handler.go:464-492 | the SYN-ACK is sent and taken |
| `Handshake.ThirdPass` | tcp/handler.go:464-492 | the ACK is sent and taken |
| `Handshake.SynAgain` | tcp/handler.go:446-452 | a SYN that may be lost is sent again as it was |
| `Handshake.SynAckAgain` | tcp/handler.go:453-461 | and so is its answer |
| `Routes.SpecificityIsSound` | http/httphi/mux.go:356-382 | if a matchable pattern's paths are a strict subset of another's, it scores strictly higher |
| `Routes.SpecificityExactly` | http/httphi/mux.go:345-382 | the score of a pattern is above that of every strictly more general one if and only if the pattern matches something |
| `Routes.ImpossibleExactly` | http/httphi/mux.go:170-174 | a pattern matches no path if and only if it is not rooted or has `{$}` before its end |
| `Routes.ImpossibleScoresLow` | http/httphi/mux.go:356-382 | such a pattern scores below one that matches more |
| `Routes.ScoresByWitness` | http/httphi/mux.go:356-382 | two or three telling paths decide the comparison of any two patterns |
| `Routes.ShapeIsShapely` | http/httphi/mux.go:161-210 | literals have no slash and an exact pattern does not end in an empty segment |
| `Routes.FitsStep` | http/httphi/mux.go:161-210 | one step of the parallel walk decides one segment |
| `Routes.LiteralMatches` | http/httphi/mux.go:406-411 | without wildcards the matcher is string equality, so the literal fast path is exact |
| `Routes.BindingsCount` | http/httphi/mux.go:156-211 | a match binds as many values as the pattern says |
| `Routes.BindingsRefill` | http/httphi/mux.go:133-142 | the bound values put back into the pattern give the path |
| `Routes.CountBalance` | http/httphi/mux.go:388-404 | sizing by countPathValues suffices if and only if `{}` wildcards do not outnumber named ones past the pattern's end |
| `Routes.SplitJoin` | http/httphi/mux.go:167-168 | segments joined and cut are the segments |
| `Routes.JoinSplit` | http/httphi/mux.go:167-168 | a path cut and joined is the path |
| `Muxes.ServedExactly` | http/httphi/mux.go:246-301 | some request is served by a registration if and only if it matches something and its values fit; with the room the registration counts for, if and only if `{}` wildcards do not outnumber named ones past its end |
| `Muxes.UnnamedNeverServed` | http/httphi/mux.go:246-301 | `/{}` matches paths and is never served with that room |
| `Muxes.SetPathValuesRaw` | http/httphi/mux.go:156-211 | matched if and only if the pattern matches and its values fit; then they are exactly the bindings; nothing else is written |
| `Muxes.SetPathValues` | http/httphi/mux.go:146-152 | no values are left behind by a failure |
| `Muxes.PatternSpecificity` | http/httphi/mux.go:356-382 | the loop computes the score |
| `Muxes.CountPathValues` | http/httphi/mux.go:388-404 | the loop counts named wildcards |
| `Muxes.WinnerIsMostSpecific` | http/httphi/mux.go:246-256 | no registration serving the request matches strictly fewer paths than the winner |
| `Muxes.MuxSlice.Handle` | http/httphi/mux.go:312-343 | registers exactly rooted paths that are no duplicates, with their score and count |
| `Muxes.MuxSlice.LookupHandler` | http/httphi/mux.go:256-290 | the highest score among those serving the request, the earliest of equals, none exactly if none serves; a wildcard winner leaves its bindings and nothing else |
| `Muxes.MuxSlice.MaxPathValues` | http/httphi/mux.go:293-301 | the largest count, or -1 without registrations |
| `Multiparts.ReadMultiparts` | http/httphi/exchange.go:641-706 | however the body is split into reads and whatever the buffer size, the parts, their content and the outcome are those of the whole body |
| `Multiparts.ReadContent` | http/httphi/exchange.go:682-699 | the streamed content is the body up to the first delimiter, or short of one all but what could start it |
| `Multiparts.ReadHeader` | http/httphi/exchange.go:655-679 | the header block found, refused or too long, independently of the reads |
| `Multiparts.HeaderExtended` | http/httpraw/multipart.go:86-120 | an answer other than need-more does not change when more arrives |
| `Multiparts.FoundEnds` | http/httpraw/multipart.go:127-135 | a delimiter found in the buffer is the first of the whole body |
| `Multiparts.ReleaseKeeps` | http/httpraw/multipart.go:127-135 | no byte of a delimiter is ever released, and nothing else is held for ever |
| `Multiparts.IndexExtended` | http/httpraw/multipart.go:137-173 | an occurrence found stays the first |
| `Multiparts.IndexPattern` | http/httpraw/multipart.go:137-173 | the search that skips to the first byte finds the first occurrence |
| `Multiparts.NextBodyOf` | http/httpraw/multipart.go:127-135 | content length, rest and end as specified |
| `Multiparts.NextHeaderOf` | http/httpraw/multipart.go:86-120 | delimiter, closing delimiter, junk and header block as specified |
| `Multiparts.IndexFrom` | http/httpraw/multipart.go:157-173 | an occurrence, and none before it |
| `Multiparts.RoundTripExactly` | http/httpraw/multipart.go:81-135 | parts written with their delimiters come back as they were if and only if each header block fits the buffer and ends at its first blank line, and no content holds the delimiter |
| `Multiparts.ClosingExactly` | http/httpraw/multipart.go:86-125 | the end is reported if and only if two dashes follow the first delimiter |
| `Multiparts.MalformedExactly` | http/httpraw/multipart.go:86-125 | a delimiter is refused if and only if neither dashes nor the end of its line follow |
| `Multiparts.BlockExactly` | http/httpraw/multipart.go:86-125 | a header block is read if and only if it runs from the line after the first delimiter to the first empty line |
| `HttpHead.ItemExtended` | http/httpraw/parsev1.go:264-346 | a field, the end of the fields or an invalid name is the same whatever follows |
| `HttpHead.FirstLineExtended` | http/httpraw/parsev1.go:171-262 | a parsed or refused first line is the same whatever follows |
| `HttpHead.FieldsExtended` | http/httpraw/parsev1.go:128-138 | a settled block of fields stays and a paused one goes on from where it stopped |
| `HttpHead.ValueEnd` | http/httpraw/parsev1.go:325-337 | a value ends at a newline known not to be followed by white space |
| `HttpStream.RequestStreams` | http/httpraw/headerv1.go:111-126 | a request parsed in any pieces has the method, target, protocol, fields, end offset and error of one parse |
| `HttpStream.Settled` | http/httpraw/headerv1.go:111-126 | what follows a finished or refused header does not change it |
| `HttpStream.Resumes` | http/httpraw/headerv1.go:111-126 | resuming a pause gives what one parse of everything received gives |
| `HttpStream.ResponseExactly` | http/httpraw/headerv1.go:118-119 | for responses this holds for every cut if and only if there is a status code, or no field, or nothing to cut right after the first field |
| `HttpStream.Repeats` | http/httpraw/headerv1.go:118-119 | otherwise the cut after the first field stores it twice |
| `HttpStream.NoCodeRepeats` | http/httpraw/parsev1.go:240-262 | a header of that kind |
| `HttpStream.ItemTruncated` | http/httpraw/parsev1.go:324-346 | a field is known as soon as the byte after its line is |
| `HttpHeaders.HeaderV1.TryParse` | http/httpraw/headerv1.go:111-126 | one step of the resumable parse, or already-parsed |
| `HttpHeaders.HeaderV1.ParsePieces` | http/httpraw/headerv1.go:95-110 | the documented loop gives, for requests, the parse of the whole |
| `HttpHeaders.HeaderV1.ReadFromBytes` | http/httpraw/headerv1.go:140-144 | appends, refusing exactly the empty piece and one past the largest buffer |
| `HttpHeaders.HeaderV1.ParseFirstLine` | http/httpraw/parsev1.go:101-113 | first line parsed from the start of the buffer |
| `HttpHeaders.HeaderV1.ScanFirstLine` | http/httpraw/parsev1.go:171-182 | leading line ends skipped, line found, short line refused |
| `HttpHeaders.HeaderV1.ParseRequestLine` | http/httpraw/parsev1.go:185-212 | method, target and protocol, or why not |
| `HttpHeaders.HeaderV1.ParseResponseLine` | http/httpraw/parsev1.go:228-262 | status code and text, or why not |
| `HttpHeaders.HeaderV1.Next` | http/httpraw/parsev1.go:264-346 | the next field, or why there is none |
| `HttpHeaders.HeaderV1.Value` | http/httpraw/parsev1.go:322-345 | the value with its continuation lines |
| `HttpHeaders.HeaderV1.ParseNextHeaders` | http/httpraw/parsev1.go:115-138 | all fields up to the end, a pause or an invalid name |
| `HttpHeaders.HeaderV1.ScanLine` | http/httpraw/parsev1.go:150-169 | the line without its carriage return |
| `HttpHeaders.HeaderV1.SkipLeadingCRLF` | http/httpraw/parsev1.go:144-148 | past leading line ends |
| `DnsWire.NextLabel` | dns/dns.go:855-890 | labels of 1 to 63 bytes without a dot, within the message; a terminator exactly at a zero byte or a pointer to offset zero |
| `DnsWire.Labels` | dns/dns.go:801-841 | a walk ends by pointers left and bytes left; on success it advances, stays within the message and yields proper labels |
| `DnsWire.VisitAll` | dns/dns.go:801-841 | the offset returned is past the start and within the message |
| `DnsWire.WalkWire` | dns/dns.go:801-841 | an uncompressed name is read back wherever it lies |
| `DnsWire.WalkIsCanonical` | dns/dns.go:740-749 | what a walk reads, compressed or not, is a name that reads back as itself |
| `DnsWire.NameReadsBack` | dns/dns.go:717-749 | a name appended decodes to itself and its length |
| `DnsWire.QuestionReadsBack` | dns/dns.go:550-571 | a question appended decodes to itself; skipping it skips as much |
| `DnsWire.ResourceReadsBack` | dns/dns.go:590-620 | a resource appended decodes to itself, CNAME data included; skipping it skips as much |
| `DnsMessages.DecodeInvertsEncode` | dns/dns.go:147-307 | decoding an encoded message gives it back, each section cut to what is kept, and consumes every byte, if and only if every section passed as nil is empty |
| `DnsMessages.DecodeEncoded` | dns/dns.go:147-307 | what decoding an encoded message gives whichever sections are nil, and where it ends |
| `DnsMessages.IncompleteExactly` | dns/dns.go:158-167 | decoding an encoded message with the incompleteness flag set gives back less; without it the message comes back if and only if no capacity loses the count in its low 16 bits |
| `DnsMessages.LargeCapacityKeepsNothing` | dns/dns.go:210-215 | a capacity of 2^16 keeps nothing and nothing says so |
| `DnsMessages.QuestionsReadBack` | dns/dns.go:168-189 | all questions, kept up to the capacity and skipped past it |
| `DnsMessages.ResourcesReadBack` | dns/dns.go:210-233 | all resources of a section, likewise |
| `DnsMessages.CountsReadBack` | dns/dns.go:264-281 | the header's counts read back |
| `DnsMessages.HeadReadsBack` | dns/dns.go:264-307 | the transaction identifier and the flags are read back from the first four bytes |
| `DnsFaults.NameEndExactly` | dns/dns.go:801-841 | for every message and offset where a name is read, what follows is looked for where section 4.1.4 of RFC 1035 ends the name, if and only if the name does not stop at a pointer to offset zero |
| `DnsFaults.PointerToZero` | dns/dns.go:855-890 | a name that stops at one |
| `DnsFaults.RecordPanicsExactly` | dns/dns.go:235-260 | reading or skipping one question or resource panics if and only if its name is read and its fixed fields overrun: a 16-bit offset wraps, or a skipped resource has fewer than ten bytes left |
| `DnsFaults.DecodePanicsExactly` | dns/dns.go:147-260 | decoding a message panics if and only if after some records that are read one overruns |
| `DnsFaults.TruncatedAnswerPanics` | dns/dns.go:246-260 | a 13-byte message whose answer is skipped and panics |
| `DnsFaults.LargestPanics` | dns/dns.go:550-561 | a message of 65535 bytes whose last question wraps and panics |
| `DnsFaults.KeptNeverPanics` | dns/dns.go:147-233 | a message at least ten bytes short of 65535 whose resources are all kept is never a panic |
| `DnsFaults.NilAnswersShift` | dns/dns.go:210-233 | with nil for the answers, the answers are handed out as the authorities |
| `DnsCodec.VisitAllLabels` | dns/dns.go:801-841 | the loop with its pointer count and saved offset is the walk |
| `DnsCodec.NewName` | dns/dns.go:664-688 | a name is built exactly when its labels can be on the wire, and is their wire form |
| `DnsCodec.NameRoundTrip` | dns/dns.go:716-737 | a name written with dots and read again is the same name |
| `DnsCodec.LabelsOfDotted` | dns/dns.go:664-688 | the dotted form has the labels |
| `DnsCodec.AppendTo` | dns/dns.go:264-307 | appends the encoding, failing exactly when a name is missing; a message of up to 65535 bytes never outgrows the capacity the buffer was grown to |
| `DnsCodec.AppendResource` | dns/dns.go:613-652 | a record is written within the capacity left |
| `DnsCodec.MessageLen` | dns/dns.go:360-378 | the 16-bit length is that of the encoding modulo 2^16 |
| `DnsCodec.DecodeQuestions` | dns/dns.go:168-189 | the decode and skip loops |
| `DnsCodec.DecodeResources` | dns/dns.go:210-233 | the decode and skip loops |
| `DnsCodec.DecodeMessage` | dns/dns.go:147-203 | all sections in order, the first failure ending it |
| `ExchangePool.RunSafe` | http/httphi/router.go:252-380 | in every interleaving no exchange serves two connections, every acquired one serves one, the freelist is a duplicate-free chain of at most five free exchanges, and the job queue is never full |
| `ExchangePool.HandleKeeps` | http/httphi/router.go:252-288 | taking a connection keeps all that, never drops, and a refusal changes nothing |
| `ExchangePool.GetKeeps` | http/httphi/router.go:346-380 | the exchange taken was nobody's; none is found only if all are acquired |
| `ExchangePool.FinishKeeps` | http/httphi/router.go:321-343 | freeing an exchange keeps all that |
| `ExchangePool.StartKeeps` | http/httphi/router.go:290-303 | a worker taking a job keeps all that |
| `ExchangePool.DrainKeeps` | http/httphi/router.go:290-303 | dropping a job of an old generation keeps all that |
| `ExchangePool.ShutdownKeeps` | http/httphi/router.go:137-143 | shutting down keeps all that |
| `ExchangePool.PoolBound` | http/httphi/router.go:272-283 | no more connections than exchanges |
| `ExchangePool.DepthIs` | http/httphi/router.go:329-332 | the depth loop counts the chain |
| `ExchangePool.RunConserves` | http/httphi/router.go:252-380 | in every run each connection taken is in the pool until it is done with, once: none is lost and none served twice |
| `ExchangePool.StepConserves` | http/httphi/router.go:252-380 | a step adds or removes only the connection it takes or is done with |
| `ExchangePool.ShutdownRefusesExactly` | http/httphi/router.go:127-143 | after a shutdown connections are refused if and only if there are fixed workers |
| `ExchangePool.FirstFree` | http/httphi/router.go:360-364 | the first exchange not acquired |
| `Routers.Router.constructor` | http/httphi/router.go:153-216 | a configured router whose pool is in order, nothing taken |
| `Routers.Router.GetExchLocked` | http/httphi/router.go:346-380 | freelist, pool scan or new exchange |
| `Routers.Router.HandleConn` | http/httphi/router.go:252-288 | a connection taken on an exchange nobody had, or refused exactly when shut down or when every exchange is taken; never dropped, nothing changed on refusal, the pool kept in order |
| `Routers.Router.FreeExchange` | http/httphi/router.go:321-343 | freelist push up to its depth, or release |
| `Routers.Router.StartJob` | http/httphi/router.go:290-301 | the oldest job starts; no connection comes or goes and the pool stays in order |
| `Routers.Router.DrainJob` | http/httphi/router.go:295-299 | an old generation's job leaves, its exchange is free and the pool stays in order |
| `Routers.Router.FinishTask` | http/httphi/router.go:305-343 | a finished connection leaves, its exchange is free and the pool stays in order |
| `Routers.Router.Shutdown` | http/httphi/router.go:130-143 | no connection comes or goes, the pool stays in order, and connections are refused from then on exactly in worker mode |
| `Routers.Router.AcquireExch` | http/httphi/exchange.go:131-150 | claims a free exchange for the connection |
| `Checksums.FoldIsCongruent` | crc.go:17-21 | the folded sum is the sum modulo 65535, and zero only for zero |
| `Checksums.ZeroExactly` | crc.go:17-21 | a sum checks out if and only if it is a positive multiple of 65535 |
| `Checksums.SumThenCheck` | crc.go:17-71 | a sum plus its checksum checks out, and so it does with 0xffff for zero |
| `Checksums.StoredSumChecks` | crc.go:46-59 | storing the checksum at an even offset makes a buffer of any length check out |
| `Checksums.OneWordDetected` | crc.go:17-28 | changing one word goes unnoticed if and only if old and new agree modulo 65535 and not all is zero |
| `Checksums.SumsFit` | crc.go:13-28 | the 32-bit accumulator never overflows for packets of 16-bit size |
| `Checksums.PutSum` | crc.go:23-28 | a word at an even offset counts as itself |
| `Checksums.EmittedChecks` | internet/stack-ip4.go:178-231 | every TCP or UDP packet encapsulate4 finishes, for any payload of odd or even length, passes the header and transport tests of demux4 |
| `Checksums.OptionsExactly` | ipv4/frame.go:130-145 | a correct header passes if and only if its options sum to a multiple of 65535 |
| `Checksums.OptionsRefused` | internet/stack-ip4.go:128-167 | a correct header with an option that does not |
| `Checksums.UncheckedExactly` | internet/stack-ip4.go:128-167 | a datagram without a checksum passes if and only if it sums to a multiple of 65535 |
| `Checksums.UncheckedRefused` | internet/stack-ip4.go:128-167 | one that does not |
| `Checksums.Encapsulate` | internet/stack-ip4.go:202-231 | finishes the packet in place, and it checks out |
| `Checksums.Demux` | internet/stack-ip4.go:128-167 | the receiver's checksum tests |
| `Checksums.HeaderSumChecks` | ipv4/frame.go:137-145 | the stored header checksum checks out |
| `Checksums.WithSumChecks` | ipv4/frame.go:153-169 | the stored transport checksum checks out and touches nothing else |
| `Checksums.SumWriteEven` | crc.go:23-28 | the loop sums the words modulo 2^32 |
| `Checksums.Crc791.WriteEven` | crc.go:31-33 | adds the words modulo 2^32 |
| `Checksums.Crc791.AddUint16` | crc.go:42-44 | adds a word modulo 2^32 |
| `Checksums.Crc791.PayloadSum16` | crc.go:52-59 | the checksum with a payload of any length added modulo 2^32; the running sum stays |
| `Checksums.StoreHeaderSum` | internet/stack-ip4.go:206-209 | header checksum stored |
| `Checksums.StoreSum` | internet/stack-ip4.go:213-229 | transport checksum stored, never zero for UDP |
| `Checksums.PseudoHeader` | ipv4/frame.go:147-169 | sum of the pseudo header |
| `Checksums.PseudoIsHeader` | ipv4/frame.go:153-169 | the running sum starts as that of the pseudo header: source, destination, zero, protocol, length |
| `Checksums.EmittedTouches` | internet/stack-ip4.go:178-231 | finishing a packet changes its length, protocol and checksums, and the UDP length, and no other byte |
| `Checksums.UdpSumStored` | crc.go:61-71 | a UDP packet is never sent with a zero checksum |
| `Checksums.DamageDetected` | internet/stack-ip4.go:128-167 | an accepted segment with one word changed, not by 65535 and not the UDP length, is refused |
| `UdpHandlers.Handler.Recv` | udp/handler.go:67-98 | queues a frame's payload as one datagram, exactly when it is for these ports, well-sized and fits; nothing changes otherwise |
| `UdpHandlers.Handler.ReadNext` | udp/handler.go:146-164 | the front of the oldest datagram, the rest of which is dropped; no panic is reachable |
| `UdpHandlers.Handler.Write` | udp/handler.go:129-141 | queues a datagram of any size exactly when the ring and the list have room |
| `UdpHandlers.Handler.Send` | udp/handler.go:102-125 | takes the oldest datagram off; it comes out behind its header as it was written, and the queue stays whole, if and only if it fits a frame; the panic and every error exactly |
| `UdpHandlers.DrainExactly` | udp/handler.go:102-141 | what was written is sent, in order and without a panic, if and only if every datagram fits a frame |
| `UdpHandlers.SentExactly` | udp/handler.go:102-125 | the same for one send |
| `UdpHandlers.OversizedSends` | udp/handler.go:116-124 | one byte too many panics; 2^16 more are sent short |
| `UdpHandlers.Handler.TakeTx` | udp/handler.go:116-120 | the oldest length's bytes off the ring, or the panic of slicing the frame |
| `UdpHandlers.DatagramsAppend` | udp/handler.go:90-97 | bytes added with their length are a datagram added |
| `UdpHandlers.FrameArrives` | udp/handler.go:67-90 | a frame that was sent is taken at the other end |
| `UdpHandlers.Relay` | udp/handler.go:67-125 | a datagram goes from one handler to the other, what of it fits a frame, in order, or not at all |
| `PercentUrl.CopyDecoded` | http/httpraw/headerv1.go:548-575 | decoding into another buffer or in place gives the same bytes and the same verdict |
| `PercentUrl.EqualDecoded` | http/httpraw/headerv1.go:582-611 | true if and only if the value decodes, and to the wanted text |
| `PercentUrl.DecodeInvertsEncode` | http/httpraw/headerv1.go:542-575 | decoding inverts every way of writing a text: digits of either case, and in forms a space as a plus |
| `PercentUrl.MalformedStops` | http/httpraw/headerv1.go:548-575 | decoding stops at a percent sign that two digits do not follow and keeps what came before |
| `PercentUrl.HexExactly` | http/httpraw/headerv1.go:626-637 | the digits are the 22 characters that write one |
| `PercentUrl.DecodedExample` | http/httpraw/headerv1.go:542-575 | a value spelled out byte by byte |
| `PercentUrl.PlainRun` | http/httpraw/headerv1.go:554-560 | a stretch without escapes decodes byte by byte |
| `PercentUrl.CopyPlus` | http/httpraw/headerv1.go:614-624 | the copy with plus replaced, also where the buffers overlap |
| `Offers.ContentAcked` | tcp/control_rcvhandlers.go:64-120 | data and FINs that are taken are acknowledged: the next segment has the ACK flag and the number after them, whatever room for data there is |
| `Offers.StrayAnswered` | tcp/control.go:600-616 | a segment out of its place is answered with the number expected, or ends the connection |
| `Offers.ArrivalAcked` | tcp/handler.go:255-281 | after an arrival the next segment acknowledges every byte made readable, held ones it uncovered included, and the FIN |
| `Offers.WindowFollows` | tcp/control.go:419-432 | on positions: the send window follows the segment last in the peer's order, by number and then by ACK; it becomes the peer's when data is newly acknowledged and otherwise only opens |
| `Offers.LateWindowIgnored` | tcp/control.go:425-432 | of two segments out of order, the one with the earlier ACK does not touch the window |
| `Offers.AheadExactly` | tcp/handler.go:315-340 | on positions of the stream: which arrivals are kept ahead of their turn, which were kept already, and which go to the control block |
| `Offers.OfferExactly` | tcp/control.go:297-357 | the length offered is the least of payload, window left and segment size, and none of it without a state that sends data |
| `Offers.OutOfTurnExactly` | tcp/control.go:297-312 | a challenge ACK carries nothing and a retransmission starts at the oldest number not acknowledged |
| `Offers.SendFits` | tcp/handler.go:383-520 | every send, rewound or not: new data is the front of what is unsent, at most what the caller, the policy, the window and the segment size allow; data sent again is at most the packet queued there |
| `Offers.SendsExactly` | tcp/handler.go:452-500 | what is offered goes out if and only if the packet list has room or no data may go with it |
| `Recovery.ThirdRepeatResends` | tcp/control.go:260-312 | over any accepted segments that repeat the acknowledgement: the third, and none before it, has the oldest data sent again, from the oldest number |
| `Recovery.ResentOncePerRepeat` | tcp/control.go:260-265 | after that it takes one more repetition for each retransmission |
| `Recovery.CountsAsStandard` | tcp/control.go:433-438 | what is counted is a duplicate in the sense of RFC 5681 if and only if a repetition carries no data and the same window |
| `Recovery.DataCounted` | tcp/control.go:433-438 | a segment with data that is counted |
| `Recovery.ProbeUnanswered` | tcp/handler.go:208-211 | an empty segment out of place is answered, or ends the connection, if and only if it is not a keepalive probe |
| `Recovery.ShutdownDiscards` | tcp/handler.go:247-281 | data that arrives after reading was shut down is dropped: acknowledged before the FIN went out, answered with a reset after it |
| `Recovery.ResetExactly` | tcp/control.go:671-697 | a reset ends an open connection if and only if it has the number expected; elsewhere in the window it is challenged, outside of it ignored |
| `Recovery.TenthStrayEnds` | tcp/control.go:600-616 | nine segments out of place in a row are each answered, and the tenth ends the connection |
| `Recovery.BadAckReset` | tcp/control.go:642-648 | while opening, an ACK of what was not sent is answered with a reset of its number |
| `Recovery.UnsentAckAnswered` | tcp/control.go:628-640 | once open it is answered with the number expected and changes nothing |
| `Recovery.WindowConserves` | tcp/handler.go:635-644 | bytes to read, bytes held and the window add up to the receive buffer, and held bytes never close the window |
| `Recovery.SentWindow` | tcp/handler.go:452-470 | every segment of an open connection carries that window |
| `Recovery.ReadTakesHeld` | tcp/handler.go:342-357 | a read that makes room for held bytes takes them in and acknowledges them |
| `Recovery.ReadAnnounces` | tcp/handler.go:587-600 | a read that opens the window by half of the buffer or a segment of the peer's has the next segment say so |
| `Recovery.SynLearned` | tcp/handler.go:282-304 | the window, the segment size and the port of the SYN that opens a connection are kept |
| `Recovery.SegmentSizeLasts` | tcp/handler.go:282-304 | in every run the segment size stays what the SYN said while the connection lasts |
| `Recovery.LetOutExactly` | tcp/control.go:524-563 | on an open connection a segment goes out if and only if it acknowledges what is expected and fits the window, lies below SND.NXT, or is an empty one at a closed window |
| `Recovery.LetInExactly` | tcp/control.go:565-649 | an established connection takes a segment if and only if it is the next one, fits the window and does not, other than as a bare repetition, acknowledge what was not sent |
| `Recovery.ResetSentEnds` | tcp/handler.go:510-517 | a reset that was sent tears the connection down |
| `RoutePatterns.PatternMeans` | http/httphi/mux.go:133-152 | a pattern written from words, `{name}`, `{name...}`, `{$}` or a trailing slash matches exactly the paths these mean, and binds what they say |
| `RoutePatterns.WrittenMeans` | http/httphi/mux.go:161-210 | the same of the parallel walk |
| `RoutePatterns.PieceReads` | http/httphi/mux.go:213-226 | a segment is a wildcard exactly if it is in braces, and its name is what they hold |
| `RoutePatterns.EndingReads` | http/httphi/mux.go:213-226 | three dots make it take the remainder |
| `HttpGrammar.HeaderExactly` | http/httpraw/parsev1.go:88-139 | for every byte sequence: it parses, to a given result, if and only if it is a first line and fields up to an empty line, and these are the parts |
| `HttpGrammar.RequestExactly` | http/httpraw/parsev1.go:171-212 | a request line is taken if and only if there are three parts with single spaces between and the protocol is HTTP/1 |
| `HttpGrammar.StatusExactly` | http/httpraw/parsev1.go:214-262 | a status line is taken if and only if it has an HTTP/1 protocol and up to three digits |
| `HttpGrammar.FieldExactly` | http/httpraw/parsev1.go:264-343 | a field is taken if and only if a name without white space, a colon and a value lie there, the value ending at the line feed that no white space follows |
| `HttpGrammar.FieldsExactly` | http/httpraw/parsev1.go:128-139 | fields are taken if and only if each is one and an empty line ends them |
| `HttpGrammar.BadExactly` | http/httpraw/parsev1.go:284-312 | a line is refused if and only if white space or its end comes before a colon |
| `HttpRender.RequestParses` | http/httpraw/parsev1.go:88-139 | a request as it is written parses, and method, target, protocol, names and values select the bytes written for them |
| `HttpRender.ResponseParses` | http/httpraw/parsev1.go:88-139 | the same of a response, with or without a reason phrase |
| `HttpRender.PiecesParse` | http/httpraw/parsev1.go:88-139 | and of one that arrives in pieces |
| `HttpRender.ResponsePieces` | http/httpraw/parsev1.go:88-139 | likewise for responses |
| `HttpRender.FieldReads` | http/httpraw/parsev1.go:264-343 | a field written with any number of spaces and continuation lines is read as its name and value |
| `HttpRender.WrittenExample` | http/httpraw/headerv1.go:375-466 | a request spelled out byte by byte |
| `DnsPointers.PointerReads` | dns/dns.go:855-890 | a pointer is read, as its 14-bit big-endian offset, if and only if those bytes lie there |
| `DnsPointers.LabelReads` | dns/dns.go:855-890 | a label is read if and only if it lies there behind its length |
| `DnsPointers.LabelsExactly` | dns/dns.go:801-850 | a walk yields labels if and only if the bytes spell them, pointers followed |
| `DnsPointers.NameExactly` | dns/dns.go:740-750 | decoding yields a name if and only if the bytes spell it within the jumps allowed |
| `DnsPointers.WireSpells` | dns/dns.go:717-723 | a name as it is appended spells its labels |
| `DnsPointers.CompressedWalk` | dns/dns.go:801-850 | labels and a pointer to a suffix read as the whole name, and what follows starts behind the pointer |
| `DnsPointers.CompressedResource` | dns/dns.go:590-640 | a record with a compressed name decodes to the name in full and its other fields as they lie |
| `DnsPointers.CnameExpands` | dns/dns.go:590-612 | the data of a CNAME record is expanded and its length set |

## Left out

- Policies of tcp/policy.go: only a limit on new data and a rewind to a packet start, chosen freely; their timers and congestion control are not modelled. A policy's veto of an arrival is a lost segment.
- Frame parsing, options, port checks, logging and connection identifiers of tcp/handler.go: segments are records whose ports match, with the MSS of a SYN given.
- Window scaling: segments arrive with any window up to the largest, which covers every scaling.
- In the two-endpoint runs a pending FIN waits, or its segment takes all unsent data along and is not refused for it (`Writers.FinLastExactly` has the condition and `HandlerEnds.FinBeforeData` shows why), and the application reads with `Read` alone: `ShutdownRead` and keepalive emission are in the handler alone. An endpoint that is over sends nothing more; the source's handler would start a new handshake if asked to send.
- ControlRuns.RunSafe: no arriving segment is the half-turn acknowledgement; ControlRuns.HalfTurnExactly shows that this is the exact condition, and ConnectionEnds.HalfTurnReached a run to one.
- In the two-endpoint runs receive buffers hold at most the largest window, a segment that arrives is less than a turn of sequence space less the largest window old (an acknowledgement less than half a turn; `StreamEnd.StaleTaken` shows what an older one does), a rewind goes to a packet start that is the oldest packet or not at buffer offset 0, and a read after an abort finds no held segment numbered zero (`StreamEnd.AbortedReadExactly` shows why).
- RingTransmit.RingTx.constructor: needs a buffer smaller than 2^31 bytes, as modular comparison decides what an acknowledgement frees.
- Handlers.Handler.constructor: needs transmit and receive buffers smaller than 2^31 bytes, likewise.
- RingTransmit.RingTx.MakePacket: asks for at least one byte, as the handler does.
- Handlers.Handler.Send: with bytes unsent, SND.NXT is not past the end of the queue, without which RingTransmit.RingTx.MakePacket breaks the queue (a FIN sent ahead of data leads there), and a rewind avoids the packet at buffer offset 0 unless it is the oldest. NetworkRuns.RunSends shows the first in every run whose FINs follow the data, and HandlerEnds.OutOfStep a run where it fails; RingTransmit.RingTx.MakePacket says what then happens, if and only if.
- Handlers.Handler.SendNext: likewise.
- Handlers.Handler.Rewind: likewise; RingTransmit.RingTx.RetransmitFrom has the exact condition.
- Checksums.Crc791.WriteEven: requires an even length, as the source panics otherwise.
- Checksums.SumWriteEven: likewise.
- Checksums.Encapsulate: the header's fixed fields and the payload are already in place; the identifier generator and the choice of protocol are not modelled.
- Multiparts.ReadMultiparts: the name and file name taken from a part's header, sinks that fail, and reads that return nothing without an error are not modelled.
- HttpHeaders.HeaderV1.ReadFromBytes: the buffer's spare capacity, which makes the source refuse some pieces earlier, and the table of a fixed number of fields are not modelled.
- HTTP connection-close bookkeeping: the flag every pause sets is kept out of the comparison.
- Muxes.MuxSlice.Handle: the method is given; parsing it off the registration, and refusing one with lower-case letters, is not modelled.
- Muxes.MuxSlice.LookupHandler: says nothing about path values when the winner has no wildcards, where the source leaves what the scan bound.
- DnsCodec.AppendTo: needs a message of at most 65535 bytes. Past that `Len` wraps, the buffer is grown too little, and whether a fixed-size write then panics depends on how the Go runtime grows slices.
- DnsMessages.DecodeInvertsEncode: needs CNAME data that is a name.
- DNS text output, EDNS0 and following CNAME chains.
- Configuring a router that is already serving, and the buffers of its exchanges; ExchangePool covers one configuration and its shutdown.
- UDP port configuration, abort and the socket wrappers with locks and deadlines.
- tcp/conn.go, listeners, SYN cookies, ARP, Ethernet, IPv6, ICMP, DHCP, NTP, mDNS, packet capture and device drivers: wrappers, single-field accessors and smaller machines that would only add easy members.
