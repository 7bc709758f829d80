/**
  How handlers end (tcp/handler.go): runs of the handler's own calls, from opening it actively, to the states where
  a close does not do what one would expect of it.
*/
module HandlerEnds {
  import opened Options
  import opened Bytes
  import opened SeqNum
  import opened Segments
  import opened Control
  import opened ControlRuns
  import opened ConnectionEnds
  import opened TxQueue
  import opened HandlerSpec
  import opened Reassembling
  import opened RxStream

  /** A call of the handler, or an arrival. */
  datatype Call =
    | Transmit(room: nat, steer: Steer)
    | Arrive(seg: Segment, payload: seq<byte>)
    | Put(b: seq<byte>)
    | Take(want: nat)
    | Hang

  /** What the handler's functions ask of it and of the segment. */
  predicate Fit(h: HView, c: Call) {
    && Total(h.tx.spans) == |h.tx.sent| && |h.contents| + |h.ahead| <= MAX_WINDOW
    && (c.Arrive? ==> c.seg.datalen == |c.payload|)
  }

  /** `h'` is the handler after the call. */
  ghost predicate Calls(h: HView, c: Call, h': HView) {
    Fit(h, c) &&
    match c
    case Transmit(room, steer) => SentView(HSend(h, room, steer), h') && |h'.ahead| <= MAX_WINDOW
    case Arrive(seg, payload) => h' == HRecv(h, seg, payload, 0, 0).0
    case Put(b) => h' == HWrite(h, b).0
    case Take(want) => h' == HRead(h, want).0
    case Hang => h' == h.(closing := h.closing || !h.tcb.state.IsClosed())
  }

  /** Opened actively, with buffers `SetBuffers` takes. */
  ghost predicate JustOpened(h: HView) {
    && 2 <= |h.ahead| <= MAX_WINDOW && h.tcb == RESET.(rcv := RESET.rcv.(wnd := |h.ahead|)) && h.remotePort != 0
    && h.tx.sent == h.tx.unsent == [] && h.tx.spans == [] && 0 < h.tx.slots <= h.tx.size && 2 <= h.tx.size < HALF
    && h.contents == [] && h.held == [] && h.slots == 8
    && !h.closing && !h.shutdownRx && !h.requeue
  }

  ghost predicate IsCallRun(hs: seq<HView>, cs: seq<Call>) {
    && |hs| == |cs| + 1 && JustOpened(hs[0])
    && forall i :: 0 <= i < |cs| ==> Calls(hs[i], cs[i], hs[i + 1])
  }

  /** Some run of calls leads to `h`. */
  ghost predicate HandlerReached(h: HView) {
    exists hs: seq<HView>, cs: seq<Call> :: IsCallRun(hs, cs) && hs[|cs|] == h
  }

  lemma OpenedReached(h: HView)
    requires JustOpened(h)
    ensures HandlerReached(h)
  {
    hide JustOpened, Calls;
    var cs: seq<Call> := [];
    assert IsCallRun([h], cs) && [h][|cs|] == h;
  }

  lemma CallReached(h: HView, c: Call, h': HView)
    requires HandlerReached(h) && Calls(h, c, h')
    ensures HandlerReached(h')
  {
    hide JustOpened, Calls;
    var hs: seq<HView>, cs: seq<Call> :| IsCallRun(hs, cs) && hs[|cs|] == h;
    var hs', cs' := hs + [h'], cs + [c];
    assert IsCallRun(hs', cs') && hs'[|cs'|] == h';
  }

  // ---- an established handler

  /** Buffers of 1000 bytes to receive and 4 to send, and a packet list of one. */
  function Fresh(s: Tcb): (h: HView)
    ensures |h.ahead| == 1000
  {
    HView(s, TxView([], [], [], 1, 4), [], seq(1000, i => 0), [], 8, 100, 80, false, false, false)
  }

  const OPENED := RESET.(rcv := RESET.rcv.(wnd := 1000))
  const ACKING := IDLE.s.(pending := ACK)
  const ANY := Steer(10, None)

  lemma SynGoesOut()
    ensures Calls(Fresh(OPENED), Transmit(10, ANY), Fresh(SYN_SENT.s))
  {
    hide InWindow, InRange;
    EmptyTotal();
  }

  lemma SynAckArrives()
    ensures Calls(Fresh(SYN_SENT.s), Arrive(Segment(500, 101, 0, 10, SYNACK), []), Fresh(ACKING))
  {
    hide InWindow, InRange, Recv, Next, OutOfOrder;
    EmptyTotal();
    GetsSynAck();
    RecvIsNext(SYN_SENT, Segment(500, 101, 0, 10, SYNACK));
  }

  /** The control block after an arrival is that of the track. */
  lemma RecvIsNext(t: Track, seg: Segment)
    ensures Next(t, DoRecv(seg)).s == Recv(t.s, seg).0
  {
    hide Recv;
  }

  /** A send with no close due and no handshake to redo is one of what is pending. */
  lemma SendsWhatIsPending(v: HView, room: nat, limit: Size)
    requires Total(v.tx.spans) == |v.tx.sent| && |v.contents| + |v.ahead| <= MAX_WINDOW
    requires !v.closing && !v.requeue && !v.tcb.state.CloseWait? && !v.tcb.state.Closed?
    requires HasPending(v.tcb) || (v.tx.unsent != [] && !v.tcb.state.TimeWait?)
    ensures HSend(v, room, Steer(limit, None)) == SendPending(v, Room(v.tcb, v.tx, room, limit))
  {
    hide Wrap, Total, SendPending, Room;
    RewindTotals(v, None);
    assert v.(closing := false) == v;
  }

  lemma AckGoesOut()
    ensures Calls(Fresh(ACKING), Transmit(0, ANY), Fresh(IDLE.s))
  {
    hide InWindow, InRange, Pending, Send, HSend, Wrap;
    EmptyTotal();
    AckOffered(ACKING);
    SendsWhatIsPending(Fresh(ACKING), 0, 10);
    AckIsSent(ACKING, Segment(101, 501, 0, 1000, ACK));
  }

  /** A bare ACK changes the pending flags and the advertised window. */
  lemma AckIsSent(s: Tcb, seg: Segment)
    requires (s.state.Established? || s.state.TimeWait?) && s.pending == ACK && s.queued == NONE && s.challengeAcks == 0
    requires seg == Segment(s.snd.nxt, s.rcv.nxt, 0, seg.wnd, ACK) && seg.wnd <= MAX_WINDOW && s.snd.wnd > 0
    ensures Send(s, seg) == (s.(pending := NONE, rcv := s.rcv.(wnd := seg.wnd)), NoErr)
  {
    hide Wrap, LessThan, InWindow, InRange;
    OutgoingLen(seg);
    FirstInWindow(seg.first, s.snd.wnd);
    NotBeforeItself(seg.first);
    AddZero(seg.first);
  }

  lemma EstablishedReached()
    ensures HandlerReached(Fresh(IDLE.s))
  {
    hide HandlerReached, Calls;
    OpenedReached(Fresh(OPENED));
    SynGoesOut();
    CallReached(Fresh(OPENED), Transmit(10, ANY), Fresh(SYN_SENT.s));
    SynAckArrives();
    CallReached(Fresh(SYN_SENT.s), Arrive(Segment(500, 101, 0, 10, SYNACK), []), Fresh(ACKING));
    AckGoesOut();
    CallReached(Fresh(ACKING), Transmit(0, ANY), Fresh(IDLE.s));
  }

  // ---- a FIN ahead of data

  const UNACKED := IDLE.s.(snd := SendSpace(100, 101, 103, 10, 0, 500, 101))
  const DEFERRED := UNACKED.(pending := FIN)

  /** Two bytes unacknowledged in the one packet the list holds. */
  function Sender(s: Tcb): HView {
    Fresh(s).(tx := TxView([7, 8], [], [Span(101, 2)], 1, 4))
  }

  lemma DataGoesOut()
    ensures Calls(Fresh(IDLE.s).(tx := TxView([], [7, 8], [], 1, 4)), Transmit(10, ANY), Sender(UNACKED))
  {
    hide InWindow, InRange, HSend, Send, Wrap;
    EmptyTotal();
    var v := Fresh(IDLE.s).(tx := TxView([], [7, 8], [], 1, 4));
    SendsWhatIsPending(v, 10, 10);
    DataOffered();
    assert [7, 8][..2] == [7, 8] && [7, 8][2..] == [] && [] + [7, 8] == [7, 8] && [] + [Span(101, 2)] == [Span(101, 2)];
    assert TxSend(v.tx, 10, 101) == (Sender(UNACKED).tx, [7, 8], TxOk);
    DataIsSent(Segment(101, 501, 2, 1000, ACK.(psh := true)));
  }

  lemma DataOffered()
    ensures Pending(IDLE.s, 10) == Some(Segment(101, 501, 10, 1000, ACK))
  {
  }

  lemma DataIsSent(seg: Segment)
    requires seg == Segment(101, 501, 2, 1000, ACK.(psh := true))
    ensures Send(IDLE.s, seg) == (UNACKED, NoErr)
  {
    hide OutgoingVerdict;
    DataInWindow(seg);
    NotBeforeItself(101);
  }

  lemma DataInWindow(seg: Segment)
    requires seg.first == 101 && seg.datalen == 2 && !seg.flags.HasCtl() && seg.ackno == 501 && seg.wnd == 1000
    ensures OutgoingVerdict(IDLE.s, seg) == NoErr
  {
    hide Wrap, InWindow, InRange;
    OutgoingLen(seg);
    FirstInWindow(101, 10);
    LastInWindow(seg, 10);
  }

  lemma SenderReached()
    ensures HandlerReached(Sender(UNACKED)) && HandlerReached(Sender(UNACKED).(closing := true))
  {
    hide HandlerReached, Calls;
    EstablishedReached();
    WriteTaken();
    CallReached(Fresh(IDLE.s), Put([7, 8]), Fresh(IDLE.s).(tx := TxView([], [7, 8], [], 1, 4)));
    DataGoesOut();
    CallReached(Fresh(IDLE.s).(tx := TxView([], [7, 8], [], 1, 4)), Transmit(10, ANY), Sender(UNACKED));
    CallReached(Sender(UNACKED), Hang, Sender(UNACKED).(closing := true));
  }

  lemma WriteTaken()
    ensures Calls(Fresh(IDLE.s), Put([7, 8]), Fresh(IDLE.s).(tx := TxView([], [7, 8], [], 1, 4)))
    ensures Calls(Sender(UNACKED), Hang, Sender(UNACKED).(closing := true))
  {
    EmptyTotal();
    OnePacket();
  }

  lemma OnePacket()
    ensures Total([Span(101, 2)]) == 2
  {
    assert Start([Span(101, 2)], 1) == Start([Span(101, 2)], 0) + 2;
  }

  lemma FinDeferred()
    ensures Calls(Sender(UNACKED).(closing := true), Transmit(1, ANY), Sender(DEFERRED))
    ensures HSend(Sender(UNACKED).(closing := true), 1, ANY).err == HQueue(TxBufferFull)
  {
    OnePacket();
  }

  /** What the rewind to 101 leaves of the waiting handler. */
  function Rewound(): HView {
    Fresh(DEFERRED.(snd := UNACKED.snd.(nxt := 101))).(tx := TxView([], [7, 8], [], 1, 4))
  }

  lemma RewindsToStart()
    ensures Total([Span(101, 2)]) == 2 && HRewind(Sender(DEFERRED), Some(101)) == Rewound()
  {
    OnePacket();
    assert Holding([Span(101, 2)], 101) == 0;
  }

  /** The FIN on the first byte, the second still unsent. */
  function Early(): HView {
    Fresh(UNACKED.(state := FinWait1)).(tx := TxView([7], [8], [Span(101, 1)], 1, 4))
  }

  lemma FinOnFirstByte()
    ensures Total([]) == 0
    ensures var r := SendOrClose(Rewound(), 1, 10);
            r.seg.Some? && r.seg.value.flags.fin && r.data == [7] && r.v == Early() && r.teardown.None?
  {
    EmptyTotal();
  }

  /**
    The close finds the packet list full and leaves the FIN pending; after a rewind the FIN goes out on the first
    byte, and the second is past the end of the stream.
  */
  lemma FinBeforeData()
    ensures HandlerReached(Sender(DEFERRED)) && Total(Sender(DEFERRED).tx.spans) == 2
    ensures var r := HSend(Sender(DEFERRED), 1, Steer(10, Some(101)));
            r.seg.Some? && r.seg.value.flags.fin && r.data == [7] && r.v == Early() && r.v.tx.unsent == [8]
    ensures HandlerReached(Early())
  {
    hide HandlerReached, SendOrClose, HRewind;
    SenderReached();
    FinDeferred();
    CallReached(Sender(UNACKED).(closing := true), Transmit(1, ANY), Sender(DEFERRED));
    RewindsToStart();
    FinOnFirstByte();
    CallReached(Sender(DEFERRED), Transmit(1, Steer(10, Some(101))), Early());
  }

  // ---- unread data

  /** The peer's FIN behind two bytes, which are left to read. */
  function Unread(s: Tcb): HView {
    Fresh(s).(contents := [5, 6], ahead := Fresh(s).ahead[2..])
  }

  const HALF_OPEN := IDLE.s.(state := CloseWait, pending := ACK, rcv := RecvSpace(500, 504, 1000),
    snd := IDLE.s.snd.(wl1 := 501))

  lemma FinWithBytesArrives()
    ensures Calls(Fresh(IDLE.s), Arrive(Segment(501, 101, 2, 10, FINACK), [5, 6]), Unread(HALF_OPEN))
  {
    hide InWindow, InRange, IncomingVerdict;
    EmptyTotal();
    assert [] + [5, 6] == [5, 6];
    BytesAcceptable(IDLE.s, Segment(501, 101, 2, 10, FINACK));
  }

  lemma BytesAcceptable(s: Tcb, seg: Segment)
    requires !s.state.Closed? && seg.first == s.rcv.nxt && 0 < seg.datalen <= 2 && !seg.flags.syn
             && seg.wnd <= MAX_WINDOW && s.rcv.wnd == 1000
    ensures IncomingVerdict(s, seg) == NoErr
  {
    hide Wrap, InWindow, InRange;
    OutgoingLen(seg);
    FirstInWindow(seg.first, s.rcv.wnd);
    LastInWindow(seg, s.rcv.wnd);
  }

  /** A run to CLOSE-WAIT with two bytes unread, where a read for none says end of file. */
  lemma EofWithBytesUnread()
    ensures HandlerReached(Unread(HALF_OPEN)) && HRead(Unread(HALF_OPEN), 0).2 == HEOF
  {
    hide HandlerReached, Calls;
    EstablishedReached();
    FinWithBytesArrives();
    CallReached(Fresh(IDLE.s), Arrive(Segment(501, 101, 2, 10, FINACK), [5, 6]), Unread(HALF_OPEN));
  }

  const BOTH_DONE := FIN_ACKED.s.(state := TimeWait, pending := ACK, rcv := RecvSpace(500, 504, 1000))

  lemma FinGoesOut()
    ensures Calls(Fresh(IDLE.s), Hang, Fresh(IDLE.s).(closing := true))
    ensures Calls(Fresh(IDLE.s).(closing := true), Transmit(0, ANY), Fresh(FIN_SENT.s))
  {
    hide InWindow, InRange;
    EmptyTotal();
    FirstInWindow(101, 10);
    LastInWindow(Segment(101, 501, 0, 1000, FINACK), 10);
  }

  lemma FinAckArrives()
    ensures Calls(Fresh(FIN_SENT.s), Arrive(Segment(501, 102, 0, 10, ACK), []), Fresh(FIN_ACKED.s))
  {
    hide InWindow, InRange, Recv, Next, OutOfOrder;
    EmptyTotal();
    GetsAck();
    RecvIsNext(FIN_SENT, Segment(501, 102, 0, 10, ACK));
  }

  lemma LastFinArrives()
    ensures Calls(Fresh(FIN_ACKED.s), Arrive(Segment(501, 102, 2, 10, FINACK), [5, 6]), Unread(BOTH_DONE))
  {
    hide InWindow, InRange, IncomingVerdict;
    EmptyTotal();
    assert [] + [5, 6] == [5, 6];
    BytesAcceptable(FIN_ACKED.s, Segment(501, 102, 2, 10, FINACK));
  }

  /** What the last ACK leaves. */
  function Done(): HView {
    Fresh(BOTH_DONE.(pending := NONE, rcv := RecvSpace(500, 504, 998))).(remotePort := 0)
  }

  lemma LastAckGoesOut()
    ensures Calls(Unread(BOTH_DONE), Transmit(0, ANY), Done())
  {
    hide InWindow, InRange, HSend, Send, Pending, Wrap;
    EmptyTotal();
    SendsWhatIsPending(Unread(BOTH_DONE), 0, 10);
    LastAckOffered();
    AckIsSent(BOTH_DONE, Segment(102, 504, 0, 998, ACK));
  }

  lemma LastAckOffered()
    ensures Pending(BOTH_DONE, 0) == Some(Segment(102, 504, 0, 1000, ACK))
  {
  }

  /** A run to TIME-WAIT with two bytes unread, where sending the last ACK drops them. */
  lemma UnreadDropped()
    ensures HandlerReached(Unread(BOTH_DONE)) && Calls(Unread(BOTH_DONE), Transmit(0, ANY), Done())
    ensures Unread(BOTH_DONE).contents == [5, 6] && Done().contents == []
  {
    hide HandlerReached, Calls;
    EstablishedReached();
    FinGoesOut();
    CallReached(Fresh(IDLE.s), Hang, Fresh(IDLE.s).(closing := true));
    CallReached(Fresh(IDLE.s).(closing := true), Transmit(0, ANY), Fresh(FIN_SENT.s));
    FinAckArrives();
    CallReached(Fresh(FIN_SENT.s), Arrive(Segment(501, 102, 0, 10, ACK), []), Fresh(FIN_ACKED.s));
    LastFinArrives();
    CallReached(Fresh(FIN_ACKED.s), Arrive(Segment(501, 102, 2, 10, FINACK), [5, 6]), Unread(BOTH_DONE));
    LastAckGoesOut();
  }

  // ---- when a FIN is deferred

  /** The queue's end is where SND.NXT is. */
  predicate InStepWith(v: HView) {
    v.tx.spans == [] || v.tcb.snd.nxt == EndSeq(v.tx.spans)
  }

  /**
    A close with nothing unsent sends the FIN at once if and only if the packet list has room or no data was
    offered with it.
  */
  lemma FinAtOnceExactly(h: HView, room: nat, limit: Size)
    requires Inv(Track(h.tcb, false, 0, false, false)) && h.tcb.state.Established? && !h.tcb.pending.HasCtl()
             && InStepWith(h)
    requires !ChallengePending(h.tcb) && !HasPendingRetransmit(h.tcb) && h.closing && !h.requeue && h.tx.unsent == []
    requires Total(h.tx.spans) == |h.tx.sent| && |h.contents| + |h.ahead| <= MAX_WINDOW
    ensures var r, s := HSend(h, room, Steer(limit, None)), Close(h.tcb).0;
            var p := Pending(s, Room(s, h.tx, room, limit));
            && p.Some? && p.value.flags.fin
            && (r.seg.Some? <==> |h.tx.spans| < h.tx.slots || p.value.datalen == 0)
            && (r.seg.Some? ==> r.seg.value.flags.fin && r.data == [])
            && (r.seg.None? ==> r.err == HQueue(TxBufferFull))
            && r.v.tcb.state == (if r.seg.Some? then FinWait1 else Established) && r.v.tx == h.tx && !r.v.closing
  {
    hide Wrap, LessThan, Send, RecvWindow, Total, EndSeq, StartingAt, Start, Room, Pending, OutgoingVerdict, SpaceOk;
    var s := Close(h.tcb).0;
    CloseKeeps(Track(h.tcb, false, 0, false, false));
    var k := Room(s, h.tx, room, limit);
    FinOffered(s, k);
    NotBeforeItself(s.snd.nxt);
    var v := h.(tcb := s, closing := false);
    WindowSmall(v);
    FinAccepted(s, k, RecvWindow(v));
    RewindTotals(h, None);
    assert HSend(h, room, Steer(limit, None)) == SendPending(v, k);
  }

  lemma WindowSmall(v: HView)
    requires |v.contents| + |v.ahead| <= MAX_WINDOW
    ensures RecvWindow(v) <= MAX_WINDOW
  {
  }

  lemma FinOffered(s: Tcb, room: nat)
    requires s.state.Established? && (s.pending == FIN || s.pending == FINACK) && !ChallengePending(s)
    ensures var p := Pending(s, room);
            p.Some? && p.value.flags == FINACK && p.value.first == s.snd.nxt
  {
    hide Wrap;
  }

  lemma SentIfAccepted(s: Tcb, seg: Segment)
    requires s.state.Established? && seg.flags.fin
    ensures Send(s, seg).1 == NoErr ==> Send(s, seg).0.state.FinWait1?
  {
    hide Wrap, OutgoingVerdict, NextSnd, NextPending, LessThan;
  }

  lemma FinAccepted(s: Tcb, room: nat, wnd: Size)
    requires Inv(Track(s, false, 0, false, false)) && wnd <= MAX_WINDOW && Pending(s, room).Some?
    requires Pending(s, room).value.flags == FINACK && s.state.Established?
    ensures var r := Send(s, Pending(s, room).value.(datalen := 0, wnd := wnd)); r.1 == NoErr && r.0.state.FinWait1?
  {
    hide Send, Pending, Inv;
    SentIfAccepted(s, Pending(s, room).value.(datalen := 0, wnd := wnd));
    NoSelfRejection(Track(s, false, 0, false, false), DoSend(room, 0, false, wnd));
  }

  /**
    After a close that was asked for, a write is taken if and only if the FIN was deferred, with the packet list
    full and data offered, and the bytes fit.
  */
  lemma WriteAfterCloseExactly(h: HView, room: nat, limit: Size, b: seq<byte>)
    requires Inv(Track(h.tcb, false, 0, false, false)) && h.tcb.state.Established? && !h.tcb.pending.HasCtl()
             && InStepWith(h)
    requires !ChallengePending(h.tcb) && !HasPendingRetransmit(h.tcb) && h.closing && !h.requeue && h.tx.unsent == []
    requires Total(h.tx.spans) == |h.tx.sent| && |h.contents| + |h.ahead| <= MAX_WINDOW
    ensures var r, s := HSend(h, room, Steer(limit, None)), Close(h.tcb).0;
            var p := Pending(s, Room(s, h.tx, room, limit));
            && p.Some?
            && (HWrite(r.v, b).1 == HOk <==>
                |h.tx.spans| >= h.tx.slots && p.value.datalen > 0 && TxWriteError(h.tx, b) == TxOk)
  {
    hide HSend, Inv, Total, Pending, Room, Close, TxWriteError;
    FinAtOnceExactly(h, room, limit);
  }

  /** Such a write: the handler was told to close, and takes a byte. */
  lemma WriteAfterClose()
    ensures HandlerReached(Sender(DEFERRED)) && HWrite(Sender(DEFERRED), [9]).1 == HOk
  {
    hide HandlerReached;
    FinBeforeData();
  }

  /** Where the early FIN leads: the next send asks the queue for a packet past its end. */
  lemma OutOfStep()
    ensures HandlerReached(Early()) && Total(Early().tx.spans) == 1 && !SendAgrees(Early(), 1, ANY)
  {
    hide HandlerReached, CloseAgrees;
    FinBeforeData();
    assert Start([Span(101, 1)], 1) == Start([Span(101, 1)], 0) + 1;
    RewindTotals(Early(), None);
    EarlyDisagrees();
  }

  lemma EarlyDisagrees()
    ensures !CloseAgrees(Early(), 1, 10)
  {
  }

  /**
    A run to a handler whose rewind into the middle of a packet moves SND.NXT there and the queue to the packet's
    start.
  */
  lemma RewindMidPacket()
    ensures HandlerReached(Sender(UNACKED)) && Total(Sender(UNACKED).tx.spans) == 2 && CanRewind(UNACKED, 102)
    ensures var w := HRewind(Sender(UNACKED), Some(102));
            w.tcb.snd.nxt == 102 && w.tx.sent == [] && w.tx.unsent == [7, 8]
  {
    hide HandlerReached;
    SenderReached();
    OnePacket();
    assert Holding([Span(101, 2)], 102) == 0;
  }

  // ---- a read after an abort

  /** The peer numbers its stream from the last values of the sequence space. */
  const EDGE := IDLE.s.(pending := ACK, snd := IDLE.s.snd.(wl1 := MOD - 4), rcv := RecvSpace(MOD - 4, MOD - 3, 1000))
  const EDGE_NEXT := EDGE.(snd := IDLE.s.snd.(wl1 := MOD - 3), rcv := RecvSpace(MOD - 4, MOD - 2, 1000))

  lemma EdgeSynAck()
    ensures Calls(Fresh(SYN_SENT.s), Arrive(Segment(MOD - 4, 101, 0, 10, SYNACK), []), Fresh(EDGE))
  {
    hide InWindow, InRange, OutOfOrder;
    EmptyTotal();
  }

  /** One byte received, and nothing held or one byte staged past a gap of two. */
  function AtEdge(s: Tcb, held: seq<Held>, ahead: seq<byte>): HView {
    Fresh(s).(contents := [1], held := held, ahead := ahead)
  }

  function Zeros(): seq<byte> {
    Fresh(EDGE).ahead[1..]
  }

  lemma ByteArrives()
    ensures Calls(Fresh(EDGE), Arrive(Segment(MOD - 3, 101, 1, 10, ACK), [1]), AtEdge(EDGE_NEXT, [], Zeros()))
  {
    hide InWindow, InRange, Recv;
    EmptyTotal();
    assert [] + [1] == [1];
    EdgeTakes();
  }

  lemma EdgeTakes()
    ensures Recv(EDGE, Segment(MOD - 3, 101, 1, 10, ACK)) == (EDGE_NEXT, NoErr)
  {
    hide InWindow, InRange, IncomingVerdict;
    WrapIsMod(-1);
    BytesAcceptable(EDGE, Segment(MOD - 3, 101, 1, 10, ACK));
  }

  /** Number zero, two ahead of rcv.NXT. */
  lemma ZeroIsStaged()
    ensures Calls(AtEdge(EDGE_NEXT, [], Zeros()), Arrive(Segment(0, 101, 1, 10, ACK), [3]),
                  AtEdge(EDGE_NEXT, [Held(0, 1)], Splice(Zeros(), 2, [3])))
  {
    hide InRange, InWindow, Recv, Place;
    EmptyTotal();
    var h: seq<Held> := [];
    assert h[..0] + [Held(0, 1)] + h[0..] == [Held(0, 1)];
    assert EDGE_NEXT.pending.(ack := true) == EDGE_NEXT.pending;
    ZeroInWindow();
    assert Place(h, 8, 999, MOD - 2, 0, 1) == Insert(0) by { ZeroPlaced(); }
  }

  lemma ZeroInWindow()
    ensures InWindow(0, MOD - 2, 1000) && Segment(0, 101, 1, 10, ACK).Last() == 0 && Sizeof(MOD - 2, 0) == 2
  {
    WrapIsMod(2 - MOD);
    AddThenSizeof(MOD - 2, 1000);
  }

  lemma ZeroPlaced()
    ensures Place([], 8, 999, MOD - 2, 0, 1) == Insert(0)
  {
    WrapIsMod(2 - MOD);
  }

  lemma ResetArrives(ahead: seq<byte>)
    requires |ahead| == 999
    ensures Calls(AtEdge(EDGE_NEXT, [Held(0, 1)], ahead), Arrive(Segment(MOD - 2, 0, 0, 10, RST), []),
                  AtEdge(RESET, [Held(0, 1)], ahead))
  {
    hide InWindow, InRange, IncomingVerdict;
    EmptyTotal();
    Acceptable(EDGE_NEXT, Segment(MOD - 2, 0, 0, 10, RST));
  }

  /** A read of the one byte received makes the next one in the ring readable. */
  lemma GapBecomesReadable(ahead: seq<byte>)
    requires |ahead| == 999
    ensures HRead(AtEdge(RESET, [Held(0, 1)], ahead), 1).0.contents == ahead[..1]
  {
    hide WindowUpdateDue;
    var g := AtEdge(RESET, [Held(0, 1)], ahead).(contents := [], ahead := ahead + [1]);
    assert [1][1..] == [] && [1][..1] == [1] && (ahead + [1])[..1] == ahead[..1];
    assert Deliver(g.held[1..], 1, 999) == (0, []);
    assert DeliverHeld(g).contents == [] + ahead[..1];
  }

  /**
    A run to an aborted connection that received the byte 1 and staged a 3 past a gap of two: after a read the byte
    at the gap, a zero the ring was made with, is readable though it was never received.
  */
  lemma AbortedReadExample()
    ensures var ahead := Splice(Zeros(), 2, [3]);
            && HandlerReached(AtEdge(RESET, [Held(0, 1)], ahead))
            && HRead(AtEdge(RESET, [Held(0, 1)], ahead), 1).0.contents == [0]
  {
    hide HandlerReached, Calls, HRead;
    var ahead := Splice(Zeros(), 2, [3]);
    OpenedReached(Fresh(OPENED));
    SynGoesOut();
    CallReached(Fresh(OPENED), Transmit(10, ANY), Fresh(SYN_SENT.s));
    EdgeSynAck();
    CallReached(Fresh(SYN_SENT.s), Arrive(Segment(MOD - 4, 101, 0, 10, SYNACK), []), Fresh(EDGE));
    ByteArrives();
    CallReached(Fresh(EDGE), Arrive(Segment(MOD - 3, 101, 1, 10, ACK), [1]), AtEdge(EDGE_NEXT, [], Zeros()));
    ZeroIsStaged();
    CallReached(AtEdge(EDGE_NEXT, [], Zeros()), Arrive(Segment(0, 101, 1, 10, ACK), [3]),
                AtEdge(EDGE_NEXT, [Held(0, 1)], ahead));
    ResetArrives(ahead);
    CallReached(AtEdge(EDGE_NEXT, [Held(0, 1)], ahead), Arrive(Segment(MOD - 2, 0, 0, 10, RST), []),
                AtEdge(RESET, [Held(0, 1)], ahead));
    GapBecomesReadable(ahead);
  }

  // ---- an ACK held back

  const OWING := UNACKED.(pending := ACK, dupack := 1, snd := UNACKED.snd.(wl1 := 501),
                          rcv := RecvSpace(500, 503, 1000))

  /** `Sender` with two bytes received. */
  function Owing(): HView {
    Sender(OWING).(contents := [5, 6], ahead := Fresh(OWING).ahead[2..])
  }

  lemma BytesArrive()
    ensures Calls(Sender(UNACKED), Arrive(Segment(501, 101, 2, 10, ACK), [5, 6]), Owing())
  {
    hide InWindow, InRange, Recv;
    OnePacket();
    assert [] + [5, 6] == [5, 6];
    BytesTaken();
  }

  lemma BytesTaken()
    ensures Recv(UNACKED, Segment(501, 101, 2, 10, ACK)) == (OWING, NoErr)
  {
    hide InWindow, InRange, IncomingVerdict;
    BytesAcceptable(UNACKED, Segment(501, 101, 2, 10, ACK));
  }

  lemma OwingOffered()
    ensures Pending(OWING, 1) == Some(Segment(103, 503, 1, 1000, ACK)) && HasPending(OWING)
  {
  }

  lemma OwingSends()
    ensures Total(Owing().tx.spans) == 2
    ensures HSend(Owing(), 1, ANY) == Sent(Owing(), None, [], HQueue(TxBufferFull), None)
  {
    hide HSend, Pending, HasPending, RecvWindow;
    OnePacket();
    OwingOffered();
    SendsWhatIsPending(Owing(), 1, 10);
  }

  /** A run to a handler whose packet list is full: it owes an ACK, and a send with room for data sends nothing. */
  lemma AckHeldBack()
    ensures HandlerReached(Owing()) && Owing().tcb.pending.ack
    ensures Calls(Owing(), Transmit(1, ANY), Owing()) && HSend(Owing(), 1, ANY).seg.None?
  {
    hide HandlerReached, HSend;
    OwingSends();
    assert HandlerReached(Owing()) by {
      hide Calls;
      SenderReached();
      BytesArrive();
      CallReached(Sender(UNACKED), Arrive(Segment(501, 101, 2, 10, ACK), [5, 6]), Owing());
    }
  }
}
