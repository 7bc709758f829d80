/**
  One endpoint as a writer, from an established connection through every way of closing it: what it puts on the
  wire is the stream its user wrote, at the position its sequence number says, and its FIN comes after all of it.
*/
module Writers {
  import opened Options
  import opened Bytes
  import opened SeqNum
  import opened Segments
  import C = Control
  import R = ControlRuns
  import opened TxQueue
  import opened Reassembling
  import opened HandlerSpec
  import opened Endpoint
  import opened SendQueue
  import opened StreamEnd

  /** Position in the stream `S` of the oldest byte the queue holds. */
  function Una(h: HView, S: seq<byte>): int {
    |S| - |h.tx.sent| - |h.tx.unsent|
  }

  /** The endpoint with SND.NXT where the queue's sent part ends. */
  function Stepped(h: HView, S: seq<byte>, base: int): HView {
    h.(tcb := h.tcb.(snd := h.tcb.snd.(nxt := Wrap(base + Una(h, S) + |h.tx.sent|))))
  }

  /** SND.NXT follows the queue's sent part, or the FIN, once that went out and nothing is unsent. */
  ghost predicate NxtOk(h: HView, S: seq<byte>, base: int, fin: bool) {
    || h.tcb.snd.nxt == Wrap(base + Una(h, S) + |h.tx.sent|)
    || (fin && h.tx.unsent == [] && h.tcb.snd.nxt == Wrap(base + (|S| + 1)))
  }

  ghost predicate QueueOk(h: HView, S: seq<byte>, base: int, fin: bool) {
    SenderOk(Stepped(h, S, base), S, base, Una(h, S)) && NxtOk(h, S, base, fin)
      && (fin ==> |S| - Una(h, S) <= MAX_WINDOW)
  }

  /** The control block's invariant, with the FIN's acknowledgement left open: a rewind may go below the FIN. */
  ghost predicate BlockOk(s: C.Tcb, fin: bool) {
    R.Inv(R.Track(s, fin, 0, true, true)) && !s.pending.rst && !s.pending.syn
  }

  /** Position of the sequence number `v`, at most one past the stream and its FIN. */
  function At(v: Value, S: seq<byte>, base: int): int {
    |S| + 1 - Sizeof(v, Wrap(base + (|S| + 1)))
  }

  ghost predicate Placed(v: Value, S: seq<byte>, base: int, fin: bool) {
    0 <= At(v, S, base) <= |S| + Bit(fin)
  }

  /** Nothing but ACKs is left to send. */
  predicate Quiet(st: State) {
    st.FinWait2? || st.TimeWait?
  }

  ghost predicate QuietOk(s: C.Tcb, S: seq<byte>, base: int, fin: bool) {
    !s.pending.HasCtl() && s.queued == NONE && Placed(s.snd.nxt, S, base, fin)
  }

  /** The writer of `S`; `fin` tells whether its FIN went out. */
  ghost predicate WriterOk(h: HView, S: seq<byte>, base: int, fin: bool) {
    var st := h.tcb.state;
    && (fin ==> !st.TxDataOpen()) && !h.requeue
    && (st.TxQueuedDataOpen() ==> QueueOk(h, S, base, fin) && BlockOk(h.tcb, fin))
    && (Quiet(st) ==> QuietOk(h.tcb, S, base, fin))
  }

  // ---- positions

  lemma AtExact(p: int, S: seq<byte>, base: int)
    requires |S| + 1 - MOD < p <= |S| + 1
    ensures At(Wrap(base + p), S, base) == p
  {
    hide Wrap;
    SizeofExact(base, p, |S| + 1);
  }

  lemma AtIsIt(v: Value, S: seq<byte>, base: int)
    ensures v == Wrap(base + At(v, S, base))
  {
    var e := base + (|S| + 1);
    WrapIsMod(e);
    WrapIsMod(Wrap(e) - v);
    WrapIsMod(base + At(v, S, base));
  }

  /** Where SND.NXT is. */
  lemma NxtPlaced(h: HView, S: seq<byte>, base: int, fin: bool)
    requires QueueOk(h, S, base, fin)
    ensures Placed(h.tcb.snd.nxt, S, base, fin)
    ensures At(h.tcb.snd.nxt, S, base) == Una(h, S) + |h.tx.sent|
            || (fin && h.tx.unsent == [] && At(h.tcb.snd.nxt, S, base) == |S| + 1)
  {
    hide Wrap, Chained, Total, At;
    AtExact(Una(h, S) + |h.tx.sent|, S, base);
    AtExact(|S| + 1, S, base);
    assert base + (Una(h, S) + |h.tx.sent|) == base + Una(h, S) + |h.tx.sent|;
  }

  /** A writer in order in any state of the connection. */
  lemma Settles(h: HView, S: seq<byte>, base: int, fin: bool)
    requires QueueOk(h, S, base, fin) && BlockOk(h.tcb, fin) && !h.requeue && Opened(h.tcb.state)
    ensures WriterOk(h, S, base, fin)
  {
    hide QueueOk, Placed, R.SpaceOk;
    NxtPlaced(h, S, base, fin);
  }

  // ---- moves that touch neither the queue nor the send space

  lemma BlockFrame(s: C.Tcb, s': C.Tcb, fin: bool)
    requires BlockOk(s, fin) && !s.state.Closed? && s'.rcv.wnd <= MAX_WINDOW
    requires s' == s.(rcv := s'.rcv, pending := s'.pending)
             && (s'.pending == s.pending || s'.pending == s.pending.(ack := true))
    ensures BlockOk(s', fin)
  {
    hide Wrap;
  }

  /** What leaves the queue, the send space and the control flags alone keeps the writer. */
  lemma FrameKept(h: HView, h': HView, S: seq<byte>, base: int, fin: bool)
    requires WriterOk(h, S, base, fin) && !h.tcb.state.Closed? && h'.tx == h.tx && !h'.requeue
    requires h'.tcb == h.tcb.(rcv := h'.tcb.rcv, pending := h'.tcb.pending) && h'.tcb.rcv.wnd <= MAX_WINDOW
    requires h'.tcb.pending == h.tcb.pending || h'.tcb.pending == h.tcb.pending.(ack := true)
    ensures WriterOk(h', S, base, fin)
  {
    hide Wrap, BlockOk, Coherent;
    if h.tcb.state.TxQueuedDataOpen() {
      BlockFrame(h.tcb, h'.tcb, fin);
    }
  }

  // ---- writes

  lemma WriteKept(h: HView, S: seq<byte>, base: int, fin: bool, b: seq<byte>)
    requires WriterOk(h, S, base, fin) && HWrite(h, b).1 == HOk
    ensures !fin && WriterOk(HWrite(h, b).0, S + b, base, fin)
    ensures |S + b| < Una(h, S) + HALF
  {
    hide Wrap, Coherent, TxWriteError, BlockOk;
    WriteSender(Stepped(h, S, base), S, base, Una(h, S), b);
    WriteFits(Stepped(h, S, base), S, base, Una(h, S), b);
  }

  // ---- arrivals

  /** What an accepted segment that acknowledges position `q` does to the queue and to the send space. */
  ghost predicate AckStep(h: HView, h': HView, seg: Segment) {
    && Total(h.tx.spans) == |h.tx.sent| && h'.tcb.snd.nxt == h.tcb.snd.nxt
    && h'.tcb.snd.una == (if R.Takes(h.tcb.snd, seg) then seg.ackno else h.tcb.snd.una)
    && h'.tx == (if seg.flags.ack && seg.ackno != h.tcb.snd.una then TxAck(h.tx, seg.ackno) else h.tx)
  }

  /** A segment acknowledges a position of the stream or its FIN, less than half a turn behind. */
  ghost predicate AcksAt(h: HView, seg: Segment, q: int, S: seq<byte>, base: int, fin: bool) {
    seg.flags.ack ==> seg.ackno == Wrap(base + q) && Una(h, S) - HALF < q <= |S| + Bit(fin)
  }

  /** An acknowledgement short of SND.NXT past the FIN is the same for the queue with and without the FIN. */
  lemma SameTakes(base: int, u: int, q: int, e: int)
    requires u - HALF < q <= e < u + HALF - 1
    ensures LessThan(Wrap(base + u), Wrap(base + q)) ==>
              (LessThanEq(Wrap(base + q), Wrap(base + e)) <==> LessThanEq(Wrap(base + q), Wrap(base + (e + 1))))
  {
    hide Wrap, LessThan;
    OrderExact(base, u, q);
    if u < q {
      OrderExact(base, q, e);
      OrderExact(base, q, e + 1);
    }
  }

  lemma AckedInStep(h: HView, h': HView, S: seq<byte>, base: int, fin: bool, seg: Segment, q: int)
    requires QueueOk(h, S, base, fin) && AckStep(h, h', seg) && AcksAt(h, seg, q, S, base, fin)
    requires h.tcb.snd.nxt == Wrap(base + Una(h, S) + |h.tx.sent|)
    ensures QueueOk(h', S, base, fin) && Una(h, S) <= Una(h', S)
            && (Una(h', S) == Una(h, S) || (seg.flags.ack && Una(h', S) <= q))
  {
    hide Wrap, R.Takes, TxAck, Coherent;
    var u := Una(h, S);
    SenderFrame(Stepped(h, S, base), h, S, base, u);
    SenderSize(h, S, base, u);
    if seg.flags.ack {
      AckedSender(h, h', S, base, u, seg, q);
    } else {
      NoTake(h.tcb.snd, seg);
    }
  }

  lemma NoTake(snd: C.SendSpace, seg: Segment)
    requires !seg.flags.ack
    ensures !R.Takes(snd, seg)
  {
    hide LessThan;
  }

  lemma SenderSize(h: HView, S: seq<byte>, base: int, u: int)
    requires SenderOk(h, S, base, u)
    ensures 0 <= u && u + |h.tx.sent| + |h.tx.unsent| == |S| < u + HALF
  {
    hide Wrap, Chained, Total;
  }

  lemma AckedPastFin(h: HView, h': HView, S: seq<byte>, base: int, seg: Segment, q: int)
    requires QueueOk(h, S, base, true) && AckStep(h, h', seg) && AcksAt(h, seg, q, S, base, true)
    requires h.tx.unsent == [] && h.tcb.snd.nxt == Wrap(base + (|S| + 1)) && (seg.flags.ack ==> q <= |S|)
    ensures QueueOk(h', S, base, true) && Una(h, S) <= Una(h', S)
            && (Una(h', S) == Una(h, S) || (seg.flags.ack && Una(h', S) <= q))
  {
    hide Wrap, R.Takes, TxAck, Coherent;
    var u, h0 := Una(h, S), Stepped(h, S, base);
    var h0' := h'.(tcb := h'.tcb.(snd := h'.tcb.snd.(nxt := h0.tcb.snd.nxt)));
    SenderSize(h0, S, base, u);
    assert base + u + |h.tx.sent| == base + |S|;
    if seg.flags.ack {
      SameTakes(base, u, q, |S|);
      TakesSame(h0.tcb.snd, h.tcb.snd, seg);
      AckedSender(h0, h0', S, base, u, seg, q);
      SenderSize(h0', S, base, Una(h', S));
      SenderFrame(h0', Stepped(h', S, base), S, base, Una(h', S));
    } else {
      NoTake(h.tcb.snd, seg);
      SenderFrame(h0, Stepped(h', S, base), S, base, u);
    }
  }

  lemma TakesSame(snd: C.SendSpace, snd': C.SendSpace, seg: Segment)
    requires snd.una == snd'.una
    requires LessThan(snd.una, seg.ackno) ==> (LessThanEq(seg.ackno, snd.nxt) <==> LessThanEq(seg.ackno, snd'.nxt))
    ensures R.Takes(snd, seg) <==> R.Takes(snd', seg)
  {
    hide LessThan;
  }

  /** An accepted segment: what it leaves of the control block, the queue and the rest. */
  lemma AcceptedParts(h: HView, seg: Segment, payload: seq<byte>, h': HView)
    requires BuffersOk(h) && Opened(h.tcb.state) && AcceptedCase(h, seg, payload, h')
             && !C.Recv(h.tcb, seg).0.state.Closed?
    ensures var s := C.Recv(h.tcb, seg).0;
            && AckStep(h, h', seg) && h'.requeue == h.requeue && !s.pending.rst == !h.tcb.pending.rst
               && !s.pending.syn == !h.tcb.pending.syn
            && h'.tcb == s.(rcv := h'.tcb.rcv, pending := h'.tcb.pending)
               && h'.tcb.rcv.wnd == s.rcv.wnd == h.tcb.rcv.wnd
            && (h'.tcb.pending == s.pending || h'.tcb.pending == s.pending.(ack := true))
            && s.pending.fin == h.tcb.pending.fin && s.queued == h.tcb.queued
  {
    hide Wrap, C.Recv, C.Handle, R.Takes, TxAck, Total;
    var s := C.Recv(h.tcb, seg).0;
    AcceptedMoves(h.tcb, seg);
    R.AcceptEffect(h.tcb, seg);
    R.RecvRefusal(h.tcb, seg);
    R.HandleEffect(h.tcb, seg);
    HandleFlags(h.tcb, seg);
    TakenBlock(h.(tcb := s), payload);
  }

  lemma HandleFlags(s: C.Tcb, seg: Segment)
    requires Opened(s.state) && C.Handle(s, seg).2 == C.NoErr
    ensures !C.Handle(s, seg).1.HasCtl()
  {
    hide Wrap, C.Handle;
    R.HandleEffect(s, seg);
    R.HandleStates(s, seg);
  }

  lemma TakenBlock(v: HView, payload: seq<byte>)
    requires |payload| <= |v.ahead| && !v.shutdownRx
    ensures var g := TakePayload(v, payload);
            && g.tx == v.tx && g.requeue == v.requeue
            && g.tcb == v.tcb.(rcv := g.tcb.rcv, pending := g.tcb.pending) && g.tcb.rcv.wnd == v.tcb.rcv.wnd
            && (g.tcb.pending == v.tcb.pending || g.tcb.pending == v.tcb.pending.(ack := true))
  {
    hide Wrap, Deliver;
  }

  lemma NotHalf(h: HView, seg: Segment, q: int, S: seq<byte>, base: int, fin: bool)
    requires QueueOk(h, S, base, fin) && AcksAt(h, seg, q, S, base, fin)
    ensures !R.HalfTurnAck(h.tcb, seg)
  {
    hide Wrap, Coherent, R.HalfTurnAck;
    SenderSize(Stepped(h, S, base), S, base, Una(h, S));
    if seg.flags.ack {
      NotHalfTurn(h.tcb, seg, base, Una(h, S), q);
    } else {
      assert !R.HalfTurnAck(h.tcb, seg) by { HalfNeedsAck(h.tcb, seg); }
    }
  }

  lemma HalfNeedsAck(s: C.Tcb, seg: Segment)
    ensures R.HalfTurnAck(s, seg) ==> seg.flags.ack
  {
  }

  /** The invariant of the control block after an accepted segment. */
  lemma RecvBlock(s: C.Tcb, fin: bool, seg: Segment)
    requires BlockOk(s, fin) && Opened(s.state) && C.Recv(s, seg).1 == C.NoErr && !R.HalfTurnAck(s, seg)
    ensures var s' := C.Recv(s, seg).0; Opened(s'.state) ==> R.Inv(R.Track(s', fin, 0, true, true))
  {
    hide Wrap, C.Recv, R.Inv, R.Next, R.HalfTurnAck;
    var t := R.Track(s, fin, 0, true, true);
    R.RecvKeeps(t, seg);
    R.AcceptedTrack(t, seg);
    if Opened(C.Recv(s, seg).0.state) {
      assert R.Next(t, R.DoRecv(seg)) == R.Track(C.Recv(s, seg).0, fin, 0, true, true);
    }
  }

  /** An acknowledgement of the FIN leaves no state in which queued data could be sent. */
  lemma FinAckLeaves(s: C.Tcb, fin: bool, seg: Segment)
    requires BlockOk(s, fin) && fin && C.Recv(s, seg).1 == C.NoErr && seg.flags.ack && seg.ackno == s.snd.nxt
    ensures !C.Recv(s, seg).0.state.TxQueuedDataOpen()
  {
    hide Wrap, C.Recv, C.Handle, R.Takes, R.SpaceOk, R.FlagsOk;
    R.AcceptEffect(s, seg);
    R.RecvRefusal(s, seg);
    R.HandleStates(s, seg);
  }

  /** Where SND.UNA of the writer goes: nowhere, or forward to the position `q` acknowledged. */
  ghost predicate UnaMoves(h: HView, h': HView, S: seq<byte>, ack: bool, q: int) {
    Una(h, S) <= Una(h', S) && (Una(h', S) == Una(h, S) || (ack && Una(h', S) <= q))
  }

  lemma AcceptedQueue(h: HView, seg: Segment, payload: seq<byte>, h': HView, S: seq<byte>, base: int, fin: bool, q: int)
    requires BuffersOk(h) && QueueOk(h, S, base, fin) && BlockOk(h.tcb, fin) && Opened(h.tcb.state)
             && AcksAt(h, seg, q, S, base, fin)
    requires AcceptedCase(h, seg, payload, h') && h'.tcb.state.TxQueuedDataOpen() && !C.Recv(h.tcb, seg).0.state.Closed?
    ensures QueueOk(h', S, base, fin) && UnaMoves(h, h', S, seg.flags.ack, q)
  {
    hide QueueOk, BlockOk, Accepted, BuffersOk, AckStep, R.Takes, C.Recv, Wrap;
    AcceptedParts(h, seg, payload, h');
    NxtCases(h, S, base, fin);
    if h.tcb.snd.nxt == Wrap(base + Una(h, S) + |h.tx.sent|) {
      AckedInStep(h, h', S, base, fin, seg, q);
    } else {
      if seg.flags.ack && q == |S| + 1 {
        FinAckLeaves(h.tcb, fin, seg);
      }
      AckedPastFin(h, h', S, base, seg, q);
    }
  }

  lemma NxtCases(h: HView, S: seq<byte>, base: int, fin: bool)
    requires QueueOk(h, S, base, fin)
    ensures NxtOk(h, S, base, fin)
  {
    hide Wrap, NxtOk, SenderOk;
  }

  /** The writer after an accepted segment. */
  lemma AcceptedWriter(h: HView, seg: Segment, payload: seq<byte>, h': HView, S: seq<byte>, base: int, fin: bool,
                       q: int)
    requires BuffersOk(h) && WriterOk(h, S, base, fin) && Opened(h.tcb.state) && !C.Recv(h.tcb, seg).0.state.Closed?
    requires AcceptedCase(h, seg, payload, h') && (h.tcb.state.TxQueuedDataOpen() ==> AcksAt(h, seg, q, S, base, fin))
    ensures WriterOk(h', S, base, fin)
    ensures h'.tcb.state.TxQueuedDataOpen() ==> h.tcb.state.TxQueuedDataOpen() && UnaMoves(h, h', S, seg.flags.ack, q)
  {
    hide QueueOk, BlockOk, Accepted, BuffersOk, R.Takes, C.Recv, Wrap, At, UnaMoves, R.HalfTurnAck, AcksAt;
    var s := C.Recv(h.tcb, seg).0;
    AcceptedMoves(h.tcb, seg);
    AcceptedParts(h, seg, payload, h');
    if h.tcb.state.TxQueuedDataOpen() {
      NotHalf(h, seg, q, S, base, fin);
      RecvBlock(h.tcb, fin, seg);
      BlockKept(h.tcb, s, h'.tcb, fin);
      NxtPlaced(h, S, base, fin);
      BlockStates(h'.tcb, fin);
      if h'.tcb.state.TxQueuedDataOpen() {
        AcceptedQueue(h, seg, payload, h', S, base, fin, q);
      }
    } else {
      LastStates(h.tcb, seg);
    }
  }

  lemma BlockKept(s: C.Tcb, s': C.Tcb, g: C.Tcb, fin: bool)
    requires BlockOk(s, fin) && R.Inv(R.Track(s', fin, 0, true, true)) && Opened(s'.state) && s'.rcv.wnd == g.rcv.wnd
    requires !s'.pending.rst == !s.pending.rst && !s'.pending.syn == !s.pending.syn
    requires g == s'.(rcv := g.rcv, pending := g.pending)
             && (g.pending == s'.pending || g.pending == s'.pending.(ack := true))
    ensures BlockOk(g, fin)
  {
    hide R.FlagsOk, R.HistoryOk;
    assert s'.rcv.wnd <= MAX_WINDOW;
    hide R.SpaceOk;
    BlockFrame(s', g, fin);
  }

  /** A state past the FIN has no FIN pending, a state before it none sent. */
  lemma BlockStates(s: C.Tcb, fin: bool)
    requires BlockOk(s, fin)
    ensures s.queued == NONE && (Quiet(s.state) ==> fin && !s.pending.HasCtl())
    ensures fin ==> !s.state.TxDataOpen() && !s.pending.HasCtl()
  {
    hide R.SpaceOk;
  }

  lemma LastStates(s: C.Tcb, seg: Segment)
    requires Quiet(s.state) && C.Recv(s, seg).1 == C.NoErr
    ensures Quiet(C.Recv(s, seg).0.state)
  {
    hide Wrap, C.Recv, C.Handle, R.Takes;
    R.AcceptEffect(s, seg);
    R.RecvRefusal(s, seg);
    R.HandleStates(s, seg);
  }

  /** A refused segment leaves the writer, or ends the connection. */
  lemma RefusedWriter(h: HView, seg: Segment, S: seq<byte>, base: int, fin: bool)
    requires WriterOk(h, S, base, fin) && Opened(h.tcb.state) && C.Recv(h.tcb, seg).1 != C.NoErr
    ensures WriterOk(h.(tcb := C.Recv(h.tcb, seg).0), S, base, fin)
  {
    hide QueueOk, BlockOk, C.Recv, Wrap, At;
    var s := C.Recv(h.tcb, seg).0;
    R.RecvRefusal(h.tcb, seg);
    if s != C.RESET && h.tcb.state.TxQueuedDataOpen() {
      RefusedBlock(h.tcb, fin, seg);
      QueueFrame(h, h.(tcb := s), S, base, fin);
    }
  }

  lemma QueueFrame(h: HView, h': HView, S: seq<byte>, base: int, fin: bool)
    requires QueueOk(h, S, base, fin) && h'.tx == h.tx && h'.tcb.snd.una == h.tcb.snd.una
             && h'.tcb.snd.nxt == h.tcb.snd.nxt
    ensures QueueOk(h', S, base, fin)
  {
    hide Wrap, Coherent;
  }

  lemma RefusedBlock(s: C.Tcb, fin: bool, seg: Segment)
    requires BlockOk(s, fin) && Opened(s.state) && C.Recv(s, seg).1 != C.NoErr
    ensures var v := C.Recv(s, seg).0; v == C.RESET || (BlockOk(v, fin) && v.snd == s.snd && v.state == s.state)
  {
    hide Wrap, C.Recv, R.Inv, R.Next;
    var t := R.Track(s, fin, 0, true, true);
    R.RecvRefusal(s, seg);
    R.RefusalKeeps(t, seg);
    R.RefusedTrack(t, seg);
  }

  /** Any segment whose acknowledgement is honest keeps the writer. */
  lemma ArrivalWriter(h: HView, seg: Segment, payload: seq<byte>, S: seq<byte>, base: int, fin: bool, q: int)
    requires BuffersOk(h) && WriterOk(h, S, base, fin) && Opened(h.tcb.state) && seg.datalen == |payload|
    requires h.tcb.state.TxQueuedDataOpen() && C.Recv(h.tcb, seg).1 == C.NoErr ==> AcksAt(h, seg, q, S, base, fin)
    ensures var h' := HRecv(h, seg, payload, 0, 0).0;
            && WriterOk(h', S, base, fin)
            && (h'.tcb.state.TxQueuedDataOpen() ==>
               h.tcb.state.TxQueuedDataOpen() && UnaMoves(h, h', S, seg.flags.ack, q))
  {
    hide WriterOk, C.Recv, Wrap, HRecv, Accepted, StoredCase, OutOfOrder, AcksAt;
    var h' := HRecv(h, seg, payload, 0, 0).0;
    ArrivalCases(h, seg, payload);
    StaysOut(h, S, base, fin);
    if h' == h {
    } else if StoredCase(h, seg, payload, h') {
      StoredFrame(h, seg, payload, h');
      FrameKept(h, h', S, base, fin);
    } else if RefusedCase(h, seg, h') {
      RefusedWriter(h, seg, S, base, fin);
      RefusedSame(h, seg, h', S);
    } else if C.Recv(h.tcb, seg).0.state.Closed? {
      GoneWriter(h.(tcb := C.Recv(h.tcb, seg).0), S, base, fin);
    } else {
      AcceptedWriter(h, seg, payload, h', S, base, fin, q);
    }
  }

  lemma StaysOut(h: HView, S: seq<byte>, base: int, fin: bool)
    requires WriterOk(h, S, base, fin)
    ensures !h.requeue
  {
  }

  lemma GoneWriter(h: HView, S: seq<byte>, base: int, fin: bool)
    requires h.tcb.state.Closed? && !h.requeue
    ensures WriterOk(h, S, base, fin)
  {
  }

  lemma RefusedSame(h: HView, seg: Segment, h': HView, S: seq<byte>)
    requires Opened(h.tcb.state) && RefusedCase(h, seg, h')
    ensures h'.tx == h.tx && (h'.tcb.state == h.tcb.state || h'.tcb.state.Closed?)
  {
    hide C.Recv, Wrap;
    R.RecvRefusal(h.tcb, seg);
  }

  // ---- sends

  lemma RewoundBlock(s: C.Tcb, fin: bool, to: Value)
    requires BlockOk(s, fin)
    ensures BlockOk(C.RetransmitFrom(s, to), fin)
  {
    hide Wrap, LessThan, R.Inv;
    R.RewindKeeps(R.Track(s, fin, 0, true, true), to);
  }

  /** SND.NXT past the FIN is past every queued packet. */
  lemma NoneHolds(h: HView, S: seq<byte>, base: int)
    requires QueueOk(h, S, base, true) && h.tx.unsent == []
    ensures Holding(h.tx.spans, Wrap(base + (|S| + 1))) == |h.tx.spans|
  {
    hide Wrap, Start, Holding;
    var u := Una(h, S);
    SenderParts(Stepped(h, S, base), S, base, u);
    HoldingPosition(h.tx.spans, base + u, |h.tx.sent| + 1);
    assert base + u + (|h.tx.sent| + 1) == base + (|S| + 1);
    if Holding(h.tx.spans, Wrap(base + (|S| + 1))) < |h.tx.spans| {
      StartMonotone(h.tx.spans, Holding(h.tx.spans, Wrap(base + (|S| + 1))) + 1, |h.tx.spans|);
    }
  }

  /** A rewind from past the FIN to a packet is one from the end of the queue. */
  lemma RewindPastFin(h: HView, S: seq<byte>, base: int, i: nat)
    requires QueueOk(h, S, base, true) && h.tx.unsent == [] && h.tcb.snd.nxt == Wrap(base + (|S| + 1))
             && i < |h.tx.spans|
    requires C.CanRewind(h.tcb, h.tx.spans[i].first)
    ensures var to := h.tx.spans[i].first;
            C.CanRewind(Stepped(h, S, base).tcb, to) && HRewind(h, Some(to)) == HRewind(Stepped(h, S, base), Some(to))
  {
    hide Wrap, Start, Holding, LessThan, TxRewind, Chained;
    var u, to := Una(h, S), h.tx.spans[i].first;
    SenderParts(Stepped(h, S, base), S, base, u);
    assert InChain(h.tx.spans, i) by { ChainedAt(h.tx.spans, i); }
    WrapAdd(base + u, Start(h.tx.spans, i));
    StartMonotone(h.tx.spans, i, |h.tx.spans|);
    OrderExact(base + u, |h.tx.sent|, Start(h.tx.spans, i));
  }

  lemma ChainedAt(spans: seq<Span>, i: nat)
    requires Chained(spans) && i < |spans|
    ensures InChain(spans, i)
  {
  }

  lemma RewoundQueue(h: HView, S: seq<byte>, base: int, fin: bool, to: Value)
    requires QueueOk(h, S, base, fin) && C.CanRewind(h.tcb, to) && PacketStart(h, to)
    ensures var w := HRewind(h, Some(to)); QueueOk(w, S, base, fin) && Una(w, S) == Una(h, S)
  {
    hide Wrap, Start, Holding, LessThan, TxRewind, SenderOk, Coherent;
    SenderParts(Stepped(h, S, base), S, base, Una(h, S));
    var u, w := Una(h, S), HRewind(h, Some(to));
    if h.tcb.snd.nxt == Wrap(base + u + |h.tx.sent|) {
      SenderFrame(Stepped(h, S, base), h, S, base, u);
      RewindExactly(h, S, base, u, to);
      Restepped(w, S, base, fin, u);
    } else if to == h.tcb.snd.nxt {
      NoneHolds(h, S, base);
      SenderFrame(Stepped(h, S, base), Stepped(w, S, base), S, base, u);
    } else {
      var i :| 0 <= i < |h.tx.spans| && h.tx.spans[i].first == to;
      RewindPastFin(h, S, base, i);
      RewindExactly(Stepped(h, S, base), S, base, u, to);
      Restepped(w, S, base, fin, u);
    }
  }

  /** A queue in step with SND.NXT. */
  lemma Restepped(w: HView, S: seq<byte>, base: int, fin: bool, u: int)
    requires SenderOk(w, S, base, u) && (fin ==> |S| - u <= MAX_WINDOW)
    ensures QueueOk(w, S, base, fin) && Una(w, S) == u
  {
    hide Wrap, Coherent;
  }

  /** What an endpoint that may send queued data offers. */
  lemma OfferQueue(s: C.Tcb, fin: bool, room: nat)
    requires BlockOk(s, fin) && s.state.TxQueuedDataOpen() && C.Pending(s, room).Some?
    ensures var p := C.Pending(s, room).value;
            && p.flags.ack && !p.flags.rst && !p.flags.syn && p.ackno == s.rcv.nxt && (p.flags.fin ==> s.pending.fin)
            && (p.first == s.snd.nxt || (C.HasPendingRetransmit(s) && p.first == s.snd.una && !p.flags.fin))
  {
    hide Wrap, R.Inv;
  }

  /** A send of what is offered is accepted and keeps the control block in order. */
  lemma SentBlockOk(s: C.Tcb, fin: bool, op: R.Op)
    requires BlockOk(s, fin) && s.state.TxQueuedDataOpen() && op.DoSend?
             && R.Allowed(R.Track(s, fin, 0, true, true), op) && !R.Crowded(s, R.Outgoing(s, op))
    ensures var seg := R.Outgoing(s, op);
            var (s', err) := C.Send(s, seg);
            && err == C.NoErr && BlockOk(s', fin || seg.flags.fin) && Opened(s'.state)
            && s'.snd == C.NextSnd(s.snd, seg) && s'.rcv == s.rcv.(wnd := op.wnd)
  {
    hide Wrap, LessThan, C.Send, C.Pending, R.Next, C.NextSnd, C.NextPending, C.NextRetransmits, C.ChallengeSent;
    var t := R.Track(s, fin, 0, true, true);
    OfferQueue(s, fin, op.payload);
    R.NoSelfRejection(t, op);
    R.SendKeeps(t, op);
    R.SentTrack(t, op);
    R.NextPendingFlags(s.pending, R.Outgoing(s, op).flags);
    NextIsMove(t, op);
    Loosened(R.Next(t, op));
  }

  /** Leaving open whether the FIN was acknowledged keeps the invariant. */
  lemma Loosened(t: R.Track)
    requires R.Inv(t)
    ensures R.Inv(R.Track(t.s, t.finSent, 0, true, true))
  {
  }

  /** An outgoing segment is part of the stream; `fin` tells whether a FIN has gone out, this segment included. */
  ghost predicate Sane(seg: Segment, data: seq<byte>, S: seq<byte>, base: int, fin: bool) {
    var at := At(seg.first, S, base);
    0 <= at && Honest(seg, data, at, S, base) && (seg.flags.fin || at > |S| ==> fin)
  }

  predicate FinOut(r: Sent, fin: bool) {
    fin || (r.seg.Some? && r.seg.value.flags.fin)
  }

  /** A send is not refused: the packet list is full at worst, or a second close ends the connection. */
  predicate NotRefused(r: Sent) {
    r.err == HOk || r.err == HQueue(TxBufferFull) || (r.err == HEOF && r.teardown == Some(C.RESET))
  }

  /** The outcome of a send: a writer still in order and a segment of the stream. */
  ghost predicate SentOk(h: HView, r: Sent, S: seq<byte>, base: int, fin: bool) {
    && (h.tcb.state.TxQueuedDataOpen() ==> NotRefused(r))
    && (r.seg.Some? ==>
       Sane(r.seg.value, r.data, S, base, FinOut(r, fin))
       && (r.seg.value.flags.ack ==> r.seg.value.ackno == h.tcb.rcv.nxt))
    && (r.teardown.None? ==>
          && WriterOk(r.v, S, base, FinOut(r, fin))
          && (r.v.tcb.state.TxQueuedDataOpen() ==> h.tcb.state.TxQueuedDataOpen() && Una(r.v, S) == Una(h, S)))
    && (r.teardown.Some? ==>
          var s := r.teardown.value;
          s.state.Closed? || (s.state.TimeWait? && QuietOk(s, S, base, FinOut(r, fin))))
  }

  /** A writer that may send queued data. */
  ghost predicate Writing(v: HView, S: seq<byte>, base: int, fin: bool) {
    QueueOk(v, S, base, fin) && BlockOk(v.tcb, fin) && v.tcb.state.TxQueuedDataOpen() && !v.requeue && BuffersOk(v)
  }

  ghost predicate MaySend(v: HView, op: R.Op, fin: bool) {
    op.DoSend? && R.Allowed(R.Track(v.tcb, fin, 0, true, true), op) && !R.Crowded(v.tcb, R.Outgoing(v.tcb, op))
  }

  lemma EmitQueue(v: HView, tx: TxView, op: R.Op, data: seq<byte>, fin: bool)
    requires BlockOk(v.tcb, fin) && v.tcb.state.TxQueuedDataOpen() && !v.requeue && MaySend(v, op, fin)
    ensures var seg := R.Outgoing(v.tcb, op);
            var r := Emit(v.(tx := tx), seg, data);
            && r == Sent(v.(tx := tx, tcb := C.Send(v.tcb, seg).0), Some(seg), data, HOk, None)
            && BlockOk(r.v.tcb, fin || seg.flags.fin) && Opened(r.v.tcb.state)
            && r.v.tcb.snd == C.NextSnd(v.tcb.snd, seg)
            && seg.flags.ack && !seg.flags.rst && !seg.flags.syn && seg.ackno == v.tcb.rcv.nxt
               && (seg.flags.fin ==> v.tcb.pending.fin)
  {
    hide Wrap, C.Send, C.Pending, BlockOk, C.NextSnd;
    SentBlockOk(v.tcb, fin, op);
    OfferQueue(v.tcb, fin, op.payload);
  }

  /** A segment without data or FIN at SND.NXT. */
  lemma EmitBare(v: HView, op: R.Op, S: seq<byte>, base: int, fin: bool)
    requires Writing(v, S, base, fin) && MaySend(v, op, fin) && op.datalen == 0
    requires R.Outgoing(v.tcb, op).first == v.tcb.snd.nxt && !R.Outgoing(v.tcb, op).flags.fin
    ensures SentOk(v, Emit(v, R.Outgoing(v.tcb, op), []), S, base, fin)
  {
    hide Wrap, LessThan, C.Pending, BlockOk, Sizeof, QueueOk, Emit, BuffersOk, At;
    var seg := R.Outgoing(v.tcb, op);
    EmitQueue(v, v.tx, op, [], fin);
    assert v.(tx := v.tx) == v;
    var v' := Emit(v, seg, []).v;
    R.OutgoingLen(seg);
    R.AddZero(v.tcb.snd.nxt);
    QueueFrame(v, v', S, base, fin);
    Settles(v', S, base, fin);
    NxtPlaced(v, S, base, fin);
    AtIsIt(seg.first, S, base);
  }

  /** The FIN, with nothing left to send before it. */
  lemma EmitFin(v: HView, op: R.Op, S: seq<byte>, base: int, fin: bool)
    requires Writing(v, S, base, fin) && MaySend(v, op, fin) && op.datalen == 0 && v.tx.unsent == []
    requires R.Outgoing(v.tcb, op).first == v.tcb.snd.nxt && R.Outgoing(v.tcb, op).flags.fin
    ensures SentOk(v, Emit(v, R.Outgoing(v.tcb, op), []), S, base, fin)
  {
    hide Wrap, LessThan, C.Pending, BlockOk, Sizeof, QueueOk, Emit, BuffersOk, At;
    var seg := R.Outgoing(v.tcb, op);
    EmitQueue(v, v.tx, op, [], fin);
    BlockStates(v.tcb, fin);
    assert v.(tx := v.tx) == v;
    var v' := Emit(v, seg, []).v;
    R.OutgoingLen(seg);
    R.NotBeforeItself(v.tcb.snd.nxt);
    FinQueue(v, v', S, base);
    Settles(v', S, base, true);
    NxtPlaced(v, S, base, fin);
    AtIsIt(seg.first, S, base);
    QueueTotals(v, S, base, fin);
  }

  lemma QueueTotals(v: HView, S: seq<byte>, base: int, fin: bool)
    requires QueueOk(v, S, base, fin)
    ensures 0 <= Una(v, S) && Una(v, S) + |v.tx.sent| + |v.tx.unsent| == |S| < Una(v, S) + HALF
            && Total(v.tx.spans) == |v.tx.sent|
  {
    hide Wrap, Chained, Total;
  }

  /** The queue once the FIN went out. */
  lemma FinQueue(v: HView, v': HView, S: seq<byte>, base: int)
    requires QueueOk(v, S, base, false) && v.tx.unsent == [] && v'.tx == v.tx && v'.tcb.snd.una == v.tcb.snd.una
    requires v'.tcb.snd.nxt == Add(v.tcb.snd.nxt, 1) && BlockOk(v'.tcb, true) && !v'.tcb.state.Closed?
    ensures QueueOk(v', S, base, true) && Una(v', S) == Una(v, S)
  {
    hide Wrap, Coherent, R.FlagsOk, R.HistoryOk, Sizeof;
    var u := Una(v, S);
    SenderSize(Stepped(v, S, base), S, base, u);
    WrapAdd(base + |S|, 1);
    assert base + |S| + 1 == base + (|S| + 1) && base + u + |v.tx.sent| == base + |S|;
    SizeofExact(base, u, |S| + 1);
  }

  /** New data at SND.NXT. */
  lemma EmitData(v: HView, op: R.Op, n: nat, S: seq<byte>, base: int, fin: bool)
    requires Writing(v, S, base, fin) && MaySend(v, op, fin) && 0 < op.datalen == n <= |v.tx.unsent|
             && |v.tx.spans| < v.tx.slots
    requires R.Outgoing(v.tcb, op).first == v.tcb.snd.nxt && !R.Outgoing(v.tcb, op).flags.fin
    requires v.tx.spans != [] ==> EndSeq(v.tx.spans) == v.tcb.snd.nxt
    ensures SentOk(v, Emit(v.(tx := TxMake(v.tx, n, v.tcb.snd.nxt)), R.Outgoing(v.tcb, op), v.tx.unsent[..n]), S,
            base, fin)
  {
    hide Wrap, LessThan, C.Pending, BlockOk, Sizeof, Coherent, Emit, BuffersOk, At, TxMake, EndSeq, Placed;
    var seg, u, tx := R.Outgoing(v.tcb, op), Una(v, S), TxMake(v.tx, n, v.tcb.snd.nxt);
    EmitQueue(v, tx, op, v.tx.unsent[..n], fin);
    SenderFrame(Stepped(v, S, base), v, S, base, u);
    MadeSender(v, S, base, u, n);
    R.OutgoingLen(seg);
    R.NotBeforeItself(v.tcb.snd.nxt);
    var v' := Emit(v.(tx := tx), seg, v.tx.unsent[..n]).v;
    SenderFrame(v.(tx := tx, tcb := v.tcb.(snd := v.tcb.snd.(nxt := Wrap(v.tcb.snd.nxt + n)))), v', S, base, u);
    Restepped(v', S, base, fin, u);
    Settles(v', S, base, fin);
    NxtPlaced(v, S, base, fin);
    AtIsIt(seg.first, S, base);
    QueueTotals(v, S, base, fin);
  }

  /** A retransmission at SND.UNA, which no FIN precedes. */
  lemma EmitAgain(v: HView, op: R.Op, data: seq<byte>, S: seq<byte>, base: int, fin: bool)
    requires Writing(v, S, base, fin) && MaySend(v, op, fin) && C.HasPendingRetransmit(v.tcb) && op.datalen == |data|
    requires R.Outgoing(v.tcb, op).first == v.tcb.snd.una && !R.Outgoing(v.tcb, op).flags.fin
    requires v.tx.sent != [] && |data| <= |v.tx.sent| && data == S[Una(v, S)..Una(v, S) + |data|]
    ensures SentOk(v, Emit(v, R.Outgoing(v.tcb, op), data), S, base, fin)
  {
    hide Wrap, LessThan, C.Pending, BlockOk, Sizeof, QueueOk, Emit, BuffersOk, At, Placed;
    var seg, u := R.Outgoing(v.tcb, op), Una(v, S);
    EmitQueue(v, v.tx, op, data, fin);
    assert v.(tx := v.tx) == v;
    var v' := Emit(v, seg, data).v;
    BlockStates(v.tcb, fin);
    UnaBefore(v, S, base);
    QueueFrame(v, v', S, base, fin);
    Settles(v', S, base, fin);
    QueueTotals(v, S, base, fin);
    AtExact(u, S, base);
  }

  lemma UnaBefore(v: HView, S: seq<byte>, base: int)
    requires QueueOk(v, S, base, false)
    ensures v.tcb.snd.una == Wrap(base + Una(v, S)) && (v.tx.sent != [] ==> LessThan(v.tcb.snd.una, v.tcb.snd.nxt))
    ensures v.tx.sent == [] ==> v.tcb.snd.una == v.tcb.snd.nxt
  {
    hide Wrap, Coherent, LessThan;
    SenderFrame(Stepped(v, S, base), v, S, base, Una(v, S));
    SendPositions(v, S, base, Una(v, S));
  }

  lemma RetransmitSent(v: HView, S: seq<byte>, base: int, fin: bool)
    requires Writing(v, S, base, fin) && C.HasPendingRetransmit(v.tcb)
    ensures !fin && v.tx.sent != []
  {
    hide Wrap, QueueOk, R.SpaceOk, BuffersOk;
    UnaBefore(v, S, base);
  }

  /** The FIN behind the last unsent data. */
  lemma EmitLast(v: HView, op: R.Op, n: nat, S: seq<byte>, base: int, fin: bool)
    requires Writing(v, S, base, fin) && MaySend(v, op, fin) && 0 < op.datalen == n == |v.tx.unsent|
             && |v.tx.spans| < v.tx.slots
    requires R.Outgoing(v.tcb, op).first == v.tcb.snd.nxt && R.Outgoing(v.tcb, op).flags.fin
    requires v.tx.spans != [] ==> EndSeq(v.tx.spans) == v.tcb.snd.nxt
    ensures SentOk(v, Emit(v.(tx := TxMake(v.tx, n, v.tcb.snd.nxt)), R.Outgoing(v.tcb, op), v.tx.unsent[..n]), S, base,
                   fin)
  {
    hide Wrap, LessThan, C.Pending, BlockOk, Sizeof, QueueOk, Emit, BuffersOk, At, TxMake, EndSeq, Placed;
    var seg, tx := R.Outgoing(v.tcb, op), TxMake(v.tx, n, v.tcb.snd.nxt);
    EmitQueue(v, tx, op, v.tx.unsent[..n], fin);
    BlockStates(v.tcb, fin);
    WindowOk(v.tcb, fin);
    R.OutgoingLen(seg);
    R.NotBeforeItself(v.tcb.snd.nxt);
    var v' := Emit(v.(tx := tx), seg, v.tx.unsent[..n]).v;
    LastMade(v, n, S, base, v');
    Settles(v', S, base, true);
    NxtPlaced(v, S, base, fin);
    AtIsIt(seg.first, S, base);
    QueueTotals(v, S, base, fin);
  }

  lemma WindowOk(s: C.Tcb, fin: bool)
    requires BlockOk(s, fin)
    ensures s.snd.wnd <= MAX_WINDOW
  {
    hide R.FlagsOk, R.HistoryOk;
  }

  /** The queue once the FIN went out behind its last bytes. */
  lemma LastMade(v: HView, n: nat, S: seq<byte>, base: int, v': HView)
    requires QueueOk(v, S, base, false) && 0 < n == |v.tx.unsent| && |v.tx.spans| < v.tx.slots
    requires v.tx.spans != [] ==> EndSeq(v.tx.spans) == v.tcb.snd.nxt
    requires n + 1 < MOD && v'.tx == TxMake(v.tx, n, v.tcb.snd.nxt) && v'.tcb.snd.una == v.tcb.snd.una
    requires v'.tcb.snd.nxt == Add(v.tcb.snd.nxt, n + 1) && BlockOk(v'.tcb, true) && !v'.tcb.state.Closed?
    ensures QueueOk(v', S, base, true) && Una(v', S) == Una(v, S)
    ensures v.tx.unsent[..n] == S[Una(v, S) + |v.tx.sent|..]
  {
    hide Wrap, LessThan, BlockOk, Coherent, TxMake, EndSeq, NxtOk;
    var u := Una(v, S);
    NxtInStep(v, S, base);
    SenderFrame(Stepped(v, S, base), v, S, base, u);
    MadeSender(v, S, base, u, n);
    var mid := v.(tx := v'.tx, tcb := v.tcb.(snd := v.tcb.snd.(nxt := Wrap(v.tcb.snd.nxt + n))));
    Restepped(mid, S, base, false, u);
    NoneLeft(v.tx, n, v.tcb.snd.nxt);
    WrapAdd(v.tcb.snd.nxt + n, 1);
    FinQueue(mid, v', S, base);
  }

  lemma NxtInStep(v: HView, S: seq<byte>, base: int)
    requires QueueOk(v, S, base, false)
    ensures v.tcb.snd.nxt == Wrap(base + Una(v, S) + |v.tx.sent|)
  {
    hide Wrap, SenderOk;
  }

  lemma NoneLeft(tx: TxView, n: nat, at: Value)
    requires n == |tx.unsent|
    ensures TxMake(tx, n, at).unsent == []
  {
  }

  /** A pending FIN has all unsent data before it, in its own segment, or waits for room in the packet list. */
  predicate FinFits(v: HView, room: nat) {
    var p, n := C.Pending(v.tcb, room), |v.tx.unsent|;
    p.Some? && p.value.flags.fin && n > 0 ==>
      (n <= p.value.datalen && n < v.tcb.snd.wnd) || (p.value.datalen > 0 && |v.tx.spans| >= v.tx.slots)
  }

  /** A segment the queue is not asked for. */
  lemma BareKept(v: HView, room: nat, S: seq<byte>, base: int, fin: bool)
    requires Writing(v, S, base, fin) && FinFits(v, room)
    requires C.Pending(v.tcb, room).Some? && C.Pending(v.tcb, room).value.datalen == 0
    ensures SentOk(v, Emit(v, C.Pending(v.tcb, room).value.(wnd := RecvWindow(v)), []), S, base, fin)
  {
    hide Wrap, C.Pending, BlockOk, QueueOk, Emit, RecvWindow, SentOk, C.HasPendingRetransmit;
    var op := R.DoSend(room, 0, false, RecvWindow(v));
    RecvWindowFits(v);
    OfferQueue(v.tcb, fin, room);
    if R.Outgoing(v.tcb, op).first != v.tcb.snd.nxt {
      RetransmitSent(v, S, base, fin);
      QueueTotals(v, S, base, fin);
      EmitAgain(v, op, [], S, base, fin);
    } else if R.Outgoing(v.tcb, op).flags.fin {
      EmitFin(v, op, S, base, fin);
    } else {
      EmitBare(v, op, S, base, fin);
    }
  }

  /** Asked for data at SND.NXT, the queue has none, no room for a packet, or makes one of the next unsent bytes. */
  lemma AskedCases(v: HView, S: seq<byte>, base: int, fin: bool, want: nat)
    requires QueueOk(v, S, base, fin) && 0 < want
    ensures var r, n := TxSend(v.tx, want, v.tcb.snd.nxt), Min(want, |v.tx.unsent|);
            || r == (v.tx, [], TxBufferFull) || (r == (v.tx, [], TxOk) && v.tx.unsent == [])
            || (0 < n && |v.tx.spans| < v.tx.slots && r == (TxMake(v.tx, n, v.tcb.snd.nxt), v.tx.unsent[..n], TxOk))
    ensures v.tx.unsent != [] && v.tx.spans != [] ==> EndSeq(v.tx.spans) == v.tcb.snd.nxt
    ensures QueueAgrees(v.tx, v.tcb.snd.nxt)
  {
    hide Wrap, Coherent, TxMake, EndSeq, LessThan, TxSend;
    if v.tcb.snd.nxt == Wrap(base + Una(v, S) + |v.tx.sent|) {
      SenderFrame(Stepped(v, S, base), v, S, base, Una(v, S));
      MakeCases(v, S, base, Una(v, S), want);
    } else {
      QueueTotals(v, S, base, fin);
      EndBefore(v, S, base);
      NothingMade(v.tx, want, v.tcb.snd.nxt);
    }
  }

  lemma EndBefore(v: HView, S: seq<byte>, base: int)
    requires QueueOk(v, S, base, true) && v.tx.unsent == [] && v.tcb.snd.nxt == Wrap(base + (|S| + 1))
    ensures v.tx.spans != [] ==> !LessThan(v.tcb.snd.nxt, EndSeq(v.tx.spans))
  {
    hide Wrap, Start, LessThan, Chained;
    var u := Una(v, S);
    SenderParts(Stepped(v, S, base), S, base, u);
    if v.tx.spans != [] {
      EndOfChain(v.tx.spans);
      WrapAdd(base + u, |v.tx.sent|);
      assert base + u + |v.tx.sent| == base + |S|;
      OrderExact(base, |S| + 1, |S|);
    }
  }

  lemma NothingMade(tx: TxView, want: nat, at: Value)
    requires Total(tx.spans) == |tx.sent| && tx.unsent == [] && (tx.spans != [] ==> !LessThan(at, EndSeq(tx.spans)))
    ensures TxSend(tx, want, at) == (tx, [], TxBufferFull) || TxSend(tx, want, at) == (tx, [], TxOk)
  {
    hide Wrap, Start, LessThan, EndSeq, StartingAt;
  }

  /** A segment the queue is asked for data at SND.NXT. */
  lemma FreshKept(v: HView, room: nat, S: seq<byte>, base: int, fin: bool)
    requires Writing(v, S, base, fin) && FinFits(v, room)
    requires C.Pending(v.tcb, room).Some? && C.Pending(v.tcb, room).value.datalen > 0
    requires C.Pending(v.tcb, room).value.first == v.tcb.snd.nxt
    ensures SentOk(v, SendPending(v, room), S, base, fin) && QueueAgrees(v.tx, v.tcb.snd.nxt)
  {
    hide Wrap, C.Pending, BlockOk, QueueOk, Emit, RecvWindow, SentOk, C.HasPendingRetransmit, TxSend, TxMake, EndSeq,
         QueueAgrees;
    var p := C.Pending(v.tcb, room).value;
    RecvWindowFits(v);
    OfferQueue(v.tcb, fin, room);
    QueueTotals(v, S, base, fin);
    AskedCases(v, S, base, fin, p.datalen);
    var r := TxSend(v.tx, p.datalen, v.tcb.snd.nxt);
    var op := R.DoSend(room, |r.1|, r.1 != [], RecvWindow(v));
    if r == (v.tx, [], TxOk) {
      assert v.(tx := v.tx) == v;
      if p.flags.fin {
        EmitFin(v, op, S, base, fin);
      } else {
        EmitBare(v, op, S, base, fin);
      }
    } else if r.2 == TxOk {
      FullExactly(v.tx, p.datalen, v.tcb.snd.nxt);
      if p.flags.fin {
        EmitLast(v, op, |r.1|, S, base, fin);
      } else {
        EmitData(v, op, |r.1|, S, base, fin);
      }
    } else {
      Unsent(v, S, base, fin, HQueue(r.2));
    }
  }

  /** Nothing goes out. */
  lemma Unsent(v: HView, S: seq<byte>, base: int, fin: bool, err: HErr)
    requires Writing(v, S, base, fin) && (err == HOk || err == HQueue(TxBufferFull))
    ensures SentOk(v, Sent(v, None, [], err, None), S, base, fin)
  {
    hide QueueOk, BlockOk, BuffersOk;
    Settles(v, S, base, fin);
  }

  /** A segment the queue is asked for data at SND.UNA. */
  lemma AgainKept(v: HView, room: nat, S: seq<byte>, base: int, fin: bool)
    requires Writing(v, S, base, fin) && C.HasPendingRetransmit(v.tcb)
    requires C.Pending(v.tcb, room).Some? && C.Pending(v.tcb, room).value.datalen > 0
    requires C.Pending(v.tcb, room).value.first == v.tcb.snd.una && !C.Pending(v.tcb, room).value.flags.fin
    ensures SentOk(v, SendPending(v, room), S, base, fin) && QueueAgrees(v.tx, v.tcb.snd.una)
  {
    hide Wrap, C.Pending, BlockOk, Coherent, Emit, RecvWindow, SentOk, C.HasPendingRetransmit, TxSend, TxMake, EndSeq,
         QueueAgrees;
    var p := C.Pending(v.tcb, room).value;
    RecvWindowFits(v);
    OfferQueue(v.tcb, fin, room);
    RetransmitSent(v, S, base, fin);
    QueueTotals(v, S, base, fin);
    SenderFrame(Stepped(v, S, base), v, S, base, Una(v, S));
    ResendSender(v, S, base, Una(v, S), p.datalen);
    var r := TxSend(v.tx, p.datalen, v.tcb.snd.una);
    assert v.(tx := v.tx) == v;
    if r.2 == TxOk {
      EmitAgain(v, R.DoSend(room, |r.1|, r.1 != [], RecvWindow(v)), r.1, S, base, fin);
    } else {
      Unsent(v, S, base, fin, HQueue(r.2));
    }
  }

  /** Whatever is pending goes out as part of the stream, a FIN only at its end. */
  lemma PendingKept(v: HView, room: nat, S: seq<byte>, base: int, fin: bool)
    requires Writing(v, S, base, fin) && FinFits(v, room)
    ensures SentOk(v, SendPending(v, room), S, base, fin) && OfferAgrees(v.tcb, v.tx, room)
  {
    hide Wrap, C.Pending, BlockOk, QueueOk, Emit, RecvWindow, SentOk, C.HasPendingRetransmit, TxSend, QueueAgrees;
    var p := C.Pending(v.tcb, room);
    if p.None? {
      Unsent(v, S, base, fin, HOk);
    } else {
      OfferQueue(v.tcb, fin, room);
      if p.value.datalen == 0 {
        BareKept(v, room, S, base, fin);
      } else if p.value.first == v.tcb.snd.nxt {
        FreshKept(v, room, S, base, fin);
      } else {
        AgainKept(v, room, S, base, fin);
      }
    }
  }

  lemma QuietOffer(s: C.Tcb, room: nat)
    requires Quiet(s.state) && !s.pending.HasCtl() && C.Pending(s, room).Some?
    ensures var p := C.Pending(s, room).value;
            p.datalen == 0 && !p.flags.HasCtl() && p.first == s.snd.nxt && (p.flags.ack ==> p.ackno == s.rcv.nxt)
  {
    hide Wrap;
  }

  lemma QuietSend(s: C.Tcb, seg: Segment)
    requires Quiet(s.state) && !s.pending.HasCtl() && s.queued == NONE && C.Send(s, seg).1 == C.NoErr
    requires seg.datalen == 0 && !seg.flags.HasCtl() && seg.first == s.snd.nxt
    ensures var s' := C.Send(s, seg).0;
            s'.state == s.state && s'.snd.nxt == s.snd.nxt && !s'.pending.HasCtl() && s'.queued == NONE
  {
    hide Wrap, LessThan, C.Send, C.ChallengeSent, C.NextRetransmits;
    R.SentBlock(s, seg);
    R.OutgoingLen(seg);
    R.AddZero(s.snd.nxt);
  }

  /** An endpoint that only acknowledges. */
  lemma QuietKept(v: HView, room: nat, S: seq<byte>, base: int, fin: bool)
    requires WriterOk(v, S, base, fin) && Quiet(v.tcb.state) && BuffersOk(v)
    ensures SentOk(v, SendPending(v, room), S, base, fin) && OfferAgrees(v.tcb, v.tx, room)
  {
    hide Wrap, C.Pending, C.Send, QueueOk, BlockOk, RecvWindow, TxSend, At, QueueAgrees;
    var p := C.Pending(v.tcb, room);
    if p.Some? {
      QuietOffer(v.tcb, room);
      AtIsIt(v.tcb.snd.nxt, S, base);
      var seg := p.value.(wnd := RecvWindow(v));
      if C.Send(v.tcb, seg).1 == C.NoErr {
        QuietSend(v.tcb, seg);
      }
    }
  }

  /** A close that is due: its FIN follows everything written. */
  lemma CloseBlock(s: C.Tcb, fin: bool)
    requires BlockOk(s, fin) && s.state.TxQueuedDataOpen() && C.Close(s).1 == C.NoErr
    ensures var s' := C.Close(s).0;
            BlockOk(s', fin) && s'.state.TxQueuedDataOpen() && s'.snd == s.snd && s'.rcv == s.rcv
  {
    hide Wrap, R.SpaceOk;
    R.CloseKeeps(R.Track(s, fin, 0, true, true));
  }

  lemma CloseRefused(s: C.Tcb)
    ensures C.Close(s).1 != C.NoErr ==> C.Close(s).0 == s
  {
  }

  /** What a send meets after its rewind. */
  ghost predicate Poised(w: HView, S: seq<byte>, base: int, fin: bool) {
    if Quiet(w.tcb.state) then WriterOk(w, S, base, fin) && BuffersOk(w)
    else Writing(w, S, base, fin)
  }

  lemma PoisedSends(w: HView, room: nat, S: seq<byte>, base: int, fin: bool)
    requires Poised(w, S, base, fin) && FinFits(w, room)
    ensures Total(w.tx.spans) == |w.tx.sent| && |w.contents| + |w.ahead| < MOD && !w.requeue && !w.tcb.state.Closed?
    ensures SentOk(w, SendPending(w, room), S, base, fin) && OfferAgrees(w.tcb, w.tx, room)
  {
    hide QueueOk, BlockOk, SentOk, SendPending, OfferAgrees;
    if Quiet(w.tcb.state) {
      QuietKept(w, room, S, base, fin);
    } else {
      PendingKept(w, room, S, base, fin);
    }
  }

  lemma PoisedFrame(w: HView, x: HView, S: seq<byte>, base: int, fin: bool)
    requires Poised(w, S, base, fin) && x == w.(closing := x.closing)
    ensures Poised(x, S, base, fin)
  {
    hide BlockOk, QueueOk;
    if !Quiet(w.tcb.state) {
      QueueFrame(w, x, S, base, fin);
    }
  }

  /** A due close is taken in order, or ends the connection. */
  lemma PoisedClose(w: HView, S: seq<byte>, base: int, fin: bool)
    requires Poised(w, S, base, fin) && ClosesNow(w) && C.Close(w.tcb).1 == C.NoErr
    ensures Poised(w.(tcb := C.Close(w.tcb).0, closing := false), S, base, fin)
    ensures C.Close(w.tcb).0.rcv == w.tcb.rcv && w.tcb.state.TxQueuedDataOpen()
            && C.Close(w.tcb).0.state.TxQueuedDataOpen()
  {
    hide BlockOk, QueueOk, C.HasPending;
    CloseBlock(w.tcb, fin);
    QueueFrame(w, w.(tcb := C.Close(w.tcb).0, closing := false), S, base, fin);
  }

  /** What a send asks of a FIN that is pending, unless it closes now. */
  predicate FinReady(w: HView, room: nat, limit: Size) {
    ClosesNow(w) || FinFits(w, Room(w.tcb, w.tx, room, limit))
  }

  lemma SendOrCloseKept(w: HView, room: nat, limit: Size, S: seq<byte>, base: int, fin: bool)
    requires Poised(w, S, base, fin) && FinReady(w, room, limit)
    ensures Total(w.tx.spans) == |w.tx.sent| && |w.contents| + |w.ahead| < MOD
    ensures SentOk(w, SendOrClose(w, room, limit), S, base, fin) && CloseAgrees(w, room, limit)
  {
    hide Poised, SendPending, C.Close, C.HasPending, Room, WantsClose, NothingToDo, ClosesNow, OfferAgrees, WriterOk,
         Sane, QuietOk, FinFits;
    var x := w.(closing := WantsClose(w));
    PoisedFrame(w, x, S, base, fin);
    CloseClear(w, x, Room(w.tcb, w.tx, room, limit));
    PoisedSends(x, Room(w.tcb, w.tx, room, limit), S, base, fin);
    PoisedWriter(x, S, base, fin);
    CloseRefused(w.tcb);
    if ClosesNow(w) && C.Close(w.tcb).1 == C.NoErr {
      PoisedClose(w, S, base, fin);
      var s := C.Close(w.tcb).0;
      CloseClear(w, w.(tcb := s, closing := false), Room(s, w.tx, room, limit));
      PoisedSends(w.(tcb := s, closing := false), Room(s, w.tx, room, limit), S, base, fin);
    }
  }

  /** A close that is due has nothing before its FIN. */
  lemma CloseClear(w: HView, x: HView, room: nat)
    requires x.tx == w.tx && (x.tcb == w.tcb || ClosesNow(w)) && (ClosesNow(w) || FinFits(w, room))
    ensures FinFits(x, room)
  {
    hide C.Pending, C.HasPending;
  }

  lemma PoisedWriter(w: HView, S: seq<byte>, base: int, fin: bool)
    requires Poised(w, S, base, fin)
    ensures WriterOk(w, S, base, fin)
  {
    hide QueueOk, BlockOk;
    if !Quiet(w.tcb.state) {
      Settles(w, S, base, fin);
    }
  }

  /** What the policy keeps to: rewinds to packets, and no FIN before data. */
  predicate Orderly(h: HView, room: nat, steer: Steer)
    requires Total(h.tx.spans) == |h.tx.sent|
  {
    && (steer.rewind.Some? ==> PacketStart(h, steer.rewind.value))
    && FinReady(HRewind(h, steer.rewind), room, steer.limit)
  }

  lemma RewoundPoised(h: HView, room: nat, steer: Steer, S: seq<byte>, base: int, fin: bool)
    requires WriterOk(h, S, base, fin) && BuffersOk(h) && Opened(h.tcb.state) && Orderly(h, room, steer)
    ensures var w := HRewind(h, steer.rewind);
            && Poised(w, S, base, fin) && FinReady(w, room, steer.limit)
            && w.tcb.rcv == h.tcb.rcv && w.tcb.state == h.tcb.state
            && (w.tcb.state.TxQueuedDataOpen() ==> Una(w, S) == Una(h, S))
  {
    hide QueueOk, BlockOk, PacketStart, HRewind, QuietOk, C.CanRewind;
    var w := HRewind(h, steer.rewind);
    RewindRx(h, steer.rewind);
    RewindTotals(h, steer.rewind);
    if steer.rewind.Some? && C.CanRewind(h.tcb, steer.rewind.value) {
      CanRewindIn(h.tcb, steer.rewind.value);
      RewoundQueue(h, S, base, fin, steer.rewind.value);
      RewoundBlock(h.tcb, fin, steer.rewind.value);
      RewoundTcb(h, steer.rewind.value);
    } else {
      NotRewound(h, steer.rewind);
    }
  }

  lemma CanRewindIn(s: C.Tcb, to: Value)
    requires C.CanRewind(s, to)
    ensures s.state.TxQueuedDataOpen()
  {
    hide LessThan;
  }

  lemma RewoundTcb(h: HView, to: Value)
    requires Total(h.tx.spans) == |h.tx.sent| && C.CanRewind(h.tcb, to)
    ensures HRewind(h, Some(to)).tcb == C.RetransmitFrom(h.tcb, to)
  {
    hide LessThan, TxRewind, Holding, Total;
  }

  lemma NotRewound(h: HView, to: Option<Value>)
    requires Total(h.tx.spans) == |h.tx.sent| && (to.None? || !C.CanRewind(h.tcb, to.value))
    ensures HRewind(h, to) == h
  {
    hide LessThan, TxRewind, Holding, Total;
  }

  /** Every orderly send: the writer stays in order and the segment is part of its stream, a FIN at the end. */
  lemma SendWriter(h: HView, room: nat, steer: Steer, S: seq<byte>, base: int, fin: bool)
    requires WriterOk(h, S, base, fin) && BuffersOk(h) && Opened(h.tcb.state) && Orderly(h, room, steer)
    ensures SentOk(h, HSend(h, room, steer), S, base, fin) && SendAgrees(h, room, steer)
  {
    hide WriterOk, Poised, SendOrClose, HRewind, Orderly, CloseAgrees, C.HasPending, Sane, QuietOk;
    RewoundPoised(h, room, steer, S, base, fin);
    RewindTotals(h, steer.rewind);
    SendOrCloseKept(HRewind(h, steer.rewind), room, steer.limit, S, base, fin);
  }

  /** A segment with the FIN at SND.NXT is honest if and only if its data is all that was unsent. */
  lemma FinSane(v: HView, seg: Segment, data: seq<byte>, S: seq<byte>, base: int)
    requires QueueOk(v, S, base, false) && seg.first == v.tcb.snd.nxt && seg.flags.fin && !seg.flags.syn
             && !seg.flags.rst
    requires |data| <= |v.tx.unsent| && data == v.tx.unsent[..|data|] && seg.datalen == |data|
    ensures Sane(seg, data, S, base, true) <==> |data| == |v.tx.unsent|
  {
    hide Wrap, Coherent, At, Placed;
    QueueTotals(v, S, base, false);
    NxtPlaced(v, S, base, false);
    AtIsIt(seg.first, S, base);
    var u, sent, unsent := Una(v, S), v.tx.sent, v.tx.unsent;
    assert unsent[..|data|] == (sent + unsent)[|sent|..|sent| + |data|] == S[u..][|sent|..|sent| + |data|];
  }

  /** A pending FIN goes out: the queue is not asked for data or has room for a packet, and the data leaves it room. */
  predicate FinGoes(v: HView, p: Segment) {
    var n := Min(p.datalen, |v.tx.unsent|);
    (p.datalen == 0 || |v.tx.spans| < v.tx.slots) && (n == 0 || n < v.tcb.snd.wnd)
  }

  /** When a pending FIN goes out, and then that it follows everything written exactly if what was unsent fits. */
  lemma FinLastExactly(v: HView, room: nat, S: seq<byte>, base: int, fin: bool)
    requires Writing(v, S, base, fin) && C.Pending(v.tcb, room).Some? && C.Pending(v.tcb, room).value.flags.fin
    ensures var r, p := SendPending(v, room), C.Pending(v.tcb, room).value;
            && (r.seg.Some? <==> FinGoes(v, p))
            && (r.seg.Some? ==>
                  r.seg.value.flags.fin && (Sane(r.seg.value, r.data, S, base, true) <==> |v.tx.unsent| <= p.datalen))
  {
    hide Wrap, C.Pending, C.Send, BlockOk, QueueOk, RecvWindow, Sane, C.HasPendingRetransmit, TxSend, TxMake, EndSeq,
         QueueAgrees;
    var p, r := C.Pending(v.tcb, room).value, SendPending(v, room);
    OfferQueue(v.tcb, fin, room);
    BlockStates(v.tcb, fin);
    QueueTotals(v, S, base, fin);
    if p.datalen > 0 {
      AskedCases(v, S, base, fin, p.datalen);
      FullExactly(v.tx, p.datalen, v.tcb.snd.nxt);
    }
    FinAccepted(v, room, fin);
    if r.seg.Some? {
      FinSane(v, r.seg.value, r.data, S, base);
    }
  }

  lemma FullExactly(tx: TxView, want: nat, at: Value)
    requires Total(tx.spans) == |tx.sent|
    ensures TxSend(tx, want, at).2 == TxBufferFull <==> |tx.spans| >= tx.slots
  {
    hide Wrap, Start, LessThan, EndSeq, StartingAt;
  }

  /** The FIN with what data there is for it. */
  lemma FinAccepted(v: HView, room: nat, fin: bool)
    requires BuffersOk(v) && BlockOk(v.tcb, fin) && v.tcb.state.TxQueuedDataOpen()
    requires C.Pending(v.tcb, room).Some? && C.Pending(v.tcb, room).value.flags.fin
    ensures var p, n := C.Pending(v.tcb, room).value, Min(C.Pending(v.tcb, room).value.datalen, |v.tx.unsent|);
            var flags := if n > 0 then p.flags.(psh := true) else p.flags;
            var seg := p.(wnd := RecvWindow(v), datalen := n, flags := flags);
            C.Send(v.tcb, seg).1 == C.NoErr <==> n == 0 || n < v.tcb.snd.wnd
  {
    hide Wrap, C.Pending, C.Send, R.Inv, RecvWindow;
    var n := Min(C.Pending(v.tcb, room).value.datalen, |v.tx.unsent|);
    RecvWindowFits(v);
    R.NoSelfRejection(R.Track(v.tcb, fin, 0, true, true), R.DoSend(room, n, n > 0, RecvWindow(v)));
  }
}
