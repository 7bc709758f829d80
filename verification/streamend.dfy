/**
  One endpoint as a reader, from an established connection through every way of closing it: what its user reads
  is a prefix of the peer's stream, and end of file means all of it was read. The endpoint may write, send,
  rewind and close as it likes; the peer's segments may be lost, duplicated and reordered.
*/
module StreamEnd {
  import opened Options
  import opened Bytes
  import opened SeqNum
  import opened Segments
  import C = Control
  import R = ControlRuns
  import opened TxQueue
  import opened Reassembling
  import opened RxStream
  import opened HandlerSpec
  import opened Endpoint

  /** An endpoint and what its user read. */
  datatype Reader = Reader(h: HView, read: seq<byte>)

  /** The peer's FIN was taken. */
  predicate HalfClosed(st: State) {
    st.CloseWait? || st.LastAck? || st.Closing? || st.TimeWait?
  }

  /** Stream bytes received. */
  function Got(x: Reader): nat {
    |x.read| + |x.h.contents|
  }

  /** Position of rcv.NXT in the stream `S`, which its FIN follows. */
  function NextPos(x: Reader, S: seq<byte>): nat {
    if HalfClosed(x.h.tcb.state) then |S| + 1 else Got(x)
  }

  /** A segment of the peer's: part of the stream at the position its number says, a FIN only at its end. */
  ghost predicate Honest(seg: Segment, payload: seq<byte>, at: nat, S: seq<byte>, base: int) {
    && seg.datalen == |payload| && seg.first == Wrap(base + at) && !seg.flags.syn && !seg.flags.rst
    && if at <= |S| then
         at + |payload| <= |S| && payload == S[at..at + |payload|] && (seg.flags.fin ==> at + |payload| == |S|)
       else at == |S| + 1 && payload == [] && !seg.flags.fin
  }

  /** Neither most of a turn of sequence space old nor half a turn ahead. */
  predicate Near(x: Reader, S: seq<byte>, payload: seq<byte>, at: nat) {
    NextPos(x, S) - at <= MOD - MAX_WINDOW && at + |payload| <= NextPos(x, S) + HALF
  }

  /** The connection is over, or the receive side is no further back; `fin` tells whether it may have taken a FIN. */
  predicate Onward(x: Reader, x': Reader, S: seq<byte>, fin: bool) {
    || x'.h.tcb.state.Closed?
    || (Opened(x.h.tcb.state) && Opened(x'.h.tcb.state) && NextPos(x, S) <= NextPos(x', S)
        && (HalfClosed(x'.h.tcb.state) ==> fin || HalfClosed(x.h.tcb.state)))
  }

  ghost predicate BuffersOk(h: HView) {
    && !h.shutdownRx && |h.contents| + |h.ahead| <= MAX_WINDOW && Total(h.tx.spans) == |h.tx.sent|
       && h.tcb.rcv.wnd <= MAX_WINDOW
  }

  /** What the receive side holds in each state of the connection. */
  ghost predicate InPlace(x: Reader, S: seq<byte>, base: int) {
    var st := x.h.tcb.state;
    && (st.RxDataOpen() || HalfClosed(st) || st.Closed?)
    && (st.RxDataOpen() ==> Lockstep(Rx(x.h), S, base, Got(x)))
    && (HalfClosed(st) ==>
       x.h.held == [] && x.h.tcb.rcv.nxt == Wrap(base + (|S| + 1)) && (Got(x) == |S| || st.TimeWait?))
    && (st.Closed? ==> x.h.tcb.rcv.nxt == 0 && x.h.tcb.rcv.wnd == 0)
  }

  ghost predicate ReaderOk(x: Reader, S: seq<byte>, base: int) {
    BuffersOk(x.h) && Got(x) <= |S| && x.read + x.h.contents == S[..Got(x)] && InPlace(x, S, base)
  }

  // ---- arrivals

  /** What the control block does with an accepted segment once the handshake is over. */
  lemma AcceptedMoves(s: C.Tcb, seg: Segment)
    requires (s.state.RxDataOpen() || HalfClosed(s.state)) && C.Recv(s, seg).1 == C.NoErr
    ensures seg.first == s.rcv.nxt && !seg.flags.syn && !seg.flags.rst && !s.state.TimeWait?
    ensures var s' := C.Recv(s, seg).0;
            if s'.state.Closed? then s.state.LastAck? && s'.rcv == RecvAfter(C.RESET.rcv, seg)
            else
              && s'.rcv == RecvAfter(s.rcv, seg)
              && (if seg.flags.fin then HalfClosed(s'.state)
                  else if s.state.RxDataOpen() then s'.state.RxDataOpen() else HalfClosed(s'.state))
  {
    hide Wrap, C.Recv, C.Handle, R.Takes;
    AcceptedFirst(s, seg);
    R.AcceptEffect(s, seg);
    R.RecvRefusal(s, seg);
    R.HandleStates(s, seg);
    HandledRcv(s, seg);
  }

  function RecvAfter(rcv: C.RecvSpace, seg: Segment): C.RecvSpace {
    rcv.(nxt := Add(rcv.nxt, seg.Len()))
  }

  lemma HandledRcv(s: C.Tcb, seg: Segment)
    requires (s.state.RxDataOpen() || HalfClosed(s.state)) && C.Handle(s, seg).2 == C.NoErr
    ensures C.Handle(s, seg).0.rcv == if C.Handle(s, seg).0.state.Closed? then C.RESET.rcv else s.rcv
  {
    hide Wrap;
  }

  lemma AcceptedFirst(s: C.Tcb, seg: Segment)
    requires (s.state.RxDataOpen() || HalfClosed(s.state)) && C.Recv(s, seg).1 == C.NoErr
    ensures seg.first == s.rcv.nxt && !seg.flags.syn && !seg.flags.rst
  {
    hide Wrap, LessThan, InWindow, C.Handle, C.UpdateWindow, C.UpdateUna, Segment.Last;
    R.RecvRefusal(s, seg);
  }

  /** A refused segment leaves the receive space and the state, or aborts. */
  lemma RefusedMoves(s: C.Tcb, seg: Segment)
    requires (s.state.RxDataOpen() || HalfClosed(s.state)) && C.Recv(s, seg).1 != C.NoErr
    ensures C.Recv(s, seg).0 == C.RESET || (C.Recv(s, seg).0.state == s.state && C.Recv(s, seg).0.rcv == s.rcv)
  {
    hide Wrap, C.Recv;
    R.RecvRefusal(s, seg);
  }

  /** The four things an arrival can do. */
  lemma ArrivalCases(h: HView, seg: Segment, payload: seq<byte>)
    requires BuffersOk(h) && (h.tcb.state.RxDataOpen() || HalfClosed(h.tcb.state)) && seg.datalen == |payload|
    ensures var h', s := HRecv(h, seg, payload, 0, 0).0, C.Recv(h.tcb, seg);
            || h' == h || StoredCase(h, seg, payload, h') || RefusedCase(h, seg, h')
            || (s.1 == C.NoErr && s.0.state.Closed? && h' == h.(tcb := s.0))
            || (s.1 == C.NoErr && AcceptedCase(h, seg, payload, h') && !s.0.state.Closed?)
  {
    hide Wrap, OutOfOrder, Place, RxStore, C.Recv, Accepted, Total, IsTxOver, IsKeepalive;
  }

  lemma {:induction false} DropTotals(spans: seq<Span>, d: nat)
    requires d <= Total(spans)
    ensures Total(DropSpans(spans, d)) == Total(spans) - d
  {
    if spans != [] && d > 0 {
      StartTail(spans, |spans| - 1);
      if spans[0].size <= d {
        DropTotals(spans[1..], d - spans[0].size);
      } else {
        var rest := [Span(Wrap(spans[0].first + d), spans[0].size - d)] + spans[1..];
        StartTail(rest, |spans| - 1);
        assert rest[1..] == spans[1..];
      }
    }
  }

  lemma AckTotals(tx: TxView, ack: Value)
    requires Total(tx.spans) == |tx.sent|
    ensures Total(TxAck(tx, ack).spans) == |TxAck(tx, ack).sent|
  {
    hide Total, Wrap, DropSpans;
    if AckTaken(tx, ack) && AckOffset(tx, ack) > 0 {
      DropTotals(tx.spans, AckOffset(tx, ack));
    }
  }

  /** What an accepted payload leaves alone. */
  lemma AcceptedFrame(v: HView, una: Value, seg: Segment, payload: seq<byte>)
    requires BuffersOk(v) && |payload| <= |v.ahead| && !seg.flags.syn
    ensures var g := Accepted(v, una, seg, payload, 0, 0);
            && BuffersOk(g) && g.tcb.state == v.tcb.state && Rx(g) == Rx(TakePayload(v, payload))
  {
    hide Wrap, TxAck, Total, Deliver;
    TakeFrame(v, payload);
    AckTotals(v.tx, seg.ackno);
  }

  /** Data in its turn. */
  lemma DataKept(x: Reader, seg: Segment, payload: seq<byte>, at: nat, S: seq<byte>, base: int, h': HView)
    requires ReaderOk(x, S, base) && x.h.tcb.state.RxDataOpen() && Honest(seg, payload, at, S, base)
             && Near(x, S, payload, at)
    requires AcceptedCase(x.h, seg, payload, h') && !C.Recv(x.h.tcb, seg).0.state.Closed? && !seg.flags.fin
    ensures ReaderOk(Reader(h', x.read), S, base) && Onward(x, Reader(h', x.read), S, false)
  {
    hide Wrap, C.Recv, Lockstep, Accepted, Total;
    var r, s := Got(x), C.Recv(x.h.tcb, seg).0;
    AcceptedMoves(x.h.tcb, seg);
    LockstepNext(x.h, S, base, r);
    SamePosition(base, at, r);
    R.OutgoingLen(seg);
    TakenIn(x.h, s, seg, payload, S, base, r);
    AcceptedFrame(x.h.(tcb := s), x.h.tcb.snd.una, seg, payload);
    var r' := r + |h'.contents| - |x.h.contents|;
    assert S[..r'] == S[..r] + S[r..r'];
    assert x.read + h'.contents == x.read + x.h.contents + S[r..r'];
  }

  lemma LockstepNext(h: HView, S: seq<byte>, base: int, r: nat)
    requires Lockstep(Rx(h), S, base, r)
    ensures h.tcb.rcv.nxt == Wrap(base + r) && r <= |S|
  {
    hide Wrap, AllInStep, Sorted;
  }

  /** Once the FIN is taken, everything held is behind it. */
  lemma {:induction false} AllStale(held: seq<Held>, nxt: Value, base: int, r: nat, ahead: seq<byte>, S: seq<byte>,
                                    free: nat)
    requires AllInStep(held, nxt, r, ahead, S) && nxt == Wrap(base + r) && |S| + 1 - r < HALF
    requires forall i :: 0 <= i < |held| ==> r < Pos(held[i], nxt, r)
    ensures Deliver(held, Wrap(base + (|S| + 1)), free) == (0, [])
    decreases |held|
  {
    hide Pos, Wrap, LessThan;
    if held != [] {
      var h := held[0];
      assert InStep(h, nxt, r, ahead, S);
      PosFirst(h, nxt, base, r);
      OrderExact(base, Pos(h, nxt, r), |S| + 1);
      AllStale(held[1..], nxt, base, r, ahead, S, free);
    }
  }

  lemma StaleHeld(v: RxView, S: seq<byte>, base: int, r: nat, free: nat)
    requires Lockstep(v, S, base, r) && |S| + 1 - r < HALF
    ensures Deliver(v.held, Wrap(base + (|S| + 1)), free) == (0, []) && (r == |S| ==> v.held == [])
  {
    hide Pos, Wrap;
    AllAhead(v.held, v.nxt, r);
    AllStale(v.held, v.nxt, base, r, v.ahead, S, free);
    if v.held != [] {
      assert InStep(v.held[0], v.nxt, r, v.ahead, S);
    }
  }

  /** The end of the stream, taken in its turn. */
  lemma FinKept(x: Reader, seg: Segment, payload: seq<byte>, at: nat, S: seq<byte>, base: int, h': HView)
    requires ReaderOk(x, S, base) && x.h.tcb.state.RxDataOpen() && Honest(seg, payload, at, S, base)
             && Near(x, S, payload, at)
    requires AcceptedCase(x.h, seg, payload, h') && !C.Recv(x.h.tcb, seg).0.state.Closed? && seg.flags.fin
    ensures ReaderOk(Reader(h', x.read), S, base) && Onward(x, Reader(h', x.read), S, true)
  {
    hide Wrap, C.Recv, Lockstep, Accepted, Total, RxDeliver, Deliver, TakePayload, OutOfOrder;
    var r, s := Got(x), C.Recv(x.h.tcb, seg).0;
    AcceptedMoves(x.h.tcb, seg);
    LockstepNext(x.h, S, base, r);
    SamePosition(base, at, r);
    R.OutgoingLen(seg);
    AddExact(base, r, |payload| + 1);
    var v := x.h.(tcb := s);
    AcceptedFrame(v, x.h.tcb.snd.una, seg, payload);
    TakenRx(v, payload);
    StaleHeld(Rx(x.h), S, base, r, |x.h.ahead| - |payload|);
    var w := Rx(v).(contents := v.contents + payload, ahead := v.ahead[|payload|..]);
    NoDelivery(w);
    assert x.read + (x.h.contents + payload) == S[..r] + S[r..|S|] == S;
  }

  /** After the FIN only segments without content are taken. */
  lemma TailKept(x: Reader, seg: Segment, payload: seq<byte>, at: nat, S: seq<byte>, base: int, h': HView)
    requires ReaderOk(x, S, base) && HalfClosed(x.h.tcb.state) && Honest(seg, payload, at, S, base)
             && Near(x, S, payload, at)
    requires var s := C.Recv(x.h.tcb, seg);
             s.1 == C.NoErr && if s.0.state.Closed? then h' == x.h.(tcb := s.0) else AcceptedCase(x.h, seg, payload, h')
    ensures ReaderOk(Reader(h', x.read), S, base) && Onward(x, Reader(h', x.read), S, false)
  {
    hide Wrap, C.Recv, Lockstep, Accepted, Total, RxDeliver, Deliver, OutOfOrder;
    var s := C.Recv(x.h.tcb, seg).0;
    AcceptedMoves(x.h.tcb, seg);
    SamePosition(base, at, |S| + 1);
    R.OutgoingLen(seg);
    R.AddZero(x.h.tcb.rcv.nxt);
    R.AddZero(0);
    if !s.state.Closed? {
      AcceptedFrame(x.h.(tcb := s), x.h.tcb.snd.una, seg, payload);
    }
  }

  /** Nothing of the stream lies in the window past its FIN. */
  lemma NothingPastEnd(x: Reader, seg: Segment, payload: seq<byte>, at: nat, S: seq<byte>, base: int)
    requires ReaderOk(x, S, base) && HalfClosed(x.h.tcb.state) && Honest(seg, payload, at, S, base)
             && Near(x, S, payload, at)
    ensures !OutOfOrder(x.h, seg)
  {
    hide Wrap, InWindow, Lockstep, Total, Segment.Last;
    WindowExact(base, at, |S| + 1, x.h.tcb.rcv.wnd);
  }

  /** Data ahead of its turn. */
  lemma StoredKept(x: Reader, seg: Segment, payload: seq<byte>, at: nat, S: seq<byte>, base: int, h': HView)
    requires ReaderOk(x, S, base) && x.h.tcb.state.RxDataOpen() && Honest(seg, payload, at, S, base)
             && Near(x, S, payload, at)
    requires StoredCase(x.h, seg, payload, h')
    ensures ReaderOk(Reader(h', x.read), S, base) && Onward(x, Reader(h', x.read), S, false)
  {
    hide Wrap, Lockstep, Total, RxStore, Segment.Last;
    StoredFrame(x.h, seg, payload, h');
    StoredIn(x.h, seg, payload, h', S, base, Got(x), at);
  }

  lemma RefusedKept(x: Reader, seg: Segment, S: seq<byte>, base: int, h': HView)
    requires ReaderOk(x, S, base) && !x.h.tcb.state.Closed? && RefusedCase(x.h, seg, h')
    ensures ReaderOk(Reader(h', x.read), S, base) && Onward(x, Reader(h', x.read), S, false)
  {
    hide Wrap, C.Recv, Lockstep, Total;
    RefusedMoves(x.h.tcb, seg);
  }

  /** Any segment of the peer's keeps the reader's stream. */
  lemma ArrivalKept(x: Reader, seg: Segment, payload: seq<byte>, at: nat, S: seq<byte>, base: int)
    requires ReaderOk(x, S, base) && Honest(seg, payload, at, S, base)
             && (Opened(x.h.tcb.state) ==> Near(x, S, payload, at))
    ensures ReaderOk(Reader(HRecv(x.h, seg, payload, 0, 0).0, x.read), S, base)
    ensures Onward(x, Reader(HRecv(x.h, seg, payload, 0, 0).0, x.read), S, seg.flags.fin)
  {
    hide Wrap, C.Recv, Lockstep, Total, HRecv, AcceptedCase, StoredCase, RefusedCase, OutOfOrder, Near;
    var h' := HRecv(x.h, seg, payload, 0, 0).0;
    if x.h.tcb.state.Closed? {
      ClosedRecv(x.h, seg, payload);
    } else {
      ArrivalCases(x.h, seg, payload);
      if h' == x.h {
      } else if StoredCase(x.h, seg, payload, h') {
        StoredNeeds(x.h, seg, payload, h');
        if HalfClosed(x.h.tcb.state) {
          NothingPastEnd(x, seg, payload, at, S, base);
        }
        StoredKept(x, seg, payload, at, S, base, h');
      } else if RefusedCase(x.h, seg, h') {
        RefusedKept(x, seg, S, base, h');
      } else {
        AcceptedMoves(x.h.tcb, seg);
        if HalfClosed(x.h.tcb.state) {
          TailKept(x, seg, payload, at, S, base, h');
        } else if seg.flags.fin {
          FinKept(x, seg, payload, at, S, base, h');
        } else {
          DataKept(x, seg, payload, at, S, base, h');
        }
      }
    }
  }

  lemma StoredNeeds(h: HView, seg: Segment, payload: seq<byte>, h': HView)
    requires |payload| < MOD && StoredCase(h, seg, payload, h')
    ensures OutOfOrder(h, seg)
  {
    hide OutOfOrder, RxStore;
  }

  /** A SYN or RST from anywhere keeps it too. */
  lemma StrayKept(x: Reader, seg: Segment, payload: seq<byte>, S: seq<byte>, base: int)
    requires ReaderOk(x, S, base) && seg.datalen == |payload| && (seg.flags.syn || seg.flags.rst)
    ensures ReaderOk(Reader(HRecv(x.h, seg, payload, 0, 0).0, x.read), S, base)
    ensures Onward(x, Reader(HRecv(x.h, seg, payload, 0, 0).0, x.read), S, false)
  {
    hide Wrap, C.Recv, Lockstep, Total, HRecv, RefusedCase;
    if x.h.tcb.state.Closed? {
      ClosedRecv(x.h, seg, payload);
    } else {
      ArrivalCases(x.h, seg, payload);
      var h' := HRecv(x.h, seg, payload, 0, 0).0;
      if C.Recv(x.h.tcb, seg).1 == C.NoErr {
        AcceptedMoves(x.h.tcb, seg);
      } else if h' != x.h {
        NeverStored(x.h, seg);
        RefusedKept(x, seg, S, base, h');
      }
    }
  }

  lemma NeverStored(h: HView, seg: Segment)
    requires seg.flags.HasCtl()
    ensures !OutOfOrder(h, seg)
  {
    hide InWindow;
  }

  // ---- the endpoint's own acts

  /** How sending and closing move the state once the handshake is over. */
  predicate StateStep(st: State, st': State) {
    st' == st || (st.Established? && st'.FinWait1?) || (st.CloseWait? && st'.LastAck?) || (st.Closing? && st'.TimeWait?)
  }

  ghost predicate SameReceive(h: HView, v: HView) {
    BuffersOk(v) && Rx(v) == Rx(h) && StateStep(h.tcb.state, v.tcb.state)
  }

  /** A send leaves the receive side, or ends the connection: aborted, or past the last ACK of TIME-WAIT. */
  ghost predicate SendsSafely(h: HView, r: Sent) {
    if r.teardown.Some? then
      var s := r.teardown.value;
      s == C.RESET
        || (h.tcb.state.TimeWait? && s.state.TimeWait? && s.rcv.nxt == h.tcb.rcv.nxt && s.rcv.wnd <= MAX_WINDOW)
    else SameReceive(h, r.v)
  }

  predicate Opened(st: State) {
    st.RxDataOpen() || HalfClosed(st)
  }

  lemma EmitSafe(v: HView, seg: Segment, data: seq<byte>)
    requires BuffersOk(v) && Opened(v.tcb.state) && seg.wnd <= MAX_WINDOW
    ensures SendsSafely(v, Emit(v, seg, data))
  {
    hide Wrap, C.Send, Total, C.NextSnd, C.NextPending;
    if C.Send(v.tcb, seg).1 == C.NoErr {
      R.SentBlock(v.tcb, seg);
    }
  }

  lemma SendTotals(tx: TxView, want: nat, at: Value)
    requires Total(tx.spans) == |tx.sent|
    ensures Total(TxSend(tx, want, at).0.spans) == |TxSend(tx, want, at).0.sent|
  {
    hide Total, LessThan, Wrap, StartingAt, Start;
    var n := Min(want, |tx.unsent|);
    StartAppend(tx.spans, Span(at, n));
  }

  lemma PendingSafe(v: HView, room: nat)
    requires BuffersOk(v) && Opened(v.tcb.state)
    ensures SendsSafely(v, SendPending(v, room))
  {
    hide Wrap, C.Pending, Total, Emit, TxSend;
    RecvWindowFits(v);
    match C.Pending(v.tcb, room)
    case None =>
    case Some(p) =>
      var seg := p.(wnd := RecvWindow(v));
      if seg.flags == SYNACK || seg.datalen == 0 {
        EmitSafe(v, seg, []);
      } else {
        SendTotals(v.tx, seg.datalen, seg.first);
        var (tx, data, err) := TxSend(v.tx, seg.datalen, seg.first);
        if err == TxOk {
          EmitSafe(v.(tx := tx),
            seg.(datalen := |data|, flags := if data != [] then seg.flags.(psh := true) else seg.flags), data);
        }
      }
  }

  lemma RecvWindowFits(v: HView)
    requires |v.contents| + |v.ahead| <= MAX_WINDOW
    ensures RecvWindow(v) <= MAX_WINDOW
  {
  }

  lemma CloseSafe(s: C.Tcb)
    requires Opened(s.state) && C.Close(s).1 == C.NoErr
    ensures C.Close(s).0.rcv == s.rcv && StateStep(s.state, C.Close(s).0.state) && Opened(C.Close(s).0.state)
    ensures !C.Close(s).0.state.TimeWait?
  {
  }

  lemma SegmentSafe(v: HView, room: nat)
    requires BuffersOk(v) && Opened(v.tcb.state)
    ensures SendsSafely(v, SendSegment(v, false, room))
  {
    hide Wrap, Total, SendPending;
    PendingSafe(v, room);
  }

  lemma SendOrCloseSafe(w: HView, room: nat, limit: Size)
    requires BuffersOk(w) && Opened(w.tcb.state)
    ensures SendsSafely(w, SendOrClose(w, room, limit))
  {
    hide Wrap, Total, SendSegment, C.Close, C.HasPending, Room, WantsClose, NothingToDo, ClosesNow;
    var x := w.(closing := WantsClose(w));
    SegmentSafe(x, Room(w.tcb, w.tx, room, limit));
    if C.Close(w.tcb).1 == C.NoErr {
      CloseSafe(w.tcb);
      var s := C.Close(w.tcb).0;
      SegmentSafe(x.(tcb := s, closing := false), Room(s, w.tx, room, limit));
    }
  }

  /** Every send of an open connection, whatever the policy asks and whether a close is due. */
  lemma SendSafe(h: HView, room: nat, steer: Steer)
    requires BuffersOk(h) && Opened(h.tcb.state)
    ensures SendsSafely(h, HSend(h, room, steer))
  {
    hide Wrap, Total, SendOrClose, HRewind, C.HasPending;
    RewindTotals(h, steer.rewind);
    RewindRx(h, steer.rewind);
    SendOrCloseSafe(HRewind(h, steer.rewind), room, steer.limit);
  }

  lemma RewindRx(h: HView, to: Option<Value>)
    requires Total(h.tx.spans) == |h.tx.sent|
    ensures var w := HRewind(h, to);
            && Rx(w) == Rx(h) && w.tcb.state == h.tcb.state && w.tcb.rcv == h.tcb.rcv && w.shutdownRx == h.shutdownRx
            && w.requeue == h.requeue && w.remotePort == h.remotePort
  {
    hide Wrap, Total, Holding, TxRewind, LessThan;
  }

  /** The endpoint after a send, torn down or not. */
  lemma SendKept(x: Reader, room: nat, steer: Steer, S: seq<byte>, base: int, h': HView)
    requires ReaderOk(x, S, base) && Opened(x.h.tcb.state) && SentView(HSend(x.h, room, steer), h')
             && |h'.ahead| <= MAX_WINDOW
    ensures ReaderOk(Reader(h', x.read), S, base) && Onward(x, Reader(h', x.read), S, false)
  {
    hide Wrap, Lockstep, HSend;
    SendSafe(x.h, room, steer);
    EmptyTotal();
    if HSend(x.h, room, steer).teardown.Some? {
      assert x.read + [] == x.read == S[..Got(x)][..|x.read|] == S[..|x.read|];
    }
  }

  /** What a read hands out and leaves. */
  lemma ReadKept(x: Reader, want: nat, S: seq<byte>, base: int)
    requires ReaderOk(x, S, base)
    requires x.h.tcb.state.Closed? ==> forall i :: 0 <= i < |x.h.held| ==> x.h.held[i].first != 0
    ensures ReaderOk(Reader(HRead(x.h, want).0, x.read + HRead(x.h, want).1), S, base)
    ensures Onward(x, Reader(HRead(x.h, want).0, x.read + HRead(x.h, want).1), S, false)
  {
    hide Wrap, Lockstep, Total, WindowUpdateDue, Deliver;
    var n := Min(want, |x.h.contents|);
    if n > 0 {
      var g := x.h.(contents := x.h.contents[n..], ahead := x.h.ahead + x.h.contents[..n]);
      assert Rx(g) == RxRead(Rx(x.h), n);
      assert x.read + x.h.contents[..n] + x.h.contents[n..] == x.read + x.h.contents;
      if x.h.tcb.state.RxDataOpen() {
        ReadKeeps(Rx(x.h), S, base, Got(x), n);
      } else if x.h.tcb.state.Closed? {
        NothingAtZero(x.h.held, |g.ahead|);
        NoDelivery(Rx(g));
      }
    } else {
      assert x.read + [] == x.read;
    }
  }

  // ---- runs

  datatype Event =
    | Writes(b: seq<byte>)
    | Sends(room: nat, steer: Steer,
      after: HView)                // `after` says what a torn-down handler's ring is left with
    | Gets(seg: Segment, payload: seq<byte>, at: nat)             // a segment of the peer's
    | Strays(seg: Segment, payload: seq<byte>)                    // a SYN or RST from anywhere
    | Reads(want: nat)
    | Closes

  ghost predicate CanBe(x: Reader, e: Event, S: seq<byte>, base: int) {
    match e
    case Writes(_) => true
    case Sends(room, steer, after) =>
      BuffersOk(x.h) && Opened(x.h.tcb.state) && SentView(HSend(x.h, room, steer), after) && |after.ahead| <= MAX_WINDOW
    case Gets(seg, payload, at) => Honest(seg, payload, at, S, base)
      && (Opened(x.h.tcb.state) ==> Near(x, S, payload, at))
    case Strays(seg, payload) => seg.datalen == |payload| && (seg.flags.syn || seg.flags.rst)
    case Reads(_) => x.h.tcb.state.Closed? ==> forall i :: 0 <= i < |x.h.held| ==> x.h.held[i].first != 0
    case Closes => true
  }

  /** What the handler's functions ask of the endpoint and the segment. */
  predicate Fit(x: Reader, e: Event) {
    && Total(x.h.tx.spans) == |x.h.tx.sent| && |x.h.contents| + |x.h.ahead| < MOD
    && (e.Gets? || e.Strays? ==> e.seg.datalen == |e.payload|)
  }

  ghost function Then(x: Reader, e: Event): Reader {
    if !Fit(x, e) then x
    else
      match e
      case Writes(b) => x.(h := HWrite(x.h, b).0)
      case Sends(_, _, after) => x.(h := after)
      case Gets(seg, payload, _) => x.(h := HRecv(x.h, seg, payload, 0, 0).0)
      case Strays(seg, payload) => x.(h := HRecv(x.h, seg, payload, 0, 0).0)
      case Reads(want) => Reader(HRead(x.h, want).0, x.read + HRead(x.h, want).1)
      case Closes => x.(h := x.h.(closing := x.h.closing || !x.h.tcb.state.IsClosed()))
  }

  lemma EventKept(x: Reader, e: Event, S: seq<byte>, base: int)
    requires ReaderOk(x, S, base) && CanBe(x, e, S, base)
    ensures Fit(x, e) && ReaderOk(Then(x, e), S, base) && Onward(x, Then(x, e), S, e.Gets? && e.seg.flags.fin)
  {
    hide Wrap, Lockstep, Total, HSend, HRecv, HRead, TxWriteError, SentView, Near;
    match e {
      case Writes(_) =>
      case Closes =>
      case Sends(room, steer, after) => SendKept(x, room, steer, S, base, after);
      case Gets(seg, payload, at) => ArrivalKept(x, seg, payload, at, S, base);
      case Strays(seg, payload) => StrayKept(x, seg, payload, S, base);
      case Reads(want) => ReadKept(x, want, S, base);
    }
  }

  /** An endpoint as the handshake leaves it, `base` being the number of the peer's first byte. */
  ghost predicate Newborn(x: Reader, base: int) {
    && x.h.tcb.state.Established? && BuffersOk(x.h) && x.h.tcb.rcv.nxt == Wrap(base)
    && x.read == [] && x.h.contents == [] && x.h.held == []
  }

  lemma NewbornOk(x: Reader, S: seq<byte>, base: int)
    requires Newborn(x, base)
    ensures ReaderOk(x, S, base)
  {
    hide Wrap, Total;
    assert base + 0 == base;
  }

  ghost predicate IsHistory(xs: seq<Reader>, es: seq<Event>, S: seq<byte>, base: int) {
    && |xs| == |es| + 1 && Newborn(xs[0], base)
    && forall i :: 0 <= i < |es| ==> CanBe(xs[i], es[i], S, base) && xs[i + 1] == Then(xs[i], es[i])
  }

  lemma {:induction false} HistoryOk(xs: seq<Reader>, es: seq<Event>, S: seq<byte>, base: int, i: nat)
    requires IsHistory(xs, es, S, base) && i < |xs|
    ensures ReaderOk(xs[i], S, base) && (i < |es| ==> Fit(xs[i], es[i]))
  {
    hide ReaderOk, CanBe, Then, Newborn, Fit;
    if i == 0 {
      NewbornOk(xs[0], S, base);
    } else {
      HistoryOk(xs, es, S, base, i - 1);
      EventKept(xs[i - 1], es[i - 1], S, base);
    }
    if i < |es| {
      EventKept(xs[i], es[i], S, base);
    }
  }

  /**
    Through every close: what the user has read is a prefix of the stream the peer wrote, and a read that asks for
    bytes and gets end of file has been given the whole stream.
  */
  lemma EofMeansAll(xs: seq<Reader>, es: seq<Event>, S: seq<byte>, base: int, i: nat)
    requires IsHistory(xs, es, S, base) && i < |xs|
    ensures xs[i].read <= S
    ensures i < |es| && es[i].Reads? && es[i].want > 0 ==>
              Fit(xs[i], es[i]) && (HRead(xs[i].h, es[i].want).2 == HEOF ==> xs[i].read == S)
  {
    hide Wrap, Lockstep, CanBe, Then, Newborn, Total, DeliverHeld, WindowUpdateDue;
    HistoryOk(xs, es, S, base, i);
    var x := xs[i];
    assert x.read == (x.read + x.h.contents)[..|x.read|];
  }

  /**
    End of file with bytes left to read: exactly for a read of no bytes once the peer's FIN was taken, outside
    TIME-WAIT.
  */
  lemma EmptyReadEof(x: Reader, want: nat, S: seq<byte>, base: int)
    requires ReaderOk(x, S, base)
    ensures HRead(x.h, want).2 == HEOF && x.h.contents != [] <==>
            want == 0 && HalfClosed(x.h.tcb.state) && !x.h.tcb.state.TimeWait? && x.h.contents != []
  {
    hide Wrap, Lockstep, Total, DeliverHeld, WindowUpdateDue;
  }

  /** Sending the last ACK of TIME-WAIT keeps what was received exactly if nothing was left to read. */
  lemma LastAckDrops(h: HView, h': HView, room: nat, steer: Steer)
    requires BuffersOk(h) && h.tcb.state.TimeWait? && SentView(HSend(h, room, steer), h')
    requires HSend(h, room, steer).seg.Some? && HSend(h, room, steer).seg.value.flags.ack
    ensures h'.contents == h.contents <==> h.contents == []
  {
    hide Wrap, Total, C.Send, C.Pending, TxSend, HRewind, C.HasPending, RecvWindow, WantsClose, NothingToDo,
         ClosesNow, Room;
    RewindTotals(h, steer.rewind);
    RewindRx(h, steer.rewind);
  }

  // ---- why arrivals must be recent, and reads after an abort

  /** Held segments in lockstep, delivered at zero instead of rcv.NXT: one numbered zero is reached. */
  lemma {:induction false} ReachesZero(held: seq<Held>, nxt: Value, base: int, r: nat, ahead: seq<byte>, S: seq<byte>,
                                       i: nat, free: nat)
    requires AllInStep(held, nxt, r, ahead, S) && Sorted(held, nxt, r) && |ahead| < HALF && |ahead| <= free
    requires nxt == Wrap(base + r) && forall j :: 0 <= j < |held| ==> r < Pos(held[j], nxt, r)
    requires i < |held| && held[i].first == 0
    ensures Deliver(held, 0, free).0 > 0
    decreases |held|
  {
    hide Pos, Wrap, Before, Sorted, LessThan;
    var h := held[0];
    assert InStep(h, nxt, r, ahead, S);
    if h.first != 0 {
      assert InStep(held[i], nxt, r, ahead, S);
      ApartBy(held, nxt, r, i);
      PosFirst(h, nxt, base, r);
      PosFirst(held[i], nxt, base, r);
      OrderExact(base, Pos(h, nxt, r), Pos(held[i], nxt, r));
      TailInStep(held, nxt, r, ahead, S);
      ReachesZero(held[1..], nxt, base, r, ahead, S, i - 1, free);
    }
  }

  lemma ApartBy(held: seq<Held>, nxt: Value, r: int, i: nat)
    requires Sorted(held, nxt, r) && 0 < i < |held|
    ensures Pos(held[0], nxt, r) + held[0].n <= Pos(held[i], nxt, r)
  {
    hide Pos;
    assert Before(held[0], held[i], nxt, r);
  }

  /**
    An abort resets rcv.NXT to zero and leaves the reassembly list. A read after it hands out only what
    had been received if and only if no held segment is numbered zero.
  */
  lemma AbortedReadExactly(h: HView, S: seq<byte>, base: int, r: nat, want: nat)
    requires Lockstep(Rx(h), S, base, r) && !h.shutdownRx && h.contents != [] && want > 0
    ensures var n := Min(want, |h.contents|);
            HRead(h.(tcb := C.RESET), want).0.contents == h.contents[n..] <==>
              forall i :: 0 <= i < |h.held| ==> h.held[i].first != 0
  {
    hide Pos, Wrap, AllInStep, Sorted, LessThan, Deliver, WindowUpdateDue, RxDeliver;
    var n := Min(want, |h.contents|);
    var g := h.(tcb := C.RESET, contents := h.contents[n..], ahead := h.ahead + h.contents[..n]);
    AllAhead(h.held, h.tcb.rcv.nxt, r);
    if i :| 0 <= i < |h.held| && h.held[i].first == 0 {
      ReachesZero(h.held, h.tcb.rcv.nxt, base, r, h.ahead, S, i, |g.ahead|);
    } else {
      NothingAtZero(h.held, |g.ahead|);
    }
    DueGrows(Rx(g));
  }

  lemma DueGrows(v: RxView)
    ensures |RxDeliver(v).contents| == |v.contents| + Due(v) && (Due(v) == 0 ==> RxDeliver(v).contents == v.contents)
  {
    hide Deliver, Wrap;
  }

  /** Why arrivals must be fresh: a data segment exactly a turn of sequence space old is taken for the next one. */
  lemma StaleTaken(h: HView, payload: seq<byte>, base: int, r: int)
    requires h.tcb.state.Established? && !h.shutdownRx && h.held == [] && Total(h.tx.spans) == |h.tx.sent|
    requires h.tcb.rcv.nxt == Wrap(base + r) && h.tcb.snd.una == h.tcb.snd.nxt
    requires 0 < |payload| <= h.tcb.rcv.wnd && |payload| <= |h.ahead|
    ensures HRecv(h, Segment(Wrap(base + (r - MOD)), h.tcb.snd.una, |payload|, 0, ACK), payload, 0, 0).0.contents ==
            h.contents + payload
  {
    hide Wrap, InWindow, LessThan, TxAck, Total, Deliver;
    var seg := Segment(Wrap(base + (r - MOD)), h.tcb.snd.una, |payload|, 0, ACK);
    WrapTurn(base + r);
    assert base + (r - MOD) == base + r - MOD;
    R.OutgoingLen(seg);
    R.FirstInWindow(seg.first, h.tcb.rcv.wnd);
    R.LastInWindow(seg, h.tcb.rcv.wnd);
    StaleAccepted(h.tcb, seg);
  }

  lemma StaleAccepted(s: C.Tcb, seg: Segment)
    requires s.state.Established? && seg.flags == ACK && seg.datalen > 0 && seg.wnd == 0 && seg.first == s.rcv.nxt
    requires InWindow(seg.first, s.rcv.nxt, s.rcv.wnd) && InWindow(seg.Last(), s.rcv.nxt, s.rcv.wnd) && s.rcv.wnd > 0
    requires seg.ackno == s.snd.una == s.snd.nxt
    ensures C.Recv(s, seg).1 == C.NoErr && C.Recv(s, seg).0.state.Established?
  {
    hide Wrap, InWindow, LessThan;
  }
}
