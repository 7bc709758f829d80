/**
  One endpoint past the handshake: its transmit queue as the unacknowledged rest of a stream, and the things an
  arriving segment can do to it.
*/
module Endpoint {
  import opened Bytes
  import opened SeqNum
  import opened Segments
  import C = Control
  import R = ControlRuns
  import opened TxQueue
  import opened Reassembling
  import opened RxStream
  import opened HandlerSpec

  /** The transmit queue holds the unacknowledged rest of `S`, in step with the send space. */
  ghost predicate SenderOk(h: HView, S: seq<byte>, base: int, u: int) {
    && Coherent(h.tx)
    && 0 <= u && u + |h.tx.sent| + |h.tx.unsent| == |S|
    && h.tcb.snd.una == Wrap(base + u)
    && h.tcb.snd.nxt == Wrap(base + u + |h.tx.sent|)
    && h.tx.sent + h.tx.unsent == S[u..]
    && (h.tx.spans != [] ==> h.tx.spans[0].first == h.tcb.snd.una)
  }

  /** A policy's rewind hits the start of a queued packet, or SND.NXT itself. */
  predicate PacketStart(h: HView, to: Value) {
    to == h.tcb.snd.nxt || exists i :: 0 <= i < |h.tx.spans| && h.tx.spans[i].first == to
  }

  lemma WriteSender(h: HView, S: seq<byte>, base: int, u: int, b: seq<byte>)
    requires SenderOk(h, S, base, u) && TxWriteError(h.tx, b) == TxOk
    ensures SenderOk(h.(tx := TxWrite(h.tx, b)), S + b, base, u)
  {
    hide Wrap, Chained, Total;
    assert (S + b)[u..] == S[u..] + b;
  }

  lemma WriteFits(h: HView, S: seq<byte>, base: int, u: int, b: seq<byte>)
    requires SenderOk(h, S, base, u) && TxWriteError(h.tx, b) == TxOk
    ensures |S + b| < u + HALF
  {
    hide Wrap, Chained, Total;
  }

  lemma {:induction false} NothingAtZero(held: seq<Held>, free: nat)
    requires forall i :: 0 <= i < |held| ==> held[i].first != 0
    ensures Deliver(held, 0, free).0 == 0
  {
    hide LessThan;
    if held != [] {
      NothingAtZero(held[1..], free);
    }
  }

  lemma NoDelivery(v: RxView)
    requires Deliver(v.held, v.nxt, |v.ahead|).0 == 0
    ensures RxDeliver(v) == v.(held := Deliver(v.held, v.nxt, |v.ahead|).1) && Due(v) == 0
  {
    hide Deliver;
    assert v.contents + v.ahead[..0] == v.contents && v.ahead[0..] == v.ahead;
  }

  /** The sender's part depends on the send space and the transmit queue only. */
  lemma SenderFrame(h: HView, h': HView, S: seq<byte>, base: int, u: int)
    requires SenderOk(h, S, base, u) && h'.tx == h.tx
    requires h'.tcb.snd.una == h.tcb.snd.una && h'.tcb.snd.nxt == h.tcb.snd.nxt
    ensures SenderOk(h', S, base, u)
  {
  }

  ghost predicate StoredCase(h: HView, seg: Segment, payload: seq<byte>, h': HView)
    requires |payload| < MOD
  {
    OutOfOrder(h, seg) && h' == QueueAck(WithRx(h, RxStore(Rx(h), seg.first, payload)))
  }

  ghost predicate AcceptedCase(h: HView, seg: Segment, payload: seq<byte>, h': HView) {
    && C.Recv(h.tcb, seg).1 == C.NoErr && |payload| <= |h.ahead| && Total(h.tx.spans) == |h.tx.sent|
    && h' == Accepted(h.(tcb := C.Recv(h.tcb, seg).0), h.tcb.snd.una, seg, payload, 0, 0)
  }

  ghost predicate RefusedCase(h: HView, seg: Segment, h': HView) {
    C.Recv(h.tcb, seg).1 != C.NoErr && h' == h.(tcb := C.Recv(h.tcb, seg).0)
  }

  /** Two positions less than a turn apart with the same sequence number are the same. */
  lemma SamePosition(base: int, p: int, r: int)
    requires Wrap(base + p) == Wrap(base + r) && -MOD < p - r < MOD
    ensures p == r
  {
    hide Wrap;
    if p <= r {
      SizeofExact(base, p, r);
    } else {
      SizeofExact(base, r, p);
    }
    SizeofSelf(Wrap(base + p));
  }

  lemma SizeofSelf(v: Value)
    ensures Sizeof(v, v) == 0
  {
  }

  /** A staged segment is the part of the stream its position says, and stays in lockstep. */
  lemma StoredIn(h: HView, seg: Segment, payload: seq<byte>, h': HView, S: seq<byte>, base: int, r: nat, p: nat)
    requires |payload| < MOD && StoredCase(h, seg, payload, h') && Lockstep(Rx(h), S, base, r)
             && h.tcb.rcv.wnd <= MAX_WINDOW
    requires seg.first == Wrap(base + p) && p + |payload| <= |S| && payload == S[p..p + |payload|]
    requires r - p <= MOD - MAX_WINDOW && p - r < MOD
    ensures Lockstep(Rx(h'), S, base, r) && h'.contents == h.contents
  {
    hide Wrap, Place, InWindow, AllInStep, Sorted, Sizeof, Segment.Last, RxStore;
    assert Lockstep(Rx(h), S, base, r);
    WindowExact(base, p, r, h.tcb.rcv.wnd);
    SizeofExact(base, r, p);
    assert base + r == base + r;
    StoreKeeps(Rx(h), S, base, r, seg.first, payload);
  }

  /** What staging leaves of the rest. */
  lemma StoredFrame(h: HView, seg: Segment, payload: seq<byte>, h': HView)
    requires |payload| < MOD && StoredCase(h, seg, payload, h')
    ensures h'.tx == h.tx && h'.tcb == h.tcb.(pending := h.tcb.pending.(ack := true))
    ensures h'.closing == h.closing && h'.requeue == h.requeue && h'.shutdownRx == h.shutdownRx
    ensures |h'.contents| + |h'.ahead| == |h.contents| + |h.ahead|
  {
    hide Wrap, InWindow, Rank, Segment.Last;
  }

  /** What an accepted payload leaves of the rest. */
  lemma TakeFrame(h: HView, payload: seq<byte>)
    requires |payload| <= |h.ahead| && !h.shutdownRx
    ensures var g := TakePayload(h, payload);
            && g.tx == h.tx && g.closing == h.closing && g.requeue == h.requeue && !g.shutdownRx
            && |g.contents| + |g.ahead| == |h.contents| + |h.ahead|
            && g.tcb.snd == h.tcb.snd && g.tcb.state == h.tcb.state
  {
    hide Wrap, Deliver;
  }

  /** The receive side after an accepted segment. */
  lemma AcceptedRx(h: HView, s: C.Tcb, seg: Segment, payload: seq<byte>)
    requires |payload| <= |h.ahead| && !h.shutdownRx && Total(h.tx.spans) == |h.tx.sent| && !seg.flags.syn
    requires s.rcv.nxt == Wrap(h.tcb.rcv.nxt + |payload|)
    ensures var g := Accepted(h.(tcb := s), h.tcb.snd.una, seg, payload, 0, 0);
            Rx(g) == if payload == [] then Rx(h) else RxDeliver(RxWrite(Rx(h), payload))
  {
    hide Wrap, Deliver, TxAck, Total, TakePayload, RxDeliver;
    R.AddZero(h.tcb.rcv.nxt);
    TakenRx(h.(tcb := s), payload);
  }

  lemma TakenRx(v: HView, payload: seq<byte>)
    requires |payload| <= |v.ahead| && !v.shutdownRx
    ensures Rx(TakePayload(v, payload)) ==
            if payload == [] then Rx(v)
            else RxDeliver(Rx(v).(contents := v.contents + payload, ahead := v.ahead[|payload|..]))
  {
    hide Wrap, RxDeliver;
    NoneHeld(Rx(v).(contents := v.contents + payload, ahead := v.ahead[|payload|..]));
  }

  lemma NoneHeld(v: RxView)
    ensures v.held == [] ==> RxDeliver(v) == v
  {
    if v.held == [] {
      NoDelivery(v);
      R.AddZero(v.nxt);
    }
  }

  /** A payload written where the stream is expected continues it, and so does what it uncovers. */
  lemma TakenIn(h: HView, s: C.Tcb, seg: Segment, payload: seq<byte>, S: seq<byte>, base: int, r: nat)
    requires Lockstep(Rx(h), S, base, r) && r + |payload| <= |S| && payload == S[r..r + |payload|]
             && |payload| <= |h.ahead|
    requires !h.shutdownRx && Total(h.tx.spans) == |h.tx.sent| && !seg.flags.syn
             && s.rcv.nxt == Wrap(h.tcb.rcv.nxt + |payload|)
    ensures var h' := Accepted(h.(tcb := s), h.tcb.snd.una, seg, payload, 0, 0);
            var r' := r + |h'.contents| - |h.contents|;
            r <= r' <= |S| && Lockstep(Rx(h'), S, base, r') && h'.contents == h.contents + S[r..r']
  {
    hide Wrap, AllInStep, Sorted, Accepted, Total, RxDeliver;
    assert Lockstep(Rx(h), S, base, r);
    AcceptedRx(h, s, seg, payload);
    if payload != [] {
      InOrderKeeps(Rx(h), S, base, r, payload);
    } else {
      assert S[r..r] == [] && h.contents + [] == h.contents;
    }
  }

  /** The queue's distance to an acknowledgement is the distance of positions. */
  lemma AckDistance(tx: TxView, base: int, u: int, q: int)
    requires tx.spans != [] && tx.spans[0].first == Wrap(base + u) && -HALF < q - u < HALF
    ensures AckOffset(tx, Wrap(base + q)) == q - u
  {
    WrapDiff(base, q, u);
  }

  /** An acknowledgement frees exactly the bytes up to its position, in the queue and in the send space alike. */
  lemma AckedSender(h: HView, h': HView, S: seq<byte>, base: int, u: int, seg: Segment, q: int)
    requires SenderOk(h, S, base, u) && seg.flags.ack && seg.ackno == Wrap(base + q) && -HALF < q - u < HALF
    requires h'.tcb.snd.nxt == h.tcb.snd.nxt
    requires h'.tcb.snd.una == if R.Takes(h.tcb.snd, seg) then seg.ackno else h.tcb.snd.una
    requires h'.tx == if seg.ackno != h.tcb.snd.una then TxAck(h.tx, seg.ackno) else h.tx
    ensures SenderOk(h', S, base, if u < q <= u + |h.tx.sent| then q else u)
    ensures |h'.tx.sent| == (if u < q <= u + |h.tx.sent| then u + |h.tx.sent| - q else |h.tx.sent|)
            && h'.tx.unsent == h.tx.unsent
  {
    hide Wrap, LessThan, Chained, Total, DropSpans, AckOffset, EndSeq;
    var tx := h.tx;
    OrderExact(base, u, q);
    if u < q {
      OrderExact(base, q, u + |tx.sent|);
    }
    if tx.spans != [] {
      AckDistance(tx, base, u, q);
      AckKeeps(tx, seg.ackno);
    } else {
      EmptyTotal();
    }
    if u < q <= u + |tx.sent| {
      assert S[u..][q - u..] == S[q..];
      assert (tx.sent + tx.unsent)[q - u..] == tx.sent[q - u..] + tx.unsent;
    }
  }

  /** An acknowledgement whose position is less than half a turn away is not the half-turn one. */
  lemma NotHalfTurn(s: C.Tcb, seg: Segment, base: int, u: int, q: int)
    requires s.snd.una == Wrap(base + u) && seg.ackno == Wrap(base + q) && -HALF < q - u < HALF
    ensures !R.HalfTurnAck(s, seg)
  {
    WrapDiff(base, q, u);
  }

  lemma ClosedRecv(h: HView, seg: Segment, payload: seq<byte>)
    requires h.tcb.state.Closed? && h.tcb.rcv.wnd == 0 && Total(h.tx.spans) == |h.tx.sent| && seg.datalen == |payload|
    ensures HRecv(h, seg, payload, 0, 0).0 == h
  {
    hide Wrap, InWindow, C.Recv, Total, Place, RxStore, Accepted, C.HasPending, Segment.Last;
    R.RecvRefusal(h.tcb, seg);
    NoWindow(seg.first, h.tcb.rcv.nxt);
  }

  lemma NoWindow(v: Value, first: Value)
    ensures !InWindow(v, first, 0)
  {
    AddThenSizeof(first, 0);
  }

}
