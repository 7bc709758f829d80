/**
  What a connection says next (tcp/control.go, tcp/control_rcvhandlers.go, tcp/handler.go): every byte and FIN taken
  in is acknowledged by the next segment, and a segment is as long as the peer and the caller allow.
*/
module Offers {
  import opened Options
  import opened Bytes
  import opened SeqNum
  import opened Segments
  import opened Control
  import R = ControlRuns
  import opened TxQueue
  import opened Reassembling
  import opened RxStream
  import opened HandlerSpec
  import opened Endpoint
  import opened SendQueue
  import opened StreamEnd
  import opened Writers

  // ---- acknowledgements

  /** Whatever room there is for data, the next segment acknowledges everything before `upTo`. */
  ghost predicate WillAck(s: Tcb, upTo: Value) {
    forall payload: nat :: Acking(Pending(s, payload), upTo)
  }

  predicate Acking(p: Option<Segment>, upTo: Value) {
    p.Some? && p.value.flags.ack && p.value.ackno == upTo
  }

  /** A pending ACK is in the next segment. */
  lemma PendingAcks(s: Tcb)
    requires s.pending.ack
    ensures WillAck(s, s.rcv.nxt)
  {
    forall payload: nat
      ensures Acking(Pending(s, payload), s.rcv.nxt)
    {
      PendingAck(s, payload);
    }
  }

  lemma PendingAck(s: Tcb, payload: nat)
    requires s.pending.ack
    ensures Acking(Pending(s, payload), s.rcv.nxt)
  {
    hide Wrap, LessThan;
  }

  /** The segment has content that takes sequence numbers once the handshake is over. */
  predicate HasContent(seg: Segment) {
    seg.datalen > 0 || seg.flags.fin
  }

  /** Data and FINs that are taken are acknowledged: the next segment has the number after them. */
  lemma ContentAcked(s: Tcb, seg: Segment)
    requires s.state.RxDataOpen() && HasContent(seg) && Recv(s, seg).1 == NoErr
    ensures var s' := Recv(s, seg).0;
            s'.pending.ack && s'.rcv.nxt == Add(seg.first, seg.Len()) && WillAck(s', Add(seg.first, seg.Len()))
  {
    hide Wrap, LessThan, WillAck, Recv, Handle, R.Takes;
    R.AcceptEffect(s, seg);
    R.RecvRefusal(s, seg);
    FirstTaken(s, seg);
    ContentHandled(s, seg);
    PendingAcks(Recv(s, seg).0);
  }

  lemma FirstTaken(s: Tcb, seg: Segment)
    requires s.state.RxDataOpen() && Recv(s, seg).1 == NoErr
    ensures seg.first == s.rcv.nxt
  {
    hide Wrap, LessThan, InWindow, Handle, UpdateWindow, UpdateUna, Segment.Last;
    R.RecvRefusal(s, seg);
  }

  lemma ContentHandled(s: Tcb, seg: Segment)
    requires s.state.RxDataOpen() && HasContent(seg) && Handle(s, seg).2 == NoErr
    ensures Handle(s, seg).1.ack && Handle(s, seg).0.rcv == s.rcv
  {
    hide Wrap;
  }

  /** A segment out of its place is answered with the number expected, or ends a connection that saw too many. */
  lemma StrayAnswered(s: Tcb, seg: Segment)
    requires !s.state.IsPreestablished() && !s.state.Closed? && seg.wnd <= MAX_WINDOW
    requires seg.first != s.rcv.nxt && !seg.flags.rst
    ensures var s' := Recv(s, seg).0;
            Recv(s, seg).1 != NoErr && (s' == RESET || (s'.rcv == s.rcv && WillAck(s', s.rcv.nxt)))
  {
    hide Wrap, LessThan, InWindow, WillAck, Segment.Last, Handle, UpdateWindow, UpdateUna;
    var s' := Recv(s, seg).0;
    if s' != RESET {
      forall payload: nat
        ensures Acking(Pending(s', payload), s.rcv.nxt)
      {
        ChallengeAcks(s', payload);
      }
      assert WillAck(s', s.rcv.nxt) by { AllAcking(s', s.rcv.nxt); }
    }
  }

  /** The segment is no older than the last one that set the send window: by sequence number, then by ACK. */
  predicate Newest(snd: SendSpace, seg: Segment) {
    || (snd.wl1 == 0 && snd.wl2 == 0)
    || LessThan(snd.wl1, seg.first)
    || (snd.wl1 == seg.first && LessThanEq(snd.wl2, seg.ackno))
  }

  lemma WindowRule(s: Tcb, seg: Segment)
    requires !s.state.IsPreestablished() && Recv(s, seg).1 == NoErr && !Recv(s, seg).0.state.Closed?
    ensures var snd := Recv(s, seg).0.snd;
            if Newest(s.snd, seg) then
              && snd.wl1 == seg.first && snd.wl2 == seg.ackno
              && (LessThan(s.snd.una, seg.ackno) ==> snd.wnd == seg.wnd)
              && (!LessThan(s.snd.una, seg.ackno) ==> snd.wnd == if seg.wnd < s.snd.wnd then s.snd.wnd else seg.wnd)
            else snd.wnd == s.snd.wnd && snd.wl1 == s.snd.wl1 && snd.wl2 == s.snd.wl2
  {
    hide Wrap, LessThan, LessThanEq, ValidateIncoming, Handle, AcksOld, AcksUnsent;
    R.RecvRefusal(s, seg);
    R.ValidateEffect(s, seg);
    SndHandled(s, seg);
  }

  /**
    The send window follows the segment that is last in the peer's order, by its place `j` in the peer's stream and
    then by the place `l` it acknowledges in ours, `i` and `k` being those of the segment that set it before. It
    becomes the peer's if data is newly acknowledged, does not close otherwise, and an older segment changes nothing.
  */
  lemma WindowFollows(s: Tcb, seg: Segment, peer: int, i: int, j: int, own: int, u: int, k: int, l: int)
    requires !s.state.IsPreestablished() && Recv(s, seg).1 == NoErr && !Recv(s, seg).0.state.Closed?
    requires s.snd.wl1 == Wrap(peer + i) && seg.first == Wrap(peer + j) && -HALF < i - j < HALF
    requires s.snd.una == Wrap(own + u) && s.snd.wl2 == Wrap(own + k) && seg.ackno == Wrap(own + l)
    requires -HALF < u - l < HALF && -HALF < k - l < HALF && (s.snd.wl1 != 0 || s.snd.wl2 != 0)
    ensures Recv(s, seg).0.snd.wnd ==
            if j < i || (j == i && l < k) then s.snd.wnd
            else if u < l || s.snd.wnd < seg.wnd then seg.wnd
            else s.snd.wnd
  {
    hide Recv, Wrap, LessThan, LessThanEq;
    WindowRule(s, seg);
    OrderExact(peer, i, j);
    OrderExact(own, k, l);
    OrderExact(own, u, l);
  }

  lemma SndHandled(s: Tcb, seg: Segment)
    requires !s.state.IsPreestablished()
    ensures Handle(s, seg).0.state.Closed? || Handle(s, seg).0.snd == s.snd
  {
    hide Wrap;
  }

  /** Two segments out of order: the one with the earlier ACK, arriving second, does not touch the window. */
  lemma LateWindowIgnored(s: Tcb, a: Segment, b: Segment)
    requires !s.state.IsPreestablished() && Newest(s.snd, a) && Recv(s, a).1 == NoErr
    requires var s' := Recv(s, a).0; !s'.state.IsPreestablished() && Recv(s', b).1 == NoErr
    requires !Recv(Recv(s, a).0, b).0.state.Closed?
    requires a.first == b.first && a.first != 0 && Wrap(a.ackno - b.ackno) < HALF && a.ackno != b.ackno
    ensures Recv(Recv(s, a).0, b).0.snd.wnd == Recv(s, a).0.snd.wnd
  {
    hide Recv, Wrap;
    var s' := Recv(s, a).0;
    R.RecvRefusal(s', b);
    WindowRule(s, a);
    WindowRule(s', b);
    R.NotBeforeItself(a.first);
    NotBehind(a.ackno, b.ackno);
  }

  lemma NotBehind(a: Value, b: Value)
    requires Wrap(a - b) < HALF
    ensures !LessThan(a, b)
  {
  }

  lemma AllAcking(s: Tcb, upTo: Value)
    requires forall payload: nat :: Acking(Pending(s, payload), upTo)
    ensures WillAck(s, upTo)
  {
  }

  lemma ChallengeAcks(s: Tcb, payload: nat)
    requires ChallengePending(s)
    ensures Acking(Pending(s, payload), s.rcv.nxt)
  {
    hide Wrap;
  }

  /**
    What the handler takes in it acknowledges: the next segment's number is past every byte made readable by the
    arrival, held ones it uncovered included, and past the FIN. Data staged ahead of a gap is answered with the
    number of the gap.
  */
  lemma ArrivalAcked(h: HView, seg: Segment, payload: seq<byte>)
    requires seg.datalen == |payload| && Total(h.tx.spans) == |h.tx.sent| && !h.shutdownRx
    requires h.tcb.state.RxDataOpen() && HasContent(seg) && HRecv(h, seg, payload, 0, 0).1 == HOk
    ensures var h' := HRecv(h, seg, payload, 0, 0).0;
            var upTo := Wrap(h.tcb.rcv.nxt + (|h'.contents| - |h.contents|) + Bit(seg.flags.fin));
            h.contents <= h'.contents && h'.tcb.rcv.nxt == upTo && WillAck(h'.tcb, upTo)
  {
    hide Wrap, Recv, WillAck, Place, OutOfOrder, InWindow, Total, TxAck, RxDeliver;
    var h' := HRecv(h, seg, payload, 0, 0).0;
    if OutOfOrder(h, seg) && !Place(h.held, h.slots, |h.ahead|, h.tcb.rcv.nxt, seg.first, |payload|).Refused? {
      assert !seg.flags.fin by { assert OutOfOrder(h, seg); StagedHasNoFin(h, seg); }
      StagedContents(h, seg, payload);
      R.AddZero(h.tcb.rcv.nxt);
    } else {
      ContentAcked(h.tcb, seg);
      FirstTaken(h.tcb, seg);
      StateStays(h.tcb, seg);
      TakenNumber(h.(tcb := Recv(h.tcb, seg).0), h.tcb.snd.una, seg, payload);
      NumberAfter(h.tcb.rcv.nxt, seg, |h'.contents| - |h.contents| - |payload|);
    }
    PendingAcks(h'.tcb);
  }

  lemma StagedHasNoFin(h: HView, seg: Segment)
    requires OutOfOrder(h, seg)
    ensures !seg.flags.fin
  {
    hide InWindow;
  }

  lemma StagedContents(h: HView, seg: Segment, payload: seq<byte>)
    requires |payload| < MOD
    ensures var v := RxStore(Rx(h), seg.first, payload); v.contents == h.contents && v.nxt == h.tcb.rcv.nxt
  {
    hide Place, Wrap;
  }

  lemma StateStays(s: Tcb, seg: Segment)
    requires s.state.RxDataOpen() && Recv(s, seg).1 == NoErr
    ensures !Recv(s, seg).0.state.Closed? && !seg.flags.syn
    ensures Recv(s, seg).0.rcv == s.rcv.(nxt := Add(s.rcv.nxt, seg.Len()))
  {
    hide Wrap, Recv, Handle, R.Takes;
    R.AcceptEffect(s, seg);
    R.RecvRefusal(s, seg);
    R.HandleStates(s, seg);
    HandledSpace(s, seg);
  }

  lemma HandledSpace(s: Tcb, seg: Segment)
    requires s.state.RxDataOpen() && Handle(s, seg).2 == NoErr
    ensures Handle(s, seg).0.rcv == s.rcv
  {
    hide Wrap;
  }

  /** Held data that an accepted payload uncovers moves rcv.NXT with it. */
  lemma TakenNumber(v: HView, una: Value, seg: Segment, payload: seq<byte>)
    requires |payload| <= |v.ahead| && !v.shutdownRx && Total(v.tx.spans) == |v.tx.sent|
    requires !seg.flags.syn && v.tcb.pending.ack
    ensures var g := Accepted(v, una, seg, payload, 0, 0);
            && g.tcb.pending.ack && |v.contents| + |payload| <= |g.contents| && g.contents[..|v.contents|] == v.contents
            && g.tcb.rcv.nxt == Wrap(v.tcb.rcv.nxt + (|g.contents| - |v.contents| - |payload|))
  {
    hide Wrap, Deliver, TxAck, Total;
    R.AddZero(v.tcb.rcv.nxt);
  }

  lemma NumberAfter(nxt: Value, seg: Segment, more: nat)
    requires !seg.flags.syn
    ensures Wrap(Add(nxt, seg.Len()) + more) == Wrap(nxt + (seg.datalen + more) + Bit(seg.flags.fin))
  {
    hide Wrap;
    var n := seg.datalen + Bit(seg.flags.fin);
    WrapAdd(n, nxt);
    assert n + nxt == nxt + n;
    assert Wrap(n) + nxt == nxt + Wrap(n);
    WrapAdd(nxt + n, more);
    assert nxt + n + more == nxt + (seg.datalen + more) + Bit(seg.flags.fin);
  }

  // ---- data ahead of its turn

  /** The whole payload at position `p` lies in the receive window, of a reader at position `r`. */
  predicate InRecvWindow(h: HView, r: nat, p: nat, n: nat) {
    r < p && p + n <= r + h.tcb.rcv.wnd
  }

  /**
    Data ahead of its turn is kept if and only if it lies in the window, there is room for it and it overlaps
    nothing kept before; its bytes are then where they belong once the gap is filled.
  */
  lemma AheadExactly(h: HView, seg: Segment, payload: seq<byte>, S: seq<byte>, base: int, r: nat, p: nat)
    requires Lockstep(Rx(h), S, base, r) && BuffersOk(h) && h.tcb.state.RxDataOpen()
    requires 0 < |payload| == seg.datalen && !seg.flags.HasCtl() && seg.first == Wrap(base + p)
    requires r < p && p + |payload| < r + MOD - MAX_WINDOW
    ensures var h', n := HRecv(h, seg, payload, 0, 0).0, |payload|;
            if InRecvWindow(h, r, p, n) && HasRoom(Rx(h), seg.first, n)
               && forall i :: 0 <= i < |h.held| ==> Apart(h.held[i], h.tcb.rcv.nxt, r, p, n)
            then
              && multiset(h'.held) == multiset(h.held) + multiset{Held(seg.first, n)}
              && p - r + n <= |h'.ahead| == |h.ahead| && h'.ahead[p - r..p - r + n] == payload
            else h'.held == h.held && h'.ahead == h.ahead
  {
    hide Wrap, Recv, Place, InWindow, Lockstep, Apart, Segment.Last, Sizeof, Total, HRecv, OutOfOrder;
    LockstepNext(h, S, base, r);
    OutOfTurnFirst(h, seg, base, r, p);
    AheadCases(h, seg, payload);
    WindowByPosition(h, seg, base, r, p);
    PlaceExactly(Rx(h), S, base, r, seg.first, |payload|);
    var place := Place(h.held, h.slots, |h.ahead|, h.tcb.rcv.nxt, seg.first, |payload|);
    if place.Insert? {
      InsertedOnce(h.held, place.i, Held(seg.first, |payload|));
    }
  }

  /** Data ahead of its turn is staged as `RxStore` does, or leaves what is held alone. */
  lemma AheadCases(h: HView, seg: Segment, payload: seq<byte>)
    requires h.tcb.state.RxDataOpen() && BuffersOk(h) && 0 < |payload| == seg.datalen && !seg.flags.HasCtl()
    requires seg.first != h.tcb.rcv.nxt
    ensures var h', v := HRecv(h, seg, payload, 0, 0).0, RxStore(Rx(h), seg.first, payload);
            if h.slots > 0 && InWindow(seg.first, h.tcb.rcv.nxt, h.tcb.rcv.wnd)
               && InWindow(seg.Last(), h.tcb.rcv.nxt, h.tcb.rcv.wnd)
            then h'.held == v.held && h'.ahead == v.ahead
            else h'.held == h.held && h'.ahead == h.ahead
  {
    hide Wrap, Recv, Place, InWindow, Segment.Last, Sizeof, Total, Accepted;
    if Recv(h.tcb, seg).1 == NoErr {
      FirstTaken(h.tcb, seg);
      assert false;
    }
  }

  lemma OutOfTurnFirst(h: HView, seg: Segment, base: int, r: nat, p: nat)
    requires h.tcb.rcv.nxt == Wrap(base + r) && seg.first == Wrap(base + p) && r < p < r + MOD
    ensures seg.first != h.tcb.rcv.nxt && Sizeof(h.tcb.rcv.nxt, seg.first) == p - r
  {
    hide Wrap;
    SizeofExact(base, r, p);
    SizeofSelf(seg.first);
  }

  lemma WindowByPosition(h: HView, seg: Segment, base: int, r: nat, p: nat)
    requires h.tcb.rcv.nxt == Wrap(base + r) && seg.first == Wrap(base + p) && h.tcb.rcv.wnd <= MAX_WINDOW
    requires r < p && 0 < seg.datalen && p + seg.datalen < r + MOD - MAX_WINDOW && !seg.flags.HasCtl()
    ensures InWindow(seg.first, h.tcb.rcv.nxt, h.tcb.rcv.wnd) && InWindow(seg.Last(), h.tcb.rcv.nxt, h.tcb.rcv.wnd) <==>
            InRecvWindow(h, r, p, seg.datalen)
  {
    hide Wrap, InWindow;
    R.OutgoingLen(seg);
    WindowExact(base, p, r, h.tcb.rcv.wnd);
    WrapAdd(base + p, seg.datalen);
    WrapAdd(base + p + seg.datalen, -1);
    assert base + p + seg.datalen - 1 == base + (p + seg.datalen - 1);
    WindowExact(base, p + seg.datalen - 1, r, h.tcb.rcv.wnd);
  }

  lemma InsertedOnce(held: seq<Held>, i: nat, x: Held)
    requires i <= |held|
    ensures multiset(held[..i] + [x] + held[i..]) == multiset(held) + multiset{x}
  {
    assert held == held[..i] + held[i..];
  }

  // ---- lengths

  /** The block answers a stray segment, or repeats the oldest data after duplicate ACKs. */
  predicate OutOfTurn(s: Tcb) {
    ChallengePending(s) || (!s.pending.HasCtl() && HasPendingRetransmit(s))
  }

  /** New data a segment may have: none of the caller's, the peer's window or its segment size is exceeded. */
  predicate DataFits(s: Tcb, payload: nat, n: nat) {
    && n <= payload && (s.snd.mss > 0 ==> n <= s.snd.mss)
    && (n > 0 ==> s.state.TxQueuedDataOpen() && n + InFlight(s.snd) <= s.snd.wnd)
  }

  /**
    An offer in turn is as long as it may be: its length fits and no greater one does. There is one exactly when a
    flag is pending or some data fits. It is numbered SND.NXT unless it is a RST, and has the flags pending.
  */
  lemma OfferExactly(s: Tcb, payload: nat)
    requires !OutOfTurn(s)
    ensures Pending(s, payload).Some? <==> s.pending != NONE || exists n: nat :: n > 0 && DataFits(s, payload, n)
    ensures Pending(s, payload).Some? ==>
              var p := Pending(s, payload).value;
              && DataFits(s, payload, p.datalen) && (forall n: nat :: DataFits(s, payload, n) ==> n <= p.datalen)
              && p.first == (if s.pending.rst then s.rstPtr else s.snd.nxt)
              && p.flags == (if s.state.TxQueuedDataOpen() then s.pending.(ack := true) else s.pending)
  {
    hide Wrap;
    if payload > 0 && s.state.TxQueuedDataOpen() && MaxSend(s.snd) > 0 {
      assert DataFits(s, payload, 1);
    }
  }

  /** One out of turn is a bare ACK, or the oldest unacknowledged data. */
  lemma OutOfTurnExactly(s: Tcb, payload: nat)
    requires OutOfTurn(s)
    ensures var p := Pending(s, payload);
            && p.Some? && p.value.flags == ACK && p.value.ackno == s.rcv.nxt
            && (p.value.first, p.value.datalen) ==
               (if ChallengePending(s) then (s.snd.nxt, 0) else (s.snd.una, Wrap(payload)))
  {
    hide Wrap;
  }

  /** New data goes out: the front of what was unsent, as much of it as fits, past everything sent. */
  ghost predicate SentNew(s: Tcb, tx: TxView, payload: nat, first: Value, data: seq<byte>) {
    && first == s.snd.nxt && !NextIsRetransmit(s, tx) && data <= tx.unsent && DataFits(s, payload, |data|)
    && forall n: nat :: n <= |tx.unsent| && DataFits(s, payload, n) ==> n <= |data|
  }

  /** Data goes out again: at most the packet queued at that number. */
  ghost predicate SentAgain(tx: TxView, first: Value, data: seq<byte>) {
    exists i :: 0 <= i < |tx.spans| && tx.spans[i].first == first && |data| <= tx.spans[i].size
  }

  ghost predicate SentFits(s: Tcb, tx: TxView, payload: nat, r: Sent) {
    r.seg.Some? && r.data != [] ==>
      SentNew(s, tx, payload, r.seg.value.first, r.data) || SentAgain(tx, r.seg.value.first, r.data)
  }

  lemma PendingFits(v: HView, room: nat, S: seq<byte>, base: int, fin: bool)
    requires Writing(v, S, base, fin)
    ensures Total(v.tx.spans) == |v.tx.sent| && |v.ahead| < MOD
    ensures SentFits(v.tcb, v.tx, room, SendPending(v, room))
  {
    hide Wrap, QueueOk, BlockOk, Pending, Send, TxSend, RecvWindow, DataFits, SentNew, SentAgain;
    QueueTotals(v, S, base, fin);
    var p := Pending(v.tcb, room);
    if p.Some? && p.value.datalen > 0 {
      FilledFits(v, room, S, base, fin);
    }
  }

  lemma FilledFits(v: HView, room: nat, S: seq<byte>, base: int, fin: bool)
    requires Writing(v, S, base, fin) && Pending(v.tcb, room).Some? && Pending(v.tcb, room).value.datalen > 0
    ensures Total(v.tx.spans) == |v.tx.sent|
    ensures var p := Pending(v.tcb, room).value;
            var (_, data, err) := TxSend(v.tx, p.datalen, p.first);
            err == TxOk && data != [] ==> SentNew(v.tcb, v.tx, room, p.first, data) || SentAgain(v.tx, p.first, data)
  {
    hide Wrap, QueueOk, BlockOk, Pending, LessThan, EndSeq, Send, RecvWindow, SentNew, SentAgain, TxSend;
    QueueTotals(v, S, base, fin);
    OfferQueue(v.tcb, fin, room);
    var p := Pending(v.tcb, room).value;
    QueueAnswers(v.tx, p.datalen, p.first);
    if OutOfTurn(v.tcb) {
      OutOfTurnExactly(v.tcb, room);
      RetransmitSent(v, S, base, fin);
      OldestFirst(v, S, base, fin);
    } else if !NextIsRetransmit(v.tcb, v.tx) {
      OfferExactly(v.tcb, room);
      FrontFits(v.tcb, v.tx, room, p.first, p.datalen);
    } else {
      OfferExactly(v.tcb, room);
    }
  }

  /** The queue hands out a packet it holds at that number, or the front of what is unsent. */
  lemma QueueAnswers(tx: TxView, want: nat, at: Value)
    requires Total(tx.spans) == |tx.sent|
    ensures var (_, data, err) := TxSend(tx, want, at);
            err == TxOk && data != [] ==>
              if tx.spans != [] && LessThan(at, EndSeq(tx.spans)) then SentAgain(tx, at, data)
              else data == tx.unsent[..Min(want, |tx.unsent|)]
  {
    hide Wrap, LessThan, EndSeq;
    var i := StartingAt(tx.spans, at);
    if i < |tx.spans| {
      StartMonotone(tx.spans, i + 1, |tx.spans|);
    }
  }

  lemma FrontFits(s: Tcb, tx: TxView, room: nat, first: Value, n: nat)
    requires first == s.snd.nxt && !NextIsRetransmit(s, tx)
    requires DataFits(s, room, n) && forall k: nat :: DataFits(s, room, k) ==> k <= n
    ensures SentNew(s, tx, room, first, tx.unsent[..Min(n, |tx.unsent|)])
  {
    hide Wrap, InFlight, NextIsRetransmit;
  }

  /** What is unacknowledged starts with the oldest packet. */
  lemma OldestFirst(v: HView, S: seq<byte>, base: int, fin: bool)
    requires QueueOk(v, S, base, fin) && v.tx.sent != []
    ensures v.tx.spans != [] && LessThan(v.tcb.snd.una, EndSeq(v.tx.spans))
  {
    hide Wrap, Chained, Start, LessThan;
    var u := Una(v, S);
    assert v.tx.spans != [] by { if v.tx.spans == [] { EmptyTotal(); } }
    EndOfChain(v.tx.spans);
    WrapAdd(base + u, |v.tx.sent|);
    OrderExact(base + u, 0, |v.tx.sent|);
  }

  /**
    Every send of a writer, rewound or not: new data is the front of what is unsent, as much as the caller, the
    policy, the peer's window and its segment size allow, and data sent again is at most the packet queued there.
  */
  lemma SendFits(h: HView, room: nat, steer: Steer, S: seq<byte>, base: int, fin: bool)
    requires WriterOk(h, S, base, fin) && BuffersOk(h) && Opened(h.tcb.state) && Orderly(h, room, steer)
    ensures var w := HRewind(h, steer.rewind);
            SentFits(w.tcb, w.tx, Min(room, steer.limit), HSend(h, room, steer))
  {
    hide WriterOk, HRewind, SendOrClose, Orderly, HasPending, SentFits, Poised;
    RewoundPoised(h, room, steer, S, base, fin);
    RewindTotals(h, steer.rewind);
    var w := HRewind(h, steer.rewind);
    NothingFits(w.tcb, w.tx, Min(room, steer.limit));
    SendOrCloseFits(w, room, steer.limit, S, base, fin);
  }

  lemma SendOrCloseFits(w: HView, room: nat, limit: Size, S: seq<byte>, base: int, fin: bool)
    requires Poised(w, S, base, fin)
    ensures Total(w.tx.spans) == |w.tx.sent| && |w.contents| + |w.ahead| < MOD
    ensures SentFits(w.tcb, w.tx, Min(room, limit), SendOrClose(w, room, limit))
  {
    hide Poised, SendPending, Close, HasPending, Room, WantsClose, NothingToDo, ClosesNow, SentFits;
    var x := w.(closing := WantsClose(w));
    PoisedFrame(w, x, S, base, fin);
    PoisedFits(x, room, limit, S, base, fin);
    NothingFits(w.tcb, w.tx, Min(room, limit));
    if ClosesNow(w) && Close(w.tcb).1 == NoErr {
      PoisedClose(w, S, base, fin);
      var s := Close(w.tcb).0;
      PoisedFits(w.(tcb := s, closing := false), room, limit, S, base, fin);
      NothingLeft(w, s, Min(room, limit), SendPending(w.(tcb := s, closing := false), Room(s, w.tx, room, limit)));
    }
  }

  /** The room a policy leaves counts for new data. */
  lemma PoisedFits(w: HView, room: nat, limit: Size, S: seq<byte>, base: int, fin: bool)
    requires Poised(w, S, base, fin)
    ensures Total(w.tx.spans) == |w.tx.sent| && |w.contents| + |w.ahead| < MOD && !w.requeue && !w.tcb.state.Closed?
    ensures SentFits(w.tcb, w.tx, Min(room, limit), SendPending(w, Room(w.tcb, w.tx, room, limit)))
  {
    hide QueueOk, BlockOk, SendPending, DataFits, LessThan, EndSeq;
    var k := Room(w.tcb, w.tx, room, limit);
    if Quiet(w.tcb.state) {
      QuietFits(w, k, S, base, fin);
    } else {
      PendingFits(w, k, S, base, fin);
    }
  }

  lemma QuietFits(w: HView, room: nat, S: seq<byte>, base: int, fin: bool)
    requires WriterOk(w, S, base, fin) && Quiet(w.tcb.state) && BuffersOk(w)
    ensures SendPending(w, room).data == []
  {
    hide Wrap, Pending, Send, TxSend, RecvWindow;
    if Pending(w.tcb, room).Some? {
      QuietOffer(w.tcb, room);
    }
  }

  lemma NothingFits(s: Tcb, tx: TxView, payload: nat)
    ensures forall v: HView, err, teardown :: SentFits(s, tx, payload, Sent(v, None, [], err, teardown))
  {
  }

  /** A close finds nothing unsent, so what its segment carries was sent before. */
  lemma NothingLeft(w: HView, s: Tcb, payload: nat, r: Sent)
    requires ClosesNow(w) && SentFits(s, w.tx, payload, r)
    ensures SentFits(w.tcb, w.tx, payload, r)
  {
    hide HasPending, DataFits;
  }

  /**
    What is offered goes out, an ACK, a FIN or data sent again included, if and only if the packet list has room or
    no data may go with it.
  */
  lemma SendsExactly(v: HView, room: nat, S: seq<byte>, base: int, fin: bool)
    requires Writing(v, S, base, fin) && FinFits(v, room)
    ensures Total(v.tx.spans) == |v.tx.sent| && |v.ahead| < MOD
    ensures var p := Pending(v.tcb, room);
            SendPending(v, room).seg.Some? <==> p.Some? && (p.value.datalen == 0 || |v.tx.spans| < v.tx.slots)
  {
    hide Wrap, QueueOk, BlockOk, Pending, Send, TxSend, RecvWindow, WriterOk, Sane, QuietOk, FinFits;
    QueueTotals(v, S, base, fin);
    PendingKept(v, room, S, base, fin);
    var p := Pending(v.tcb, room);
    if p.Some? && p.value.datalen > 0 {
      FullExactly(v.tx, p.value.datalen, p.value.first);
      NoSynAck(v.tcb, room, fin);
    }
  }

  lemma NoSynAck(s: Tcb, room: nat, fin: bool)
    requires BlockOk(s, fin) && s.state.TxQueuedDataOpen() && Pending(s, room).Some?
    ensures Pending(s, room).value.flags != SYNACK
  {
    hide BlockOk, Pending;
    OfferQueue(s, fin, room);
  }
}
