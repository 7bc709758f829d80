/**
  How connections end, in tcp/control.go, tcp/control_rcvhandlers.go and tcp/handler.go: the closing states that
  promise more than the code keeps, each with a run that shows it and the exact condition.
*/
module ConnectionEnds {
  import opened Options
  import opened Bytes
  import opened SeqNum
  import opened Segments
  import opened Control
  import opened ControlRuns
  import opened TxQueue
  import opened HandlerSpec

  /** The segment acknowledges our FIN, which was sent and is in flight. */
  ghost predicate AcksFin(t: Track, seg: Segment) {
    && seg.flags.ack && t.finSent
    && Sizeof(t.s.snd.una, t.finEnd) <= Sizeof(t.s.snd.una, seg.ackno) <= InFlight(t.s.snd)
  }

  /**
    TIME-WAIT means that our FIN was acknowledged exactly if it was before or the segment that enters it does so.
    While SND.NXT is past the FIN, that is always, unless it is entered from CLOSING by sending an ACK or by an
    acknowledgement that does not reach the FIN.
  */
  lemma TimeWaitExactly(t: Track, op: Op)
    requires Inv(t) && Allowed(t, op) && !t.s.state.TimeWait? && Next(t, op).s.state.TimeWait?
    ensures Next(t, op).finAcked <==> t.finAcked || (op.DoRecv? && AcksFin(t, op.seg))
    ensures FinAhead(t) ==>
              (Next(t, op).finAcked <==> (t.s.state.Closing? && !t.finAcked ==> op.DoRecv? && AcksFin(t, op.seg)))
  {
    hide Wrap, Recv, Send, Next, Sizeof, LessThan, Pending, SpaceOk;
    match op {
      case DoSend(_, _, _, _) =>
        hide AndNot;
        if Crowded(t.s, Outgoing(t.s, op)) {
          CrowdedStays(t, op);
        } else {
          NoSelfRejection(t, op);
          ClosedOffersNothing(t, op.payload);
          SentTrack(t, op);
          PendingSent(t.s, op.payload);
        }
      case DoRecv(seg) => TimeWaitByRecv(t, seg);
      case _ => OthersAvoidTimeWait(t, op);
    }
  }

  lemma TimeWaitByRecv(t: Track, seg: Segment)
    requires Inv(t) && Allowed(t, DoRecv(seg)) && !t.s.state.TimeWait? && Next(t, DoRecv(seg)).s.state.TimeWait?
    ensures Next(t, DoRecv(seg)).finAcked <==> t.finAcked || AcksFin(t, seg)
    ensures FinAhead(t) && !t.s.state.Closing? ==> Next(t, DoRecv(seg)).finAcked
  {
    hide Wrap, Handle, Recv, Next, Sizeof, LessThan, LessThanEq, FlagsOk;
    RecvRefusal(t.s, seg);
    if Recv(t.s, seg).1 == NoErr {
      HandleEffect(t.s, seg);
      HandleStates(t.s, seg);
      AcceptEffect(t.s, seg);
      AcceptedTrack(t, seg);
      UnaExact(t.s.snd.una, t.s.snd.nxt, seg.ackno);
      DistinctWhenApart(t.s.snd.una, seg.ackno);
      InFlightOrder(t.s.snd.una, t.s.snd.nxt);
    } else {
      RefusedTrack(t, seg);
    }
  }

  lemma OthersAvoidTimeWait(t: Track, op: Op)
    requires Allowed(t, op) && !op.DoSend? && !op.DoRecv? && !t.s.state.TimeWait?
    ensures !Next(t, op).s.state.TimeWait?
  {
    hide Wrap, LessThan, OutgoingVerdict;
  }

  /**
    Any acceptable ACK ends LAST-ACK; the numbers that acknowledge the FIN are those from its end up to SND.NXT, and
    none if SND.NXT was rewound below it.
  */
  lemma LastAckExactly(t: Track, seg: Segment)
    requires Inv(t) && t.s.state.LastAck? && Recv(t.s, seg).1 == NoErr
    ensures Recv(t.s, seg).0.state.Closed? <==> seg.flags.ack
    ensures t.finSent && !t.finAcked ==>
              (AcksFin(t, seg) <==>
               && seg.flags.ack && Sizeof(t.s.snd.una, t.finEnd) <= InFlight(t.s.snd)
               && Sizeof(t.finEnd, seg.ackno) <= Sizeof(t.finEnd, t.s.snd.nxt))
  {
    hide Wrap, Handle, Recv, Sizeof, LessThan, LessThanEq, FlagsOk, HistoryOk;
    RecvRefusal(t.s, seg);
    HandleStates(t.s, seg);
    AcceptEffect(t.s, seg);
    if t.finSent && !t.finAcked && Sizeof(t.s.snd.una, t.finEnd) <= InFlight(t.s.snd) {
      BetweenExactly(t.s.snd.una, t.finEnd, t.s.snd.nxt, seg.ackno);
    }
  }

  lemma BetweenExactly(a: Value, b: Value, c: Value, x: Value)
    requires Sizeof(a, b) <= Sizeof(a, c)
    ensures Sizeof(a, b) <= Sizeof(a, x) <= Sizeof(a, c) <==> Sizeof(b, x) <= Sizeof(b, c)
  {
    WrapIsMod(b - a);
    WrapIsMod(c - a);
    WrapIsMod(x - a);
    WrapIsMod(x - b);
    WrapIsMod(c - b);
  }

  /** The peer is known to have closed its side. */
  predicate PeerClosed(st: State) {
    st.CloseWait? || st.LastAck? || st.Closing? || st.TimeWait? || st.Closed?
  }

  /** A FIN the control block accepts half-closes the connection exactly when the handshake was over. */
  lemma FinReceivedExactly(t: Track, seg: Segment)
    requires Recv(t.s, seg).1 == NoErr && seg.flags.fin
    ensures PeerClosed(Recv(t.s, seg).0.state) <==> !t.s.state.IsPreestablished()
  {
    hide Wrap, Handle, Recv, Sizeof, LessThan, LessThanEq;
    RecvRefusal(t.s, seg);
    HandleStates(t.s, seg);
    AcceptEffect(t.s, seg);
  }

  /** The handler reaches the panic of the receive switch exactly by an acceptable segment while its last ACK waits. */
  lemma HandlerPanicsExactly(v: HView, seg: Segment, payload: seq<byte>, mss: Size, port: nat)
    requires seg.datalen == |payload| && Total(v.tx.spans) == |v.tx.sent|
    ensures HRecv(v, seg, payload, mss, port).1 == HReject(Panic) <==>
            && v.tcb.state.TimeWait? && HasPending(v.tcb)
            && IncomingVerdict(v.tcb, seg) == NoErr && !seg.flags.rst && !seg.flags.syn
            && (v.shutdownRx || |payload| <= |v.ahead|)
  {
    hide Wrap, LessThan, InWindow, HasPending, Recv;
    RecvPanicsExactly(v.tcb, seg);
    NotItsPredecessor(v.tcb.rcv.nxt);
    hide IncomingVerdict;
    RefusedStays(v.tcb, seg);
  }

  lemma RefusedStays(s: Tcb, seg: Segment)
    ensures IncomingVerdict(s, seg) == NoErr && s.state.TimeWait? && !seg.flags.rst ==> seg.first == s.rcv.nxt
    ensures Recv(s, seg).1 == Panic ==> Recv(s, seg).0 == s
  {
    hide Wrap, LessThan, InWindow, UpdateWindow, UpdateUna, RstIrs;
  }

  lemma NotItsPredecessor(v: Value)
    ensures Wrap(v - 1) != v
  {
  }

  /** A state some run of the control block leads to. */
  ghost predicate Reached(t: Track) {
    exists ts: seq<Track>, ops: seq<Op> :: IsRun(ts, ops) && ts[|ops|] == t
  }

  ghost predicate Leads(t: Track, op: Op, t': Track) {
    Allowed(t, op) && Next(t, op) == t'
  }

  lemma ReachedNext(t: Track, op: Op, t': Track)
    requires Reached(t) && Leads(t, op, t')
    ensures Reached(t')
  {
    hide Next, Allowed;
    var ts: seq<Track>, ops: seq<Op> :| IsRun(ts, ops) && ts[|ops|] == t;
    var ts', ops' := ts + [t'], ops + [op];
    assert IsRun(ts', ops') && ts'[|ops'|] == t';
  }

  lemma InitialReached()
    ensures Reached(INITIAL)
  {
    hide Next, Allowed;
    var ops: seq<Op> := [];
    assert IsRun([INITIAL], ops) && [INITIAL][|ops|] == INITIAL;
  }

  // Runs with initial numbers 100 and 500, a peer window of 10 and no data.

  const SYN_SENT := Track(RESET.(state := SynSent, snd := SendSpace(100, 100, 101, 1, 0, 0, 0),
    rcv := RecvSpace(0, 0, 1000)),
                          false, 0, false, false)
  const IDLE := Track(RESET.(state := Established, snd := SendSpace(100, 101, 101, 10, 0, 500, 101),
    rcv := RecvSpace(500, 501, 1000)),
                      false, 0, false, false)
  const CLOSING_DOWN := IDLE.(s := IDLE.s.(pending := FIN))
  const FIN_SENT := IDLE.(s := IDLE.s.(state := FinWait1, snd := IDLE.s.snd.(nxt := 102)), finSent := true,
    finEnd := 102)
  const FIN_ACKED := FIN_SENT.(s := FIN_SENT.s.(state := FinWait2,
    snd := FIN_SENT.s.snd.(una := 102, wl1 := 501, wl2 := 102)),
                               finAcked := true)
  const BOTH_CLOSED := FIN_ACKED.(s := FIN_ACKED.s.(state := TimeWait, pending := ACK,
    rcv := RecvSpace(500, 502, 1000)),
                                  peerFin := true)

  lemma IdleReached()
    ensures Reached(IDLE)
  {
    hide Reached, Leads;
    InitialReached();
    Connects();
    ReachedNext(INITIAL, DoConnect(100, 1000), SYN_SENT);
    GetsSynAck();
    ReachedNext(SYN_SENT, DoRecv(Segment(500, 101, 0, 10, SYNACK)), IDLE.(s := IDLE.s.(pending := ACK)));
    SendsAck(IDLE.(s := IDLE.s.(pending := ACK)));
    ReachedNext(IDLE.(s := IDLE.s.(pending := ACK)), DoSend(0, 0, false, 1000), IDLE);
  }

  lemma Connects()
    ensures Leads(INITIAL, DoConnect(100, 1000), SYN_SENT)
  {
  }

  lemma GetsSynAck()
    ensures Leads(SYN_SENT, DoRecv(Segment(500, 101, 0, 10, SYNACK)), IDLE.(s := IDLE.s.(pending := ACK)))
  {
  }

  /** A bare ACK goes out when it is what is pending and SND.NXT may be sent from. */
  lemma SendsAck(t: Track)
    requires t.s.pending == ACK && t.s.queued == NONE && t.s.challengeAcks == 0 && t.s.dupack == 0
             && t.s.nRetransmit == 0
    requires (t.s.state.Established? || t.s.state.Closing?) && t.s.snd.wnd > 0 && t.s.rcv.wnd <= MAX_WINDOW
    ensures var s' := t.s.(pending := NONE, state := if t.s.state.Closing? then TimeWait else Established);
            Leads(t, DoSend(0, 0, false, t.s.rcv.wnd), t.(s := s'))
  {
    hide Wrap, LessThan, Pending, OutgoingVerdict;
    AckOffered(t.s);
    NotBeforeItself(t.s.snd.nxt);
    AddZero(t.s.snd.nxt);
    OutgoingLen(Pending(t.s, 0).value);
  }

  lemma AckOffered(s: Tcb)
    requires s.pending == ACK && s.challengeAcks == 0 && s.dupack == 0
    requires (s.state.Established? || s.state.Closing?) && s.snd.wnd > 0 && s.rcv.wnd <= MAX_WINDOW
    ensures var seg := Segment(s.snd.nxt, s.rcv.nxt, 0, s.rcv.wnd, ACK);
            Pending(s, 0) == Some(seg) && OutgoingVerdict(s, seg) == NoErr
  {
    hide Wrap, LessThan, InWindow, InRange;
    FirstInWindow(s.snd.nxt, s.snd.wnd);
    OutgoingLen(Segment(s.snd.nxt, s.rcv.nxt, 0, s.rcv.wnd, ACK));
  }

  lemma FinSentReached()
    ensures Reached(CLOSING_DOWN) && Reached(FIN_SENT)
  {
    hide Reached, Leads;
    IdleReached();
    Closes();
    ReachedNext(IDLE, DoClose, CLOSING_DOWN);
    SendsFin();
    ReachedNext(CLOSING_DOWN, DoSend(0, 0, false, 1000), FIN_SENT);
  }

  lemma Closes()
    ensures Leads(IDLE, DoClose, CLOSING_DOWN)
  {
  }

  lemma SendsFin()
    ensures Leads(CLOSING_DOWN, DoSend(0, 0, false, 1000), FIN_SENT)
  {
    hide LessThan, InWindow, InRange;
    var s, seg := CLOSING_DOWN.s, Segment(101, 501, 0, 1000, FINACK);
    assert Pending(s, 0) == Some(seg);
    FirstInWindow(101, 10);
    LastInWindow(seg, 10);
    assert OutgoingVerdict(s, seg) == NoErr;
    NotBeforeItself(101);
  }

  /** A run into TIME-WAIT with the last ACK pending, and a bare ACK in sequence that panics there. */
  lemma PanicReached()
    ensures Reached(BOTH_CLOSED) && Recv(BOTH_CLOSED.s, Segment(502, 102, 0, 10, ACK)).1 == Panic
  {
    hide Reached, Leads, Recv;
    FinSentReached();
    GetsAck();
    ReachedNext(FIN_SENT, DoRecv(Segment(501, 102, 0, 10, ACK)), FIN_ACKED);
    GetsFin();
    ReachedNext(FIN_ACKED, DoRecv(Segment(501, 102, 0, 10, FINACK)), BOTH_CLOSED);
    RecvPanicsExactly(BOTH_CLOSED.s, Segment(502, 102, 0, 10, ACK));
    FirstInWindow(502, 1000);
  }

  /** There a handler panics too, whatever its buffers hold. */
  lemma HandlerPanics(v: HView)
    requires v.tcb == BOTH_CLOSED.s && Total(v.tx.spans) == |v.tx.sent|
    ensures HRecv(v, Segment(502, 102, 0, 10, ACK), [], 0, 0).1 == HReject(Panic)
  {
    hide Reached, HRecv, Total, Recv;
    PanicReached();
    RecvPanicsExactly(v.tcb, Segment(502, 102, 0, 10, ACK));
    HandlerPanicsExactly(v, Segment(502, 102, 0, 10, ACK), [], 0, 0);
  }

  lemma Acceptable(s: Tcb, seg: Segment)
    requires !s.state.Closed? && seg.first == s.rcv.nxt && seg.datalen == 0 && !seg.flags.syn && seg.wnd <= MAX_WINDOW
             && 0 < s.rcv.wnd
    ensures IncomingVerdict(s, seg) == NoErr
  {
    hide Wrap, InWindow, InRange;
    OutgoingLen(seg);
    FirstInWindow(seg.first, s.rcv.wnd);
    if seg.Len() > 0 {
      LastInWindow(seg, s.rcv.wnd);
    }
  }

  lemma GetsAck()
    ensures Leads(FIN_SENT, DoRecv(Segment(501, 102, 0, 10, ACK)), FIN_ACKED)
  {
    hide InWindow, InRange, IncomingVerdict;
    Acceptable(FIN_SENT.s, Segment(501, 102, 0, 10, ACK));
    assert LessThan(101, 102) && LessThan(500, 501) && Sizeof(101, 102) == 1;
  }

  lemma GetsFin()
    ensures Leads(FIN_ACKED, DoRecv(Segment(501, 102, 0, 10, FINACK)), BOTH_CLOSED)
  {
    hide InWindow, InRange, IncomingVerdict;
    Acceptable(FIN_ACKED.s, Segment(501, 102, 0, 10, FINACK));
  }

  /** A FIN with as much data as the window holds: offered and refused. */
  lemma FinWithDataRefused()
    ensures Reached(CLOSING_DOWN)
    ensures Pending(CLOSING_DOWN.s, 10) == Some(Segment(101, 501, 10, 1000, FINACK))
    ensures Send(CLOSING_DOWN.s, Segment(101, 501, 10, 1000, FINACK)).1 != NoErr
  {
    hide Reached, Send, Leads, InFlight;
    FinSentReached();
    FreshInFlight(CLOSING_DOWN.s.snd);
    WithDataOffered();
    ClosingDownHolds();
    FinWithDataExactly(CLOSING_DOWN, 10, 10);
  }

  lemma WithDataOffered()
    ensures Pending(CLOSING_DOWN.s, 10) == Some(Segment(101, 501, 10, 1000, FINACK))
  {
  }

  lemma ClosingDownHolds()
    ensures Inv(CLOSING_DOWN)
  {
    hide Wrap;
    FreshInFlight(CLOSING_DOWN.s.snd);
  }

  /** A rewind below the FIN, then the acknowledgement of what lies below it: FIN-WAIT-2 with the FIN unacknowledged. */
  lemma FinWait2Unacked()
    ensures var rewound := Next(FIN_SENT, DoRewind(101));
            var t := Next(rewound, DoRecv(Segment(501, 101, 0, 10, ACK)));
            Reached(t) && t.s.state.FinWait2? && t.finSent && !t.finAcked
  {
    hide Reached, InWindow, InRange, IncomingVerdict;
    FinSentReached();
    RewindsBelowFin();
    var rewound := Next(FIN_SENT, DoRewind(101));
    ReachedNext(FIN_SENT, DoRewind(101), rewound);
    ReachedNext(rewound, DoRecv(Segment(501, 101, 0, 10, ACK)), Next(rewound, DoRecv(Segment(501, 101, 0, 10, ACK))));
    Acceptable(Next(FIN_SENT, DoRewind(101)).s, Segment(501, 101, 0, 10, ACK));
  }

  lemma RewindsBelowFin()
    ensures RewindsFin(FIN_SENT, DoRewind(101))
    ensures Next(FIN_SENT, DoRewind(101)) == FIN_SENT.(s := FIN_SENT.s.(snd := FIN_SENT.s.snd.(nxt := 101)))
  {
  }

  const CROSSED := FIN_SENT.(s := FIN_SENT.s.(state := Closing, pending := ACK, rcv := RecvSpace(500, 502, 1000),
                                              snd := FIN_SENT.s.snd.(wl1 := 501)), peerFin := true)

  /** Crossing FINs: sending the ACK of the peer's enters TIME-WAIT with our own unacknowledged. */
  lemma TimeWaitUnacked()
    ensures var t := CROSSED.(s := CROSSED.s.(state := TimeWait, pending := NONE));
            Reached(t) && t.finSent && !t.finAcked
  {
    hide Reached, Leads;
    FinSentReached();
    FinsCross();
    ReachedNext(FIN_SENT, DoRecv(Segment(501, 101, 0, 10, FINACK)), CROSSED);
    SendsAck(CROSSED);
    ReachedNext(CROSSED, DoSend(0, 0, false, 1000), CROSSED.(s := CROSSED.s.(state := TimeWait, pending := NONE)));
  }

  lemma FinsCross()
    ensures Leads(FIN_SENT, DoRecv(Segment(501, 101, 0, 10, FINACK)), CROSSED)
  {
    hide InWindow, InRange, IncomingVerdict;
    Acceptable(FIN_SENT.s, Segment(501, 101, 0, 10, FINACK));
  }

  const HALF_CLOSED := IDLE.(s := IDLE.s.(state := CloseWait, pending := ACK, rcv := RecvSpace(500, 502, 1000),
                                          snd := IDLE.s.snd.(wl1 := 501)), peerFin := true)
  const LEAVING := HALF_CLOSED.(s := HALF_CLOSED.s.(state := LastAck, pending := FINACK))

  /** LAST-ACK before the FIN went out: an ACK of nothing new ends the connection. */
  lemma LastAckUnsent()
    ensures Reached(LEAVING) && !LEAVING.finSent
    ensures Recv(LEAVING.s, Segment(502, 101, 0, 10, ACK)).1 == NoErr
            && Recv(LEAVING.s, Segment(502, 101, 0, 10, ACK)).0.state.Closed?
  {
    hide Reached, Leads, Recv;
    EndsEarly();
    IdleReached();
    PeerLeaves();
    ReachedNext(IDLE, DoRecv(Segment(501, 101, 0, 10, FINACK)), HALF_CLOSED);
    ReachedNext(HALF_CLOSED, DoClose, LEAVING);
  }

  lemma PeerLeaves()
    ensures Leads(IDLE, DoRecv(Segment(501, 101, 0, 10, FINACK)), HALF_CLOSED)
    ensures Leads(HALF_CLOSED, DoClose, LEAVING)
  {
    hide InWindow, InRange, IncomingVerdict;
    Acceptable(IDLE.s, Segment(501, 101, 0, 10, FINACK));
  }

  lemma EndsEarly()
    ensures var (s, err) := Recv(LEAVING.s, Segment(502, 101, 0, 10, ACK)); err == NoErr && s.state.Closed?
  {
    hide InWindow, InRange, IncomingVerdict;
    Acceptable(LEAVING.s, Segment(502, 101, 0, 10, ACK));
  }

  const LISTENING := Track(RESET.(state := Listen, snd := FreshSnd(100, 1), rcv := FreshRcv(1000, 0)), false, 0,
    false, false)
  const GREETED := LISTENING.(s := LISTENING.s.(state := SynRcvd, pending := SYNACK,
    snd := SendSpace(100, 100, 100, 10, 0, 500, 0),
                                                rcv := RecvSpace(500, 501, 1000)))
  const ANSWERED := GREETED.(s := GREETED.s.(pending := NONE, snd := GREETED.s.snd.(nxt := 101)))

  /** A FIN with the handshake's last ACK: accepted, and the connection is ESTABLISHED, open for reading. */
  lemma FinInHandshake()
    ensures Reached(ANSWERED) && Recv(ANSWERED.s, Segment(501, 101, 0, 10, FINACK)).1 == NoErr
    ensures var t := Next(ANSWERED, DoRecv(Segment(501, 101, 0, 10, FINACK)));
            t.s.state.Established? && t.peerFin && t.s.rcv.nxt == 502
  {
    hide Reached, Leads, Recv, Next;
    FinTaken();
    InitialReached();
    Listens();
    ReachedNext(INITIAL, DoOpen(100, 1000), LISTENING);
    ReachedNext(LISTENING, DoRecv(Segment(500, 0, 0, 10, SYN)), GREETED);
    Answers();
    ReachedNext(GREETED, DoSend(0, 0, false, 1000), ANSWERED);
  }

  lemma Listens()
    ensures Leads(INITIAL, DoOpen(100, 1000), LISTENING)
    ensures Leads(LISTENING, DoRecv(Segment(500, 0, 0, 10, SYN)), GREETED)
  {
  }

  lemma FinTaken()
    ensures Recv(ANSWERED.s, Segment(501, 101, 0, 10, FINACK)).1 == NoErr
    ensures var t := Next(ANSWERED, DoRecv(Segment(501, 101, 0, 10, FINACK)));
            t.s.state.Established? && t.peerFin && t.s.rcv.nxt == 502
  {
    hide InWindow, InRange, IncomingVerdict;
    Acceptable(ANSWERED.s, Segment(501, 101, 0, 10, FINACK));
  }

  lemma Answers()
    ensures Leads(GREETED, DoSend(0, 0, false, 1000), ANSWERED)
  {
    hide LessThan, InWindow, InRange;
    var s, seg := GREETED.s, Segment(100, 501, 0, 1000, SYNACK);
    assert Pending(s, 0) == Some(seg);
    FirstInWindow(100, 10);
    LastInWindow(seg, 10);
    assert OutgoingVerdict(s, seg) == NoErr;
    NotBeforeItself(100);
  }

  /** A run to an idle connection, where the half-turn acknowledgement is taken and moves SND.UNA past SND.NXT. */
  lemma HalfTurnReached()
    ensures var seg := Segment(501, 101 + HALF, 0, 10, ACK);
            && Reached(IDLE) && HalfTurnAck(IDLE.s, seg) && Recv(IDLE.s, seg).1 == NoErr
            && Recv(IDLE.s, seg).0.snd.una == 101 + HALF && Recv(IDLE.s, seg).0.snd.nxt == 101
  {
    hide Reached, InWindow, InRange, Recv;
    var seg := Segment(501, 101 + HALF, 0, 10, ACK);
    IdleReached();
    assert Wrap(0 - HALF) == HALF && Wrap(HALF - 0) == HALF;
    FirstInWindow(501, 1000);
    OutgoingLen(seg);
    HalfTurnRecv(IDLE.s, seg);
  }
}
