/**
  Whole runs of the control block: every interleaving of opens, sends of what `PendingSegment`
  offers, repeated handshake segments, arrivals of arbitrary segments, closes, aborts and rewinds.
*/
module ControlRuns {
  import opened SeqNum
  import opened Segments
  import opened Control

  /** A control block with the history of its FINs. */
  datatype Track = Track(
    s: Tcb,
    finSent: bool,    // our FIN went out
    finEnd: Value,    // sequence number after it
    finAcked: bool,   // the peer acknowledged it
    peerFin: bool     // the peer's FIN was accepted
  )

  const INITIAL := Track(RESET, false, 0, false, false)

  datatype Op =
    | DoOpen(iss: Value, wnd: Size)
    | DoConnect(iss: Value, wnd: Size)                                   // send of the first SYN
    | DoSend(payload: nat, datalen: Size, push: bool, wnd: Size)         // what PendingSegment offers, with less data
    | DoRequeue(wnd: Size)                                               // the handshake's SYN or SYN-ACK again
    | DoRecv(seg: Segment)
    | DoClose
    | DoRewind(to: Value)
    | DoQueueAck
    | DoQueueRst(at: Value)
    | DoDeliver(n: Size)                                                 // held data became contiguous
    | DoSetWindow(wnd: Size)
    | DoSetMss(mss: Size)
    | DoAbort

  /** The segment a send puts on the wire. */
  function Outgoing(s: Tcb, op: Op): Segment
    requires op.DoSend? && Pending(s, op.payload).Some?
  {
    var seg := Pending(s, op.payload).value;
    seg.(datalen := op.datalen, wnd := op.wnd, flags := if op.push then seg.flags.(psh := true) else seg.flags)
  }

  /** The handshake segment sent again. */
  function Requeued(s: Tcb, wnd: Size): Segment {
    if s.state.SynSent? then Segment(s.snd.iss, 0, 0, wnd, SYN) else Segment(s.snd.una, s.rcv.nxt, 0, wnd, SYNACK)
  }

  /** A FIN with data that leaves no sequence number of the window for the FIN. */
  predicate Crowded(s: Tcb, seg: Segment) {
    seg.flags.fin && 0 < seg.datalen && s.snd.wnd <= seg.datalen
  }

  /** The one acknowledgement number that modular comparison gets wrong. */
  predicate HalfTurnAck(s: Tcb, seg: Segment) {
    seg.flags.ack && s.snd.una == s.snd.nxt && Sizeof(s.snd.una, seg.ackno) == HALF
  }

  /** What the callers of the control block keep to, and no half-turn acknowledgement. */
  ghost predicate Allowed(t: Track, op: Op) {
    match op
    case DoOpen(_, wnd) => true
    case DoConnect(_, _) => t.s.state.Closed?
    case DoSend(payload, datalen, _, wnd) =>
      var p := Pending(t.s, payload);
      p.Some? && datalen <= p.value.datalen && wnd <= MAX_WINDOW
    case DoRequeue(wnd) => (t.s.state.SynSent? || t.s.state.SynRcvd?) && wnd <= MAX_WINDOW
    case DoRecv(seg) => !HalfTurnAck(t.s, seg)
    case DoClose => true
    case DoRewind(_) => true
    case DoQueueAck => !t.s.state.Closed?
    case DoQueueRst(_) => !t.s.state.Closed?
    case DoDeliver(_) => !t.s.state.Closed?
    case DoSetWindow(wnd) => wnd <= MAX_WINDOW
    case DoSetMss(_) => true
    case DoAbort => true
  }

  /** The state machine's move alone. */
  function Move(s: Tcb, op: Op): Tcb
    requires op.DoSend? ==> Pending(s, op.payload).Some?
  {
    match op
    case DoOpen(iss, wnd) => Open(s, iss, wnd).0
    case DoConnect(iss, wnd) => Send(s, Segment(iss, 0, 0, wnd, SYN)).0
    case DoSend(_, _, _, _) => Send(s, Outgoing(s, op)).0
    case DoRequeue(wnd) => Send(s, Requeued(s, wnd)).0
    case DoRecv(seg) => Recv(s, seg).0
    case DoClose => Close(s).0
    case DoRewind(to) => RetransmitFrom(s, to)
    case DoQueueAck => s.(pending := s.pending.(ack := true))
    case DoQueueRst(at) => s.(pending := RST, queued := NONE, rstPtr := at)
    case DoDeliver(n) => s.(rcv := s.rcv.(nxt := Add(s.rcv.nxt, n)), pending := s.pending.(ack := true))
    case DoSetWindow(wnd) => s.(rcv := s.rcv.(wnd := wnd))
    case DoSetMss(mss) => s.(snd := s.snd.(mss := mss))
    case DoAbort => RESET
  }

  /** The move with its bookkeeping; a closed connection starts a new history. */
  function Next(t: Track, op: Op): Track
    requires op.DoSend? ==> Pending(t.s, op.payload).Some?
  {
    var s' := Move(t.s, op);
    if s'.state.Closed? || op.DoConnect? || s'.state.Listen? then Track(s', false, 0, false, false)
    else
      match op
      case DoSend(_, _, _, _) =>
        if Outgoing(t.s, op).flags.fin && Send(t.s, Outgoing(t.s, op)).1 == NoErr
        then Track(s', true, s'.snd.nxt, false, t.peerFin)
        else t.(s := s')
      case DoRecv(seg) =>
        t.(s := s',
           peerFin := t.peerFin || (seg.flags.fin && Recv(t.s, seg).1 == NoErr),
           finAcked := t.finAcked || (t.finSent && s'.snd.una != t.s.snd.una
                                      && Sizeof(t.s.snd.una, s'.snd.una) >= Sizeof(t.s.snd.una, t.finEnd)))
      case _ => t.(s := s')
  }

  /** Send-space part of the invariant: SND.UNA does not pass SND.NXT and little is in flight. */
  ghost predicate SpaceOk(t: Track) {
    && t.s.snd.wnd <= MAX_WINDOW && t.s.rcv.wnd <= MAX_WINDOW
    && (!t.s.state.Closed? ==> InFlight(t.s.snd) <= MAX_WINDOW + Bit(t.finSent))
    && (t.finSent && !t.finAcked ==> 0 < Sizeof(t.s.snd.una, t.finEnd) <= MAX_WINDOW + 1)
    && (t.s.state.Listen? ==> t.s.snd.una == t.s.snd.nxt)
    && (t.s.state.IsPreestablished() ==> t.s.snd.una == t.s.snd.iss)
  }

  /** Pending flags and counters. */
  ghost predicate FlagsOk(t: Track) {
    && t.s.queued == NONE
    && -128 <= t.s.challengeAcks <= 127 && 0 <= t.s.dupack <= 254 && 0 <= t.s.nRetransmit <= 250
    && (t.s.state.Closed? ==> t.s.pending == NONE && t.s.challengeAcks == 0 && t.s.dupack == 0)
    && (t.s.pending.syn ==> t.s.state.SynRcvd? && t.s.snd.una == t.s.snd.nxt && !t.s.pending.fin)
    && !(t.s.pending.rst && t.s.pending.fin)
    && (t.s.pending.fin ==> !t.finSent && (t.s.state.SynRcvd? || t.s.state.TxDataOpen() || t.s.state.LastAck?))
    && (t.s.dupack > 0 ==> t.s.snd.una != t.s.snd.nxt && !t.s.state.IsPreestablished())
  }

  /** What a state says about the FINs exchanged. */
  ghost predicate HistoryOk(t: Track) {
    var st := t.s.state;
    && (st.IsPreestablished() || st.TxDataOpen() || st.Closed? ==> !t.finSent)
    && (st.FinWait1? || st.FinWait2? || st.Closing? || st.TimeWait? ==> t.finSent)
    && (st.CloseWait? || st.LastAck? || st.Closing? || st.TimeWait? ==> t.peerFin)
  }

  ghost predicate Inv(t: Track) {
    SpaceOk(t) && FlagsOk(t) && HistoryOk(t)
  }

  /** SND.NXT is past a FIN not yet acknowledged, and FIN-WAIT-2 means that it was. */
  ghost predicate FinAhead(t: Track) {
    && (t.finSent && !t.finAcked ==> Sizeof(t.s.snd.una, t.finEnd) <= InFlight(t.s.snd))
    && (t.s.state.FinWait2? ==> t.finAcked)
  }

  /** When SND.UNA takes an acknowledgement: it lies in flight, or is the half-turn exception. */
  lemma UnaExact(una: Value, nxt: Value, ackno: Value)
    requires Sizeof(una, nxt) < HALF
    ensures LessThan(una, ackno) && LessThanEq(ackno, nxt) <==>
            0 < Sizeof(una, ackno) <= Sizeof(una, nxt) || (una == nxt && Sizeof(una, ackno) == HALF)
  {
    WrapIsMod(nxt - una);
    WrapIsMod(ackno - una);
    WrapIsMod(una - ackno);
    WrapIsMod(ackno - nxt);
  }

  /** A rewind the control block accepts lies between SND.UNA and SND.NXT. */
  lemma RewindExact(una: Value, nxt: Value, to: Value)
    requires Sizeof(una, nxt) < HALF
    ensures !LessThan(to, una) && !LessThan(nxt, to) <==> Sizeof(una, to) <= Sizeof(una, nxt)
  {
    WrapIsMod(nxt - una);
    WrapIsMod(to - una);
    WrapIsMod(nxt - to);
  }

  /** Consequences of being in flight for the modular tests. */
  lemma InFlightOrder(una: Value, nxt: Value)
    requires Sizeof(una, nxt) < HALF
    ensures una == nxt <==> Sizeof(una, nxt) == 0
    ensures una != nxt ==> LessThan(una, nxt) && InRange(una, una, nxt)
    ensures !LessThan(nxt, nxt)
  {
    WrapIsMod(nxt - una);
    WrapIsMod(una - nxt);
  }

  lemma Advance(una: Value, nxt: Value, n: Size)
    requires Sizeof(una, nxt) + n < MOD
    ensures Sizeof(una, Add(nxt, n)) == Sizeof(una, nxt) + n
  {
    WrapIsMod(nxt - una);
    WrapIsMod(nxt + n);
    WrapIsMod(Add(nxt, n) - una);
  }

  lemma Retreat(una: Value, nxt: Value, una': Value)
    requires Sizeof(una, una') <= Sizeof(una, nxt)
    ensures Sizeof(una', nxt) == Sizeof(una, nxt) - Sizeof(una, una')
  {
    WrapIsMod(nxt - una);
    WrapIsMod(una' - una);
    WrapIsMod(nxt - una');
  }

  /** What a send of pending data moves SND.NXT by, and from where. */
  lemma OfferedSegment(s: Tcb, payload: nat)
    requires Pending(s, payload).Some?
    ensures var seg := Pending(s, payload).value;
            && (seg.flags.ack ==> seg.ackno == s.rcv.nxt) && seg.wnd == s.rcv.wnd
            && (seg.flags.fin ==> s.pending.fin) && (seg.flags.syn ==> s.pending.syn)
               && (seg.flags.rst ==> s.pending.rst)
            && (seg.datalen > 0 ==> s.state.TxQueuedDataOpen())
            && (seg.flags.rst || seg.first == s.snd.nxt
                || (HasPendingRetransmit(s) && seg.first == s.snd.una && seg.flags == ACK))
            && ((HasPendingRetransmit(s) && seg.first == s.snd.una && seg.flags == ACK)
               || seg.datalen <= MaxSend(s.snd))
  {
    hide Wrap;
  }

  /** Last octet of a segment of `n > 0` sequence numbers at `first`, relative to `first`. */
  lemma LastInWindow(seg: Segment, wnd: Size)
    requires 0 < seg.Len() <= wnd
    ensures InWindow(seg.Last(), seg.first, wnd)
  {
    LastWithinExactly(seg, wnd);
  }

  lemma FirstInWindow(first: Value, wnd: Size)
    ensures InWindow(first, first, wnd) <==> wnd > 0
  {
    AddThenSizeof(first, wnd);
  }

  /**
    No self-rejection: a segment `PendingSegment` offers, also with less data, is accepted by `Send` if and only if
    it is not a FIN behind as much data as the window holds.
  */
  lemma NoSelfRejection(t: Track, op: Op)
    requires Inv(t) && op.DoSend? && Allowed(t, op)
    ensures Send(t.s, Outgoing(t.s, op)).1 == NoErr <==> !Crowded(t.s, Outgoing(t.s, op))
  {
    hide Wrap, InWindow, InRange, LessThan, HistoryOk, Pending;
    var s, seg := t.s, Outgoing(t.s, op);
    OfferedSegment(s, op.payload);
    ClosedOffersNothing(t, op.payload);
    FirstInWindow(s.snd.nxt, s.snd.wnd);
    InFlightOrder(s.snd.una, s.snd.nxt);
    NotInRangeOfItself(s.snd.una, s.snd.nxt);
    OutgoingLen(seg);
    if seg.Len() > 0 {
      LastWithinExactly(seg, s.snd.wnd);
    }
  }

  lemma OutgoingLen(seg: Segment)
    requires seg.datalen <= MAX_WINDOW || !seg.flags.HasCtl()
    ensures seg.Len() == seg.datalen + Bit(seg.flags.fin) + Bit(seg.flags.syn)
    ensures seg.Len() == 0 ==> seg.Last() == seg.first
  {
  }

  lemma ClosedOffersNothing(t: Track, payload: nat)
    requires Inv(t)
    ensures t.s.state.Closed? ==> Pending(t.s, payload).None?
  {
  }

  /** A send leaves at most a window and a FIN in flight. */
  lemma SentInFlight(t: Track, op: Op)
    requires Inv(t) && op.DoSend? && Allowed(t, op)
    ensures var seg := Outgoing(t.s, op);
            var snd' := NextSnd(t.s.snd, seg);
            && InFlight(t.s.snd) <= InFlight(snd') <= MAX_WINDOW + Bit(t.finSent || seg.flags.fin)
            && (seg.flags.fin ==> InFlight(snd') > 0)
            && (t.s.state.Listen? ==> snd'.nxt == t.s.snd.nxt)
            && (seg.flags.fin ==> t.s.pending.fin)
  {
    hide Wrap, LessThan, Pending, HistoryOk, Sizeof;
    var s, seg := t.s, Outgoing(t.s, op);
    OfferedSegment(s, op.payload);
    ClosedOffersNothing(t, op.payload);
    OutgoingLen(seg);
    InFlightOrder(s.snd.una, s.snd.nxt);
    AddZero(s.snd.nxt);
    if !LessThan(seg.first, s.snd.nxt) {
      Advance(s.snd.una, s.snd.nxt, seg.Len());
    }
  }

  /** The fields of the track after a send, given that it is accepted. */
  lemma SentTrack(t: Track, op: Op)
    requires op.DoSend? && Pending(t.s, op.payload).Some? && !t.s.state.Closed?
    requires Send(t.s, Outgoing(t.s, op)).1 == NoErr
    ensures var seg, t' := Outgoing(t.s, op), Next(t, op);
            && t'.s.snd == NextSnd(t.s.snd, seg)
            && t'.s.rcv == t.s.rcv.(wnd := op.wnd)
            && t'.s.state == SendTransition(t.s, seg).state
            && t'.s.dupack == t.s.dupack
            && t'.s.nRetransmit == NextRetransmits(t.s.nRetransmit, LessThan(seg.first, t.s.snd.nxt))
            && t'.s.challengeAcks == (if seg.flags.ack then ChallengeSent(t.s.challengeAcks) else t.s.challengeAcks)
            && t'.s.pending == NextPending(t.s.pending, t.s.queued, seg.flags)
            && t'.s.queued == (if AndNot(t.s.pending, seg.flags) == NONE then NONE else t.s.queued)
            && (t.s.state.Listen? ==> t'.finSent == t'.finAcked == t'.peerFin == false)
            && (!t.s.state.Listen? ==>
                  && t'.finSent == (t.finSent || seg.flags.fin) && t'.peerFin == t.peerFin
                  && t'.finEnd == (if seg.flags.fin then t'.s.snd.nxt else t.finEnd)
                  && t'.finAcked == (t.finAcked && !seg.flags.fin))
  {
    hide Wrap, LessThan, Pending, Send, NextSnd, Sizeof, NextPending, NextRetransmits, ChallengeSent, AndNot;
    SentBlock(t.s, Outgoing(t.s, op));
  }

  /** The control block after an accepted send. */
  lemma SentBlock(s: Tcb, seg: Segment)
    requires !s.state.Closed? && Send(s, seg).1 == NoErr
    ensures var s' := Send(s, seg).0;
            && s'.snd == NextSnd(s.snd, seg) && s'.rcv == s.rcv.(wnd := seg.wnd)
            && s'.state == SendTransition(s, seg).state && s'.dupack == s.dupack
            && s'.nRetransmit == NextRetransmits(s.nRetransmit, LessThan(seg.first, s.snd.nxt))
            && s'.challengeAcks == (if seg.flags.ack then ChallengeSent(s.challengeAcks) else s.challengeAcks)
            && s'.pending == NextPending(s.pending, s.queued, seg.flags)
            && s'.queued == (if AndNot(s.pending, seg.flags) == NONE then NONE else s.queued)
  {
    hide Wrap, LessThan, OutgoingVerdict, NextSnd, NextPending, NextRetransmits, ChallengeSent, AndNot;
  }

  lemma SendSpaceKeeps(t: Track, op: Op)
    requires Inv(t) && op.DoSend? && Allowed(t, op) && !Crowded(t.s, Outgoing(t.s, op))
    ensures SpaceOk(Next(t, op))
  {
    hide Wrap, LessThan, Pending, Next, Send, NextSnd, Sizeof, NextPending, NextRetransmits, ChallengeSent, AndNot;
    NoSelfRejection(t, op);
    ClosedOffersNothing(t, op.payload);
    SentInFlight(t, op);
    SentTrack(t, op);
    SndFields(t.s.snd, Outgoing(t.s, op));
  }

  lemma SndFields(snd: SendSpace, seg: Segment)
    ensures NextSnd(snd, seg).(nxt := snd.nxt) == snd
  {
    hide Wrap, LessThan;
  }

  lemma AddZero(v: Value)
    ensures Add(v, 0) == v
  {
  }

  /** The FINs and SYNs of a sent segment are the pending ones, unless it is a bare challenge ACK or retransmission. */
  lemma PendingSent(s: Tcb, payload: nat)
    requires Pending(s, payload).Some?
    ensures var flags := Pending(s, payload).value.flags;
            && (flags.fin ==> s.pending.fin) && (flags.syn ==> s.pending.syn)
            && (flags == ACK
               || (flags.fin == s.pending.fin && flags.syn == s.pending.syn && flags.rst == s.pending.rst))
  {
    hide Wrap;
  }

  lemma NextPendingFlags(p: Flags, sent: Flags)
    ensures var q := NextPending(p, NONE, sent);
            && (q.fin <==> p.fin && !sent.fin) && (q.syn <==> p.syn && !sent.syn) && (q.rst <==> p.rst && !sent.rst)
    ensures p == NONE ==> NextPending(p, NONE, sent) == NONE
  {
  }

  lemma SendFlagsKeeps(t: Track, op: Op)
    requires Inv(t) && op.DoSend? && Allowed(t, op) && !Crowded(t.s, Outgoing(t.s, op))
    ensures FlagsOk(Next(t, op))
  {
    hide Wrap, LessThan, Pending, Next, Send, NextPending, AndNot, Sizeof;
    NoSelfRejection(t, op);
    ClosedOffersNothing(t, op.payload);
    SentInFlight(t, op);
    SentTrack(t, op);
    SndFields(t.s.snd, Outgoing(t.s, op));
    PendingSent(t.s, op.payload);
    NextPendingFlags(t.s.pending, Outgoing(t.s, op).flags);
    InFlightOrder(t.s.snd.una, t.s.snd.nxt);
    InFlightOrder(t.s.snd.una, NextSnd(t.s.snd, Outgoing(t.s, op)).nxt);
    AckKeepsNxt(t, op);
  }

  /** A bare ACK does not move SND.NXT. */
  lemma AckKeepsNxt(t: Track, op: Op)
    requires op.DoSend? && Allowed(t, op)
    ensures t.s.state.SynRcvd? && !Outgoing(t.s, op).flags.fin && !Outgoing(t.s, op).flags.syn ==>
            NextSnd(t.s.snd, Outgoing(t.s, op)).nxt == t.s.snd.nxt
  {
  }

  lemma SendHistoryKeeps(t: Track, op: Op)
    requires Inv(t) && op.DoSend? && Allowed(t, op) && !Crowded(t.s, Outgoing(t.s, op))
    ensures HistoryOk(Next(t, op))
  {
    hide Wrap, LessThan, Pending, Next, Send, NextSnd, Sizeof, NextPending, NextRetransmits, ChallengeSent, AndNot,
         SpaceOk;
    NoSelfRejection(t, op);
    ClosedOffersNothing(t, op.payload);
    SentTrack(t, op);
    PendingSent(t.s, op.payload);
  }

  lemma SendKeeps(t: Track, op: Op)
    requires Inv(t) && op.DoSend? && Allowed(t, op)
    ensures Inv(Next(t, op))
  {
    hide Next, SpaceOk, FlagsOk, HistoryOk, Crowded, Pending;
    if Crowded(t.s, Outgoing(t.s, op)) {
      CrowdedStays(t, op);
    } else {
      SendSpaceKeeps(t, op);
      SendFlagsKeeps(t, op);
      SendHistoryKeeps(t, op);
    }
  }

  /** The refused FIN stays pending. */
  lemma CrowdedStays(t: Track, op: Op)
    requires Inv(t) && op.DoSend? && Allowed(t, op) && Crowded(t.s, Outgoing(t.s, op))
    ensures Next(t, op) == t
  {
    hide Pending, Send, SpaceOk;
    NoSelfRejection(t, op);
    SendRefused(t.s, Outgoing(t.s, op));
    ClosedOffersNothing(t, op.payload);
    PendingSent(t.s, op.payload);
  }

  /** The handshake segment sent again is accepted, and moves SND.NXT only if it had not been sent. */
  lemma RequeueAccepted(t: Track, wnd: Size)
    requires Inv(t) && Allowed(t, DoRequeue(wnd))
    ensures var s, seg := t.s, Requeued(t.s, wnd);
            && Send(s, seg).1 == NoErr && seg.first == s.snd.una && seg.Len() == 1
            && LessThan(seg.first, s.snd.nxt) == (s.snd.una != s.snd.nxt)
  {
    hide Wrap, InWindow, InRange, LessThan, FlagsOk, HistoryOk;
    var s, seg := t.s, Requeued(t.s, wnd);
    FirstInWindow(s.snd.nxt, s.snd.wnd);
    InFlightOrder(s.snd.una, s.snd.nxt);
    OutgoingLen(seg);
    if s.snd.una == s.snd.nxt && s.snd.wnd > 0 {
      LastInWindow(seg, s.snd.wnd);
    }
  }

  lemma RequeuedTrack(t: Track, wnd: Size)
    requires Inv(t) && Allowed(t, DoRequeue(wnd))
    ensures var t', seg := Next(t, DoRequeue(wnd)), Requeued(t.s, wnd);
            && t' == t.(s := t'.s) && t'.s.state == t.s.state && t'.s.rcv == t.s.rcv.(wnd := wnd)
            && t'.s.snd == t.s.snd.(nxt := if t.s.snd.una == t.s.snd.nxt then Add(t.s.snd.una, 1) else t.s.snd.nxt)
            && t'.s.pending == NextPending(t.s.pending, NONE, seg.flags) && t'.s.queued == NONE
            && t'.s.challengeAcks == (if seg.flags.ack then ChallengeSent(t.s.challengeAcks) else t.s.challengeAcks)
            && t'.s.dupack == t.s.dupack && t.s.nRetransmit <= t'.s.nRetransmit <= 250
  {
    hide Wrap, LessThan, Send, NextPending, ChallengeSent, AndNot;
    RequeueAccepted(t, wnd);
    SentBlock(t.s, Requeued(t.s, wnd));
  }

  lemma RequeueKeeps(t: Track, wnd: Size)
    requires Inv(t) && Allowed(t, DoRequeue(wnd))
    ensures Inv(Next(t, DoRequeue(wnd)))
  {
    hide Wrap, Next, NextPending, Sizeof;
    RequeuedTrack(t, wnd);
    NextPendingFlags(t.s.pending, Requeued(t.s, wnd).flags);
    FreshInFlight(t.s.snd);
    if t.s.snd.una == t.s.snd.nxt {
      Advance(t.s.snd.una, t.s.snd.nxt, 1);
    }
  }

  /** The states a refused segment can leave. */
  ghost predicate Refusal(s: Tcb, v: Tcb) {
    || v == RESET || v == s || v == ChallengeEmit(s)
    || v == ChallengeEmit(s).(pending := s.pending.(ack := true)) || v == s.(pending := s.pending.(ack := true))
    || (s.state.IsPreestablished() && v == s.(pending := RST, rstPtr := v.rstPtr, snd := FreshSnd(s.snd.iss, v.snd.wnd))
        && v.snd.wnd <= MAX_WINDOW)
    || (s.state.SynRcvd?
        && v == s.(pending := NONE, state := Listen, snd := FreshSnd(v.snd.iss, s.snd.wnd),
           rcv := FreshRcv(s.rcv.wnd, v.rcv.irs)))
  }

  lemma ValidateEffect(s: Tcb, seg: Segment)
    ensures var (v, err) := ValidateIncoming(s, seg);
            if err == NoErr then
              && v == s && seg.wnd <= MAX_WINDOW && !s.state.Closed? && !seg.flags.rst
              && (s.state.IsPreestablished() ==> !AcksOld(s, seg) && !AcksUnsent(s, seg))
            else Refusal(s, v) && (s.state.Closed? ==> v == s)
  {
    hide Wrap, LessThan, RstIrs, InWindow;
  }

  lemma HandleErrors(s: Tcb, seg: Segment)
    ensures Handle(s, seg).2 != NoErr ==> Handle(s, seg).0 == s
  {
    hide Wrap;
  }

  lemma RecvRefusal(s: Tcb, seg: Segment)
    ensures Recv(s, seg).1 != NoErr ==> Refusal(s, Recv(s, seg).0) && (s.state.Closed? ==> Recv(s, seg).0 == s)
    ensures Recv(s, seg).1 == NoErr ==>
              && seg.wnd <= MAX_WINDOW && !s.state.Closed? && !s.state.TimeWait? && !seg.flags.rst
              && (s.state.IsPreestablished() ==> !AcksOld(s, seg) && !AcksUnsent(s, seg))
              && (!s.state.IsPreestablished() ==> !seg.flags.syn)
              && Handle(s, seg).2 == NoErr
  {
    hide Wrap, ValidateIncoming, Handle, UpdateWindow, UpdateUna, AcksOld, AcksUnsent;
    ValidateEffect(s, seg);
    HandleErrors(s, seg);
    HandlePanics(s, seg);
  }

  lemma HandlePanics(s: Tcb, seg: Segment)
    ensures Handle(s, seg).2 == Panic <==> s.state.Closed? || s.state.TimeWait?
  {
    hide Wrap;
  }

  /** The track after a segment is refused and the block is left in `v`. */
  ghost function Refused(t: Track, v: Tcb): Track {
    if v.state.Closed? || v.state.Listen? then Track(v, false, 0, false, false) else t.(s := v)
  }

  lemma RefusedTrack(t: Track, seg: Segment)
    requires Inv(t) && Recv(t.s, seg).1 != NoErr
    ensures Next(t, DoRecv(seg)) == Refused(t, Recv(t.s, seg).0)
  {
    hide Recv, Wrap, LessThan, SpaceOk, FlagsOk;
    RecvRefusal(t.s, seg);
  }

  lemma RefusedSpace(t: Track, v: Tcb)
    requires Inv(t) && Refusal(t.s, v) && (t.s.state.Closed? ==> v == t.s)
    ensures SpaceOk(Refused(t, v))
  {
    hide Wrap, FlagsOk;
    FreshInFlight(v.snd);
  }

  lemma RefusedFlags(t: Track, v: Tcb)
    requires Inv(t) && Refusal(t.s, v) && (t.s.state.Closed? ==> v == t.s)
    ensures FlagsOk(Refused(t, v))
  {
    hide SpaceOk;
  }

  lemma RefusedHistory(t: Track, v: Tcb)
    requires Inv(t) && Refusal(t.s, v)
    ensures HistoryOk(Refused(t, v))
  {
    hide SpaceOk, FlagsOk;
  }

  /** A refused segment keeps the invariant. */
  lemma RefusalKeeps(t: Track, seg: Segment)
    requires Inv(t) && Recv(t.s, seg).1 != NoErr
    ensures Inv(Next(t, DoRecv(seg)))
  {
    hide Recv, Next, SpaceOk, FlagsOk, HistoryOk, Refusal, Refused;
    var v := Recv(t.s, seg).0;
    RecvRefusal(t.s, seg);
    RefusedTrack(t, seg);
    RefusedSpace(t, v);
    RefusedFlags(t, v);
    RefusedHistory(t, v);
  }

  lemma FreshInFlight(snd: SendSpace)
    ensures snd.una == snd.nxt ==> InFlight(snd) == 0
  {
  }

  /** The acknowledgement moves SND.UNA. */
  predicate Takes(snd: SendSpace, seg: Segment) {
    seg.flags.ack && LessThan(snd.una, seg.ackno) && LessThanEq(seg.ackno, snd.nxt)
  }

  /** The fields after an accepted segment, relative to the state its handler left. */
  lemma AcceptEffect(s: Tcb, seg: Segment)
    requires Recv(s, seg).1 == NoErr
    ensures var (h, flags, _) := Handle(s, seg);
            var s' := Recv(s, seg).0;
            && s'.state == h.state && s'.pending == Or(h.pending, flags) && s'.queued == h.queued
               && s'.challengeAcks == 0
            && s'.rcv == h.rcv.(nxt := Add(h.rcv.nxt, seg.Len()))
            && s'.snd.nxt == h.snd.nxt && s'.snd.iss == h.snd.iss && (s'.snd.wnd == h.snd.wnd || s'.snd.wnd == seg.wnd)
            && s'.snd.una == (if Takes(h.snd, seg) then seg.ackno else h.snd.una)
            && (Takes(h.snd, seg) ==> s'.dupack == 0 && s'.nRetransmit == 0)
            && (!Takes(h.snd, seg) ==> s'.nRetransmit == h.nRetransmit)
            && (!Takes(h.snd, seg) ==>
                  || s'.dupack == h.dupack
                  || (s'.dupack == h.dupack + 1 <= h.nRetransmit + 4 && IsDupAck(h, seg.ackno) && h.state.TxDataOpen()))
  {
    hide Wrap, LessThan, Handle, Refusal;
    RecvRefusal(s, seg);
    ValidateEffect(s, seg);
    NotBeforeItself(seg.ackno);
  }

  lemma NotBeforeItself(v: Value)
    ensures !LessThan(v, v)
  {
  }

  /** What the handlers do to the send space and the pending flags. */
  lemma HandleEffect(s: Tcb, seg: Segment)
    requires Handle(s, seg).2 == NoErr
    ensures var (h, flags, _) := Handle(s, seg);
            && h.queued == (if h.state.Closed? then NONE else s.queued)
            && (h.snd == s.snd || (s.state.IsPreestablished() && h.snd == FreshSnd(s.snd.iss, seg.wnd)) || h == RESET)
            && (h.snd != s.snd && h != RESET ==> s.state.Listen? || !seg.flags.ack)
            && ((h.dupack == s.dupack && h.nRetransmit == s.nRetransmit) || h == RESET)
            && (h.rcv.wnd == s.rcv.wnd || h == RESET)
            && (h.state.Closed? ==> h == RESET && flags == NONE)
            && !flags.fin && !flags.rst
            && (flags.syn ==> h.state.SynRcvd? && h.snd.una == h.snd.nxt)
            && (h.pending == s.pending || h == RESET || (s.state.Listen? && h.pending == SYNACK))
  {
    hide Wrap;
  }

  /** SND.UNA after an accepted segment lies between the old one and SND.NXT. */
  lemma AcceptedSnd(t: Track, seg: Segment)
    requires Inv(t) && Allowed(t, DoRecv(seg)) && Recv(t.s, seg).1 == NoErr
    ensures var h := Handle(t.s, seg).0;
            !h.state.Closed? ==>
              && Sizeof(h.snd.una, h.snd.nxt) <= MAX_WINDOW + Bit(t.finSent)
              && (Takes(h.snd, seg) ==>
                 h.snd == t.s.snd && 0 < Sizeof(h.snd.una, seg.ackno) <= Sizeof(h.snd.una, h.snd.nxt))
  {
    hide Wrap, Handle, Recv, Sizeof, LessThan, LessThanEq, HistoryOk, FlagsOk;
    RecvRefusal(t.s, seg);
    HandleEffect(t.s, seg);
    FreshInFlight(Handle(t.s, seg).0.snd);
    FreshInFlight(t.s.snd);
    UnaExact(t.s.snd.una, t.s.snd.nxt, seg.ackno);
    UnaExact(Handle(t.s, seg).0.snd.una, Handle(t.s, seg).0.snd.nxt, seg.ackno);
  }

  /** The track after an accepted segment. */
  lemma AcceptedTrack(t: Track, seg: Segment)
    requires Recv(t.s, seg).1 == NoErr
    ensures var s', t' := Recv(t.s, seg).0, Next(t, DoRecv(seg));
            && t'.s == s'
            && (s'.state.Closed? ==> !t'.finSent && !t'.finAcked && !t'.peerFin)
            && (!s'.state.Closed? && !s'.state.Listen? ==>
                  && t'.finSent == t.finSent && t'.finEnd == t.finEnd
                  && t'.peerFin == (t.peerFin || seg.flags.fin)
                  && t'.finAcked == (t.finAcked || (t.finSent && s'.snd.una != t.s.snd.una
                       && Sizeof(t.s.snd.una, s'.snd.una) >= Sizeof(t.s.snd.una, t.finEnd))))
  {
    hide Wrap, Recv, Sizeof;
  }

  /** Which state the handler of each state moves to. */
  lemma HandleStates(s: Tcb, seg: Segment)
    requires Handle(s, seg).2 == NoErr
    ensures var st, fin, all := Handle(s, seg).0.state, seg.flags.fin, seg.flags.ack && seg.ackno == s.snd.nxt;
            && (s.state.Listen? ==> st.SynRcvd?)
            && (s.state.SynSent? ==> st == if seg.flags.ack then Established else SynRcvd)
            && (s.state.SynRcvd? ==> st.Established? && seg.flags.ack)
            && (s.state.Established? ==> st == if fin then CloseWait else Established)
            && (s.state.FinWait1? ==>
               st == if fin then (if all then TimeWait else Closing) else if all then FinWait2 else FinWait1)
            && (s.state.FinWait2? ==> st == if fin then TimeWait else FinWait2)
            && (s.state.CloseWait? ==> st.CloseWait?)
            && (s.state.LastAck? ==> st == if seg.flags.ack then Closed else LastAck)
            && (s.state.Closing? ==> st == if seg.flags.ack then TimeWait else Closing)
            && !s.state.Closed? && !s.state.TimeWait?
  {
    hide Wrap;
  }

  lemma AcceptSpace(t: Track, seg: Segment)
    requires Inv(t) && Allowed(t, DoRecv(seg)) && Recv(t.s, seg).1 == NoErr
    ensures SpaceOk(Next(t, DoRecv(seg)))
  {
    hide Wrap, Handle, Recv, Next, Sizeof, Takes, FlagsOk, Allowed;
    RecvRefusal(t.s, seg);
    HandleEffect(t.s, seg);
    HandleStates(t.s, seg);
    AcceptEffect(t.s, seg);
    AcceptedSnd(t, seg);
    AcceptedTrack(t, seg);
    var h := Handle(t.s, seg).0;
    TakesAck(h.snd, seg);
    FreshInFlight(t.s.snd);
    if Takes(h.snd, seg) && !h.state.Closed? {
      Retreat(h.snd.una, h.snd.nxt, seg.ackno);
      if Sizeof(h.snd.una, seg.ackno) <= Sizeof(h.snd.una, t.finEnd) {
        Retreat(h.snd.una, t.finEnd, seg.ackno);
      }
      DistinctWhenApart(h.snd.una, seg.ackno);
    }
  }

  lemma DistinctWhenApart(v: Value, w: Value)
    ensures v == w <==> Sizeof(v, w) == 0
  {
    WrapIsMod(w - v);
  }

  lemma AcceptFlags(t: Track, seg: Segment)
    requires Inv(t) && Allowed(t, DoRecv(seg)) && Recv(t.s, seg).1 == NoErr
    ensures FlagsOk(Next(t, DoRecv(seg)))
  {
    hide Wrap, Handle, Recv, Next, Sizeof, LessThan, Allowed;
    RecvRefusal(t.s, seg);
    HandleEffect(t.s, seg);
    HandleStates(t.s, seg);
    AcceptEffect(t.s, seg);
    AcceptedSnd(t, seg);
    AcceptedTrack(t, seg);
    NotBeforeItself(t.s.snd.una);
    NotBeforeItself(Handle(t.s, seg).0.snd.una);
    DistinctWhenApart(t.s.snd.una, t.s.snd.nxt);
    DistinctWhenApart(Handle(t.s, seg).0.snd.una, Handle(t.s, seg).0.snd.nxt);
  }

  lemma AcceptHistory(t: Track, seg: Segment)
    requires Inv(t) && Allowed(t, DoRecv(seg)) && Recv(t.s, seg).1 == NoErr
    ensures HistoryOk(Next(t, DoRecv(seg)))
  {
    hide Wrap, Handle, Recv, Next, Sizeof, LessThan, LessThanEq, FlagsOk, Allowed;
    RecvRefusal(t.s, seg);
    HandleEffect(t.s, seg);
    HandleStates(t.s, seg);
    AcceptEffect(t.s, seg);
    AcceptedSnd(t, seg);
    AcceptedTrack(t, seg);
    if t.s.state.FinWait1? && !t.finAcked {
      InFlightOrder(t.s.snd.una, t.s.snd.nxt);
      UnaExact(t.s.snd.una, t.s.snd.nxt, t.s.snd.nxt);
    }
  }

  lemma RecvKeeps(t: Track, seg: Segment)
    requires Inv(t) && Allowed(t, DoRecv(seg))
    ensures Inv(Next(t, DoRecv(seg)))
  {
    hide Recv, Next, SpaceOk, FlagsOk, HistoryOk, Allowed;
    if Recv(t.s, seg).1 == NoErr {
      AcceptSpace(t, seg);
      AcceptFlags(t, seg);
      AcceptHistory(t, seg);
    } else {
      RefusalKeeps(t, seg);
    }
  }

  lemma RewindKeeps(t: Track, to: Value)
    requires Inv(t) && Allowed(t, DoRewind(to))
    ensures Inv(Next(t, DoRewind(to)))
  {
    hide Wrap, LessThan, Sizeof;
    if CanRewind(t.s, to) {
      RewindExact(t.s.snd.una, t.s.snd.nxt, to);
    }
  }

  lemma ConnectKeeps(t: Track, iss: Value, wnd: Size)
    requires Inv(t) && Allowed(t, DoConnect(iss, wnd))
    ensures Inv(Next(t, DoConnect(iss, wnd)))
  {
    hide InWindow, InRange;
    var seg := Segment(iss, 0, 0, wnd, SYN);
    assert OutgoingVerdict(t.s, seg) == NoErr <==> 0 < wnd <= MAX_WINDOW;
    NotBeforeItself(iss);
    OutgoingLen(seg);
    FreshInFlight(FreshSnd(iss, 1));
    Advance(iss, iss, 1);
  }

  lemma OpenKeeps(t: Track, iss: Value, wnd: Size)
    requires Inv(t)
    ensures Inv(Next(t, DoOpen(iss, wnd)))
  {
    hide Wrap;
    FreshInFlight(FreshSnd(iss, 1));
  }

  lemma CloseKeeps(t: Track)
    requires Inv(t)
    ensures Inv(Next(t, DoClose))
  {
    hide Wrap;
  }

  lemma QueueKeeps(t: Track, op: Op)
    requires Inv(t) && Allowed(t, op)
    requires op.DoQueueAck? || op.DoQueueRst? || op.DoDeliver? || op.DoSetWindow? || op.DoSetMss?
    ensures Inv(Next(t, op))
  {
    hide Wrap;
  }

  /** Every move the callers may make keeps the invariant. */
  lemma StepKeeps(t: Track, op: Op)
    requires Inv(t) && Allowed(t, op)
    ensures Inv(Next(t, op))
  {
    hide Next, Allowed, Inv;
    match op {
      case DoSend(_, _, _, _) => SendKeeps(t, op);
      case DoRequeue(wnd) => RequeueKeeps(t, wnd);
      case DoRecv(seg) => RecvKeeps(t, seg);
      case DoRewind(to) => RewindKeeps(t, to);
      case DoConnect(iss, wnd) => ConnectKeeps(t, iss, wnd);
      case DoOpen(iss, wnd) => OpenKeeps(t, iss, wnd);
      case DoClose => CloseKeeps(t);
      case DoAbort => AbortKeeps(t);
      case _ => QueueKeeps(t, op);
    }
  }

  lemma AbortKeeps(t: Track)
    ensures Inv(Next(t, DoAbort))
  {
    InitialHolds();
  }

  /** The tracks of a run, one more than its operations. */
  ghost predicate IsRun(ts: seq<Track>, ops: seq<Op>) {
    && |ts| == |ops| + 1 && ts[0] == INITIAL
    && forall i :: 0 <= i < |ops| ==> Allowed(ts[i], ops[i]) && ts[i + 1] == Next(ts[i], ops[i])
  }

  /** A segment the block offers or the handshake repeats is accepted, but for a FIN behind a full window of data. */
  ghost predicate Accepts(t: Track, op: Op) {
    match op
    case DoSend(payload, _, _, _) =>
      Pending(t.s, payload).Some? && (Send(t.s, Outgoing(t.s, op)).1 == NoErr <==> !Crowded(t.s, Outgoing(t.s, op)))
    case DoRequeue(wnd) => Send(t.s, Requeued(t.s, wnd)).1 == NoErr
    case _ => true
  }

  /**
    Safety over whole runs, rewinds at any time included: SND.UNA never passes SND.NXT, at most a maximum window
    and a FIN are in flight, closing states imply the FINs they stand for, and what is offered is accepted.
  */
  lemma {:induction false} RunSafe(ts: seq<Track>, ops: seq<Op>, i: nat)
    requires IsRun(ts, ops) && i < |ts|
    ensures Inv(ts[i])
    ensures i < |ops| ==> Accepts(ts[i], ops[i])
  {
    hide Next, Send, Inv, Crowded;
    if i == 0 {
      InitialHolds();
    } else {
      RunSafe(ts, ops, i - 1);
      StepKeeps(ts[i - 1], ops[i - 1]);
    }
    if i < |ops| && ops[i].DoSend? {
      NoSelfRejection(ts[i], ops[i]);
    } else if i < |ops| && ops[i].DoRequeue? {
      RequeueAccepted(ts[i], ops[i].wnd);
    }
  }

  lemma InitialHolds()
    ensures Inv(INITIAL)
  {
    FreshInFlight(RESET.snd);
  }

  /** A rewind that takes SND.NXT below a FIN not yet acknowledged. */
  predicate RewindsFin(t: Track, op: Op) {
    && op.DoRewind? && t.finSent && !t.finAcked && CanRewind(t.s, op.to)
    && Sizeof(t.s.snd.una, op.to) < Sizeof(t.s.snd.una, t.finEnd)
  }

  lemma RecvFin(t: Track, seg: Segment)
    requires Inv(t) && FinAhead(t) && Allowed(t, DoRecv(seg))
    ensures FinAhead(Next(t, DoRecv(seg)))
  {
    hide Wrap, Handle, Recv, Next, Sizeof, Takes, FlagsOk, Allowed;
    RecvRefusal(t.s, seg);
    if Recv(t.s, seg).1 != NoErr {
      RefusedTrack(t, seg);
    } else {
      HandleEffect(t.s, seg);
      HandleStates(t.s, seg);
      AcceptEffect(t.s, seg);
      AcceptedSnd(t, seg);
      AcceptedTrack(t, seg);
      TakesAck(Handle(t.s, seg).0.snd, seg);
      RecvFinAcked(t, seg);
    }
  }

  lemma RecvFinAcked(t: Track, seg: Segment)
    requires Inv(t) && FinAhead(t) && Allowed(t, DoRecv(seg)) && Recv(t.s, seg).1 == NoErr
    requires var h := Handle(t.s, seg).0;
             && (t.s.state.FinWait1? && h.state.FinWait2? ==>
                   h.snd == t.s.snd && seg.flags.ack && seg.ackno == h.snd.nxt)
             && (!h.state.Closed? && t.finSent ==> h.snd == t.s.snd)
    ensures var h := Handle(t.s, seg).0;
            && (t.s.state.FinWait1? && h.state.FinWait2? && !t.finAcked ==>
                  Takes(h.snd, seg) && seg.ackno != t.s.snd.una && Sizeof(t.s.snd.una, seg.ackno) == InFlight(t.s.snd))
            && (t.finSent && !h.state.Closed? && Takes(h.snd, seg) ==>
                  Sizeof(seg.ackno, h.snd.nxt) == Sizeof(h.snd.una, h.snd.nxt) - Sizeof(h.snd.una, seg.ackno))
            && (t.finSent && !h.state.Closed? && Takes(h.snd, seg)
                && Sizeof(h.snd.una, seg.ackno) <= Sizeof(h.snd.una, t.finEnd) ==>
                  Sizeof(seg.ackno, t.finEnd) == Sizeof(h.snd.una, t.finEnd) - Sizeof(h.snd.una, seg.ackno))
  {
    hide Wrap, Handle, Recv, Next, Sizeof, LessThan, LessThanEq, FlagsOk, Allowed;
    RecvRefusal(t.s, seg);
    AcceptedSnd(t, seg);
    var h := Handle(t.s, seg).0;
    InFlightOrder(t.s.snd.una, t.s.snd.nxt);
    UnaExact(t.s.snd.una, t.s.snd.nxt, t.s.snd.nxt);
    if t.finSent && !h.state.Closed? && Takes(h.snd, seg) {
      Retreat(h.snd.una, h.snd.nxt, seg.ackno);
      if Sizeof(h.snd.una, seg.ackno) <= Sizeof(h.snd.una, t.finEnd) {
        Retreat(h.snd.una, t.finEnd, seg.ackno);
      }
    }
  }

  lemma SendFin(t: Track, op: Op)
    requires Inv(t) && FinAhead(t) && op.DoSend? && Allowed(t, op)
    ensures FinAhead(Next(t, op))
  {
    hide Wrap, LessThan, Pending, Next, Send, NextSnd, Sizeof, NextPending, NextRetransmits, ChallengeSent, AndNot;
    if Crowded(t.s, Outgoing(t.s, op)) {
      CrowdedStays(t, op);
    } else {
      NoSelfRejection(t, op);
      ClosedOffersNothing(t, op.payload);
      SentInFlight(t, op);
      SentTrack(t, op);
      SndFields(t.s.snd, Outgoing(t.s, op));
    }
  }

  lemma RewindFin(t: Track, to: Value)
    requires Inv(t) && FinAhead(t)
    ensures FinAhead(Next(t, DoRewind(to))) <==> !RewindsFin(t, DoRewind(to))
  {
    hide Wrap, LessThan, Sizeof;
  }

  /**
    Every step keeps SND.NXT past an unacknowledged FIN, and FIN-WAIT-2 meaning that it is acknowledged, if and
    only if it is not a rewind below the FIN.
  */
  lemma FinAheadExactly(t: Track, op: Op)
    requires Inv(t) && FinAhead(t) && Allowed(t, op)
    ensures FinAhead(Next(t, op)) <==> !RewindsFin(t, op)
  {
    hide Wrap, Recv, Send, Sizeof, LessThan, FlagsOk, SpaceOk;
    match op {
      case DoSend(_, _, _, _) => SendFin(t, op);
      case DoRecv(seg) => RecvFin(t, seg);
      case DoRewind(to) => RewindFin(t, to);
      case DoRequeue(wnd) =>
        hide Next, NextPending;
        RequeuedTrack(t, wnd);
      case DoConnect(iss, wnd) => ConnectKeeps(t, iss, wnd);
      case _ =>
    }
  }

  /**
    From any point of a run before our FIN, as long as no rewind goes below it: SND.NXT stays past the FIN until it
    is acknowledged, and FIN-WAIT-2 means that it is.
  */
  lemma {:induction false} RunFinAhead(ts: seq<Track>, ops: seq<Op>, i: nat, j: nat)
    requires IsRun(ts, ops) && i <= j < |ts| && !ts[i].finSent && forall k :: i <= k < j ==> !RewindsFin(ts[k], ops[k])
    ensures FinAhead(ts[j])
    decreases j
  {
    hide Next, SpaceOk, FlagsOk, RewindsFin, Allowed;
    RunSafe(ts, ops, j);
    if i < j {
      RunFinAhead(ts, ops, i, j - 1);
      RunSafe(ts, ops, j - 1);
      FinAheadExactly(ts[j - 1], ops[j - 1]);
    }
  }

  /** The step opens or ends a connection; any other stays within one. */
  ghost predicate Boundary(t: Track, op: Op)
    requires op.DoSend? ==> Pending(t.s, op.payload).Some?
  {
    op.DoConnect? || Next(t, op).s.state.Closed? || Next(t, op).s.state.Listen?
  }

  /** SND.UNA stays, or moves forward to what an arriving segment acknowledges, by no more than is in flight. */
  ghost predicate UnaStep(t: Track, op: Op, t': Track) {
    || t'.s.snd.una == t.s.snd.una
    || (op.DoRecv? && op.seg.flags.ack && t'.s.snd.una == op.seg.ackno
        && 0 < Sizeof(t.s.snd.una, op.seg.ackno) <= InFlight(t.s.snd))
  }

  /** Sequence numbers a step puts on the wire, retransmitted ones included. */
  ghost function SentLen(t: Track, op: Op): nat
    requires op.DoSend? ==> Pending(t.s, op.payload).Some?
  {
    if op.DoSend? then Outgoing(t.s, op).Len() else if op.DoRequeue? then Requeued(t.s, op.wnd).Len() else 0
  }

  /** What is acknowledged and what stays in flight was in flight or is sent now. */
  ghost predicate Balanced(t: Track, op: Op, t': Track)
    requires op.DoSend? ==> Pending(t.s, op.payload).Some?
  {
    Sizeof(t.s.snd.una, t'.s.snd.una) + InFlight(t'.s.snd) <= InFlight(t.s.snd) + SentLen(t, op)
  }

  lemma RecvForward(t: Track, seg: Segment)
    requires Inv(t) && Allowed(t, DoRecv(seg)) && !Boundary(t, DoRecv(seg))
    ensures UnaStep(t, DoRecv(seg), Next(t, DoRecv(seg)))
    ensures Next(t, DoRecv(seg)).s.snd.nxt == t.s.snd.nxt
            || (t.s.state.IsPreestablished() && InFlight(Next(t, DoRecv(seg)).s.snd) == 0)
  {
    hide Wrap, Handle, Recv, Next, Sizeof, Takes, FlagsOk, HistoryOk, Allowed;
    RecvRefusal(t.s, seg);
    FreshInFlight(Next(t, DoRecv(seg)).s.snd);
    if Recv(t.s, seg).1 == NoErr {
      HandleEffect(t.s, seg);
      AcceptEffect(t.s, seg);
      AcceptedSnd(t, seg);
      AcceptedTrack(t, seg);
      TakesAck(Handle(t.s, seg).0.snd, seg);
    } else {
      RefusedTrack(t, seg);
    }
  }

  lemma RecvBalanced(t: Track, seg: Segment)
    requires Inv(t) && Allowed(t, DoRecv(seg)) && !Boundary(t, DoRecv(seg))
    ensures Balanced(t, DoRecv(seg), Next(t, DoRecv(seg)))
  {
    hide Wrap, Recv, Next, Sizeof, FlagsOk, HistoryOk, Allowed;
    RecvForward(t, seg);
    var snd, snd' := t.s.snd, Next(t, DoRecv(seg)).s.snd;
    DistinctWhenApart(snd.una, snd'.una);
    if snd'.nxt == snd.nxt {
      Retreat(snd.una, snd.nxt, snd'.una);
    }
  }

  lemma SendBalanced(t: Track, op: Op)
    requires Inv(t) && op.DoSend? && Allowed(t, op) && !Boundary(t, op) && !Crowded(t.s, Outgoing(t.s, op))
    ensures Balanced(t, op, Next(t, op)) && Next(t, op).s.snd.una == t.s.snd.una
  {
    hide Wrap, LessThan, Pending, Next, Send, Sizeof, NextPending, NextRetransmits, ChallengeSent, AndNot, HistoryOk;
    var s, seg := t.s, Outgoing(t.s, op);
    NoSelfRejection(t, op);
    ClosedOffersNothing(t, op.payload);
    SentTrack(t, op);
    OfferedSegment(s, op.payload);
    OutgoingLen(seg);
    DistinctWhenApart(s.snd.una, s.snd.una);
    InFlightOrder(s.snd.una, s.snd.nxt);
    if !LessThan(seg.first, s.snd.nxt) {
      Advance(s.snd.una, s.snd.nxt, seg.Len());
    }
  }

  lemma RequeueBalanced(t: Track, wnd: Size)
    requires Inv(t) && Allowed(t, DoRequeue(wnd))
    ensures Next(t, DoRequeue(wnd)).s.snd.una == t.s.snd.una
    ensures Balanced(t, DoRequeue(wnd), Next(t, DoRequeue(wnd)))
  {
    hide Wrap, Next, Send, Sizeof, FlagsOk, HistoryOk;
    RequeuedTrack(t, wnd);
    RequeueAccepted(t, wnd);
    DistinctWhenApart(t.s.snd.una, t.s.snd.una);
    FreshInFlight(t.s.snd);
    if t.s.snd.una == t.s.snd.nxt {
      Advance(t.s.snd.una, t.s.snd.nxt, 1);
    }
  }

  /** SND.UNA only moves forward, to acknowledged values, in every step of a connection. */
  lemma UnaForward(t: Track, op: Op)
    requires Inv(t) && Allowed(t, op) && !Boundary(t, op)
    ensures UnaStep(t, op, Next(t, op)) && Balanced(t, op, Next(t, op))
  {
    hide Wrap, Recv, Send, Sizeof, LessThan, FlagsOk, HistoryOk;
    DistinctWhenApart(t.s.snd.una, t.s.snd.una);
    match op {
      case DoSend(_, _, _, _) =>
        if Crowded(t.s, Outgoing(t.s, op)) {
          CrowdedStays(t, op);
        } else {
          SendBalanced(t, op);
        }
      case DoRequeue(wnd) => RequeueBalanced(t, wnd);
      case DoRecv(seg) => RecvForward(t, seg); RecvBalanced(t, seg);
      case DoRewind(to) => RewindExact(t.s.snd.una, t.s.snd.nxt, to);
      case _ =>
    }
  }

  /** Sequence numbers SND.UNA moved over between two points of a run. */
  ghost function Acked(ts: seq<Track>, i: nat, j: nat): nat
    requires i <= j < |ts|
    decreases j
  {
    if i == j then 0 else Acked(ts, i, j - 1) + Sizeof(ts[j - 1].s.snd.una, ts[j].s.snd.una)
  }

  /** Sequence numbers put on the wire between two points of a run. */
  ghost function SentBetween(ts: seq<Track>, ops: seq<Op>, i: nat, j: nat): nat
    requires IsRun(ts, ops) && i <= j < |ts|
    decreases j
  {
    if i == j then 0
    else
      assert Allowed(ts[j - 1], ops[j - 1]);
      SentBetween(ts, ops, i, j - 1) + SentLen(ts[j - 1], ops[j - 1])
  }

  /** No step between the two points opens or ends a connection. */
  ghost predicate OneConnection(ts: seq<Track>, ops: seq<Op>, i: nat, j: nat)
    requires IsRun(ts, ops) && i <= j < |ts|
  {
    forall k :: i <= k < j ==> Allowed(ts[k], ops[k]) && !Boundary(ts[k], ops[k])
  }

  /**
    Within a connection of any run SND.UNA only moves forward: its position at a later point is its earlier one
    plus every acknowledged step, each at most what was in flight, and the whole at most what was in flight at
    first and sent since.
  */
  lemma {:induction false} RunUnaForward(ts: seq<Track>, ops: seq<Op>, i: nat, j: nat)
    requires IsRun(ts, ops) && i <= j < |ts| && OneConnection(ts, ops, i, j)
    ensures ts[j].s.snd.una == Wrap(ts[i].s.snd.una + Acked(ts, i, j))
    ensures forall k :: i <= k < j ==> UnaStep(ts[k], ops[k], ts[k + 1])
    ensures Acked(ts, i, j) + InFlight(ts[j].s.snd) <= InFlight(ts[i].s.snd) + SentBetween(ts, ops, i, j)
    decreases j
  {
    hide Next, Boundary, Inv, Wrap, Sizeof, Allowed, UnaStep;
    if i == j {
      AddZero(ts[i].s.snd.una);
    } else {
      RunUnaForward(ts, ops, i, j - 1);
      RunSafe(ts, ops, j - 1);
      UnaForward(ts[j - 1], ops[j - 1]);
      Telescope(ts[i].s.snd.una, Acked(ts, i, j - 1), ts[j - 1].s.snd.una, ts[j].s.snd.una);
    }
  }

  lemma Telescope(u: Value, n: nat, v: Value, w: Value)
    requires v == Wrap(u + n)
    ensures w == Wrap(u + (n + Sizeof(v, w)))
  {
    WrapIsMod(u + n);
    WrapIsMod(w - v);
    WrapIsMod(u + (n + Sizeof(v, w)));
  }

  lemma TakesAck(snd: SendSpace, seg: Segment)
    ensures Takes(snd, seg) ==> seg.flags.ack
  {
  }

  /**
    The half-turn acknowledgement, exactly: an accepted segment keeps SND.UNA from passing SND.NXT if and only if
    it does not acknowledge the number 2^31 past SND.UNA while nothing is in flight.
  */
  lemma HalfTurnExactly(t: Track, seg: Segment)
    requires Inv(t) && Recv(t.s, seg).1 == NoErr
    ensures Recv(t.s, seg).0.state.Closed?
            || (InFlight(Recv(t.s, seg).0.snd) <= MAX_WINDOW + Bit(t.finSent) <==> !HalfTurnAck(t.s, seg))
  {
    hide Wrap, Handle, Recv, Next, LessThan, LessThanEq, FlagsOk, HistoryOk, Sizeof;
    RecvRefusal(t.s, seg);
    HandleEffect(t.s, seg);
    HandleStates(t.s, seg);
    AcceptEffect(t.s, seg);
    UnaExact(t.s.snd.una, t.s.snd.nxt, seg.ackno);
    if HalfTurnAck(t.s, seg) {
      HalfTurnHandled(t, seg);
      HalfTurnBack(t.s.snd.una, seg.ackno);
    } else {
      AcceptedSnd(t, seg);
      if Takes(Handle(t.s, seg).0.snd, seg) && !Handle(t.s, seg).0.state.Closed? {
        Retreat(t.s.snd.una, t.s.snd.nxt, seg.ackno);
      }
    }
  }

  /** The handlers leave the send space alone, or fresh, before such an acknowledgement is taken. */
  lemma HalfTurnHandled(t: Track, seg: Segment)
    requires Inv(t) && Recv(t.s, seg).1 == NoErr && HalfTurnAck(t.s, seg)
    ensures var h := Handle(t.s, seg).0;
            if t.s.state.LastAck? then h == RESET
            else h.snd.una == t.s.snd.una && h.snd.nxt == t.s.snd.nxt && Takes(h.snd, seg)
  {
    hide Wrap, Recv, LessThan, LessThanEq, Sizeof, FlagsOk;
    RecvRefusal(t.s, seg);
    UnaExact(t.s.snd.una, t.s.snd.nxt, seg.ackno);
    OneApart(t.s.snd.una);
  }

  lemma OneApart(v: Value)
    ensures Sizeof(v, Wrap(v + 1)) == 1 && Sizeof(v, v) == 0
  {
    AddThenSizeof(v, 1);
    AddThenSizeof(v, 0);
  }

  lemma HalfTurnBack(v: Value, w: Value)
    requires Sizeof(v, w) == HALF
    ensures Sizeof(w, v) == HALF
  {
    WrapIsMod(w - v);
    WrapIsMod(v - w);
  }

  lemma HalfTurnRecv(s: Tcb, seg: Segment)
    requires s.state.Established? && seg.flags == ACK && seg.datalen == 0 && seg.Len() == 0
             && seg.Last() == seg.first == s.rcv.nxt
    requires seg.wnd <= MAX_WINDOW && InWindow(s.rcv.nxt, s.rcv.nxt, s.rcv.wnd)
    requires LessThan(s.snd.una, seg.ackno) && LessThanEq(seg.ackno, s.snd.nxt) && seg.ackno != s.snd.una
    ensures Recv(s, seg).1 == NoErr && Recv(s, seg).0.snd.una == seg.ackno && Recv(s, seg).0.snd.nxt == s.snd.nxt
  {
    hide Wrap, LessThan, InWindow;
  }

  /** The default panic of the receive switch is reached exactly by an acceptable segment in TIME-WAIT. */
  lemma RecvPanicsExactly(s: Tcb, seg: Segment)
    ensures Recv(s, seg).1 == Panic <==>
            s.state.TimeWait? && IncomingVerdict(s, seg) == NoErr && !seg.flags.rst && !seg.flags.syn
  {
    hide Wrap, LessThan, IncomingVerdict, RstIrs, UpdateWindow, UpdateUna;
    HandlePanics(s, seg);
    VerdictNeverPanics(s, seg);
  }

  lemma VerdictNeverPanics(s: Tcb, seg: Segment)
    ensures IncomingVerdict(s, seg) != Panic
    ensures s.state.Closed? ==> IncomingVerdict(s, seg) != NoErr
  {
    hide Wrap, InWindow;
  }

  /** With a FIN pending, data fits exactly when a sequence number is left for the FIN. */
  lemma FinWithDataExactly(t: Track, payload: nat, n: Size)
    requires Inv(t) && t.s.pending.fin && Pending(t.s, payload).Some? && Pending(t.s, payload).value.flags.fin
    requires 0 < n <= Pending(t.s, payload).value.datalen
    ensures Send(t.s, Pending(t.s, payload).value.(datalen := n)).1 == NoErr <==> n < t.s.snd.wnd
  {
    hide Wrap, InWindow, InRange, LessThan, HistoryOk, Pending;
    var s, seg := t.s, Pending(t.s, payload).value.(datalen := n);
    OfferedSegment(s, payload);
    ClosedOffersNothing(t, payload);
    FirstInWindow(s.snd.nxt, s.snd.wnd);
    OutgoingLen(seg);
    NotInRangeOfItself(s.snd.una, s.snd.nxt);
    LastWithinExactly(seg, s.snd.wnd);
  }

  lemma NotInRangeOfItself(una: Value, nxt: Value)
    ensures !InRange(nxt, una, nxt)
  {
  }

  lemma LastWithinExactly(seg: Segment, wnd: Size)
    requires 0 < seg.Len()
    ensures InWindow(seg.Last(), seg.first, wnd) <==> seg.Len() <= wnd
  {
    AddThenSizeof(seg.first, wnd);
    WrapIsMod(seg.first + seg.Len());
    WrapIsMod(Add(seg.first, seg.Len()) - 1);
    WrapIsMod(seg.Last() - seg.first);
  }

  /**
    An ACK of everything sent moves FIN-WAIT-1 to FIN-WAIT-2. It acknowledges the FIN if and only if
    SND.NXT was not rewound below the FIN.
  */
  lemma FinWait2Exactly(t: Track, seg: Segment)
    requires Inv(t) && t.s.state.FinWait1? && !t.finAcked
    requires Recv(t.s, seg).1 == NoErr && seg.flags.ack && !seg.flags.fin && seg.ackno == t.s.snd.nxt
    ensures Next(t, DoRecv(seg)).s.state.FinWait2?
    ensures Next(t, DoRecv(seg)).finAcked <==> Sizeof(t.s.snd.una, t.finEnd) <= InFlight(t.s.snd)
  {
    hide Wrap, Handle, Recv, Next, Sizeof, LessThan, LessThanEq;
    RecvRefusal(t.s, seg);
    HandleEffect(t.s, seg);
    HandleStates(t.s, seg);
    AcceptEffect(t.s, seg);
    AcceptedTrack(t, seg);
    InFlightOrder(t.s.snd.una, t.s.snd.nxt);
    UnaExact(t.s.snd.una, t.s.snd.nxt, t.s.snd.nxt);
  }
}
