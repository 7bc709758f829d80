/**
  The connection state machine of tcp/control.go and tcp/control_rcvhandlers.go, as functions from one
  state of the control block to the next. `ControlBlock` is proved to carry out these functions.
*/
module Control {
  import opened Options
  import opened SeqNum
  import opened Segments

  datatype Err =
    | NoErr
    | Drop | ErrClosed | ClosedPipe
    | WindowOverflow | WindowTooLarge
    | SeqNotInWindow | LastNotInWindow | ZeroWindow | RequireSequential | AckNotNext
    | ConnectionClosing | ExpectedSyn | BadSegack | FinwaitExpectedAck
    | ConnNotExist | InvalidState | NeedClosed
    | Panic

  datatype SendSpace = SendSpace(iss: Value, una: Value, nxt: Value, wnd: Size, mss: Size, wl1: Value, wl2: Value)
  datatype RecvSpace = RecvSpace(irs: Value, nxt: Value, wnd: Size)

  datatype Tcb = Tcb(
    snd: SendSpace,
    rcv: RecvSpace,
    rstPtr: Value,
    pending: Flags,       // next segment's flags
    queued: Flags,        // the one after it
    state: State,
    challengeAcks: int,   // int8, negative while a challenge ACK waits to be sent
    dupack: int,          // uint8
    nRetransmit: int      // uint8
  )

  const RESET := Tcb(SendSpace(0, 0, 0, 0, 0, 0, 0), RecvSpace(0, 0, 0), 0, NONE, NONE, Closed, 0, 0, 0)

  const RETRANSMIT_AFTER_DUPACKS := 3
  const RETRANSMIT_MAX_QUEUED := 2
  const MAX_CHALLENGE_REJECTS := 8

  function FreshSnd(iss: Value, wnd: Size): SendSpace {
    SendSpace(iss, iss, iss, wnd, 0, 0, 0)
  }

  function FreshRcv(wnd: Size, irs: Value): RecvSpace {
    RecvSpace(irs, irs, wnd)
  }

  function InFlight(snd: SendSpace): Size {
    Sizeof(snd.una, snd.nxt)
  }

  function MaxSend(snd: SendSpace): Size {
    if InFlight(snd) >= snd.wnd then 0 else snd.wnd - InFlight(snd)
  }

  predicate ChallengePending(s: Tcb) {
    s.challengeAcks < 0
  }

  /** int8 counter: incremented and made negative, unless one is already waiting. */
  function ChallengeEmit(s: Tcb): Tcb {
    if s.challengeAcks >= 0 then s.(challengeAcks := -s.challengeAcks - 1) else s
  }

  /** The counter once the waiting challenge ACK went out: int8 negation, which leaves -128 as it is. */
  function ChallengeSent(c: int): int {
    if c < 0 && c != -128 then -c else c
  }

  predicate TooManyChallenges(s: Tcb) {
    if s.challengeAcks >= 0 then s.challengeAcks > MAX_CHALLENGE_REJECTS else s.challengeAcks < -MAX_CHALLENGE_REJECTS
  }

  predicate HasPendingRetransmit(s: Tcb) {
    && s.state.TxDataOpen()
    && s.dupack >= RETRANSMIT_AFTER_DUPACKS
    && s.nRetransmit <= s.dupack - RETRANSMIT_AFTER_DUPACKS
  }

  predicate HasPending(s: Tcb) {
    s.pending != NONE || ChallengePending(s) || HasPendingRetransmit(s)
  }

  /** The segment `PendingSegment` offers for a payload of up to `payload` bytes. */
  function Pending(s: Tcb, payload: nat): Option<Segment> {
    if ChallengePending(s) then
      Some(Segment(s.snd.nxt, s.rcv.nxt, 0, s.rcv.wnd, ACK))
    else if !s.pending.HasCtl() && HasPendingRetransmit(s) then
      Some(Segment(s.snd.una, s.rcv.nxt, Wrap(payload), s.rcv.wnd, ACK))
    else
      var canSend := s.state.TxQueuedDataOpen();
      var offered := if canSend then payload else 0;
      if s.pending == NONE && (offered == 0 || MaxSend(s.snd) == 0) then None
      else
        var fits := if offered > MaxSend(s.snd) then MaxSend(s.snd) else offered;
        var n := if s.snd.mss > 0 && fits > s.snd.mss then s.snd.mss else fits;
        var flags := if canSend then s.pending.(ack := true) else s.pending;
        Some(Segment(if flags.rst then s.rstPtr else s.snd.nxt, if flags.ack then s.rcv.nxt else 0,
                     n, s.rcv.wnd, flags))
  }

  /** Why an outgoing segment is refused, or `NoErr`. */
  function OutgoingVerdict(s: Tcb, seg: Segment): Err {
    var isFirst := s.state.Closed? && seg.IsFirstSyn();
    var checkSeq := !isFirst && !seg.flags.rst;
    var zeroWindowOk := s.snd.wnd == 0 && seg.datalen == 0 && seg.first == s.snd.nxt;
    var outOfWindow := checkSeq && !InWindow(seg.first, s.snd.nxt, s.snd.wnd) && !zeroWindowOk;
    var isRetransmit := checkSeq && InRange(seg.first, s.snd.una, s.snd.nxt);
    if s.state.Closed? && !isFirst then ClosedPipe
    else if seg.wnd > MAX_WINDOW then WindowTooLarge
    else if seg.flags.ack && seg.ackno != s.rcv.nxt then AckNotNext
    else if outOfWindow && !isRetransmit then (if s.snd.wnd == 0 then ZeroWindow else SeqNotInWindow)
    else if seg.datalen > 0 && s.state.FinWait2? then ConnectionClosing
    else if checkSeq && s.snd.wnd == 0 && seg.datalen > 0 && seg.first == s.snd.nxt then ZeroWindow
    else if checkSeq && !InWindow(seg.Last(), s.snd.nxt, s.snd.wnd) && !zeroWindowOk && !isRetransmit then
      LastNotInWindow
    else NoErr
  }

  /** State change a segment makes by being sent. */
  function SendTransition(s: Tcb, seg: Segment): Tcb {
    match s.state
    case Closed =>
      if seg.flags == SYN then
        RESET.(snd := FreshSnd(seg.first, 1), rcv := FreshRcv(seg.wnd, 0), state := SynSent)
      else s
    case SynRcvd => if seg.flags.fin then s.(state := FinWait1) else s
    case Established => if seg.flags.fin then s.(state := FinWait1) else s
    case Closing => if seg.flags.ack then s.(state := TimeWait) else s
    case CloseWait => if seg.flags.fin then s.(state := LastAck) else s
    case _ => s
  }

  /** Flags to send next once those of `sent` went out. */
  function NextPending(pending: Flags, queued: Flags, sent: Flags): Flags {
    var p := AndNot(pending, sent);
    if p == NONE then AndNot(queued, if sent.fin then FIN else NONE) else p
  }

  /** A retransmission leaves SND.NXT alone. */
  function NextSnd(snd: SendSpace, seg: Segment): SendSpace {
    if LessThan(seg.first, snd.nxt) then snd else snd.(nxt := Add(snd.nxt, seg.Len()))
  }

  function NextRetransmits(n: int, retransmit: bool): int {
    if retransmit && n < 255 - RETRANSMIT_MAX_QUEUED - RETRANSMIT_AFTER_DUPACKS then n + 1 else n
  }

  function Send(s: Tcb, seg: Segment): (Tcb, Err) {
    var err := OutgoingVerdict(s, seg);
    if err != NoErr then (s, err)
    else
      var t := SendTransition(s, seg);
      (Tcb(NextSnd(t.snd, seg), t.rcv.(wnd := seg.wnd), t.rstPtr,
           NextPending(t.pending, t.queued, seg.flags),
           if AndNot(t.pending, seg.flags) == NONE then NONE else t.queued,
           t.state,
           if seg.flags.ack then ChallengeSent(t.challengeAcks) else t.challengeAcks,
           t.dupack,
           NextRetransmits(t.nRetransmit, LessThan(seg.first, t.snd.nxt))),
       NoErr)
  }

  /** A refused segment changes nothing. */
  lemma SendRefused(s: Tcb, seg: Segment)
    ensures Send(s, seg).1 != NoErr ==> Send(s, seg).0 == s
  {
    hide OutgoingVerdict;
  }

  function HandleRst(s: Tcb, first: Value): (Tcb, Err) {
    match s.state
    case SynSent => (RESET, ErrClosed)
    case Listen => (s, Drop)
    case SynRcvd =>
      (s.(pending := NONE, state := Listen, snd := FreshSnd(Wrap(s.snd.iss + 100), s.snd.wnd),
          rcv := FreshRcv(s.rcv.wnd, RstIrs(s.rcv.irs))), Drop)
    case _ =>
      if first != s.rcv.nxt then (ChallengeEmit(s).(pending := s.pending.(ack := true)), Drop)
      else (RESET, ErrClosed)
  }

  /** IRS left behind by a reset in SYN-RECEIVED, `3141592653 ^ IRS`: a placeholder until the next SYN overwrites it. */
  function RstIrs(irs: Value): Value {
    (3141592653 as bv32 ^ irs as bv32) as int
  }

  /** Why an incoming segment is not acceptable, or `NoErr`. */
  function IncomingVerdict(s: Tcb, seg: Segment): Err {
    var checkSeq := (!seg.flags.syn || !s.state.IsPreestablished()) && !s.state.Listen?;
    var zeroWindowOk := s.rcv.wnd == 0 && seg.datalen == 0 && seg.first == s.rcv.nxt;
    if seg.wnd > MAX_WINDOW then WindowOverflow
    else if s.state.Closed? then ClosedPipe
    else if checkSeq && s.rcv.wnd == 0 && seg.datalen > 0 && seg.first == s.rcv.nxt then ZeroWindow
    else if checkSeq && !InWindow(seg.first, s.rcv.nxt, s.rcv.wnd) && !zeroWindowOk then SeqNotInWindow
    else if checkSeq && !InWindow(seg.Last(), s.rcv.nxt, s.rcv.wnd) && !zeroWindowOk then LastNotInWindow
    else if checkSeq && !seg.flags.rst && seg.first != s.rcv.nxt then RequireSequential
    else NoErr
  }

  predicate AcksOld(s: Tcb, seg: Segment) {
    seg.flags.ack && !LessThan(s.snd.una, seg.ackno)
  }

  predicate AcksUnsent(s: Tcb, seg: Segment) {
    seg.flags.ack && !LessThanEq(seg.ackno, s.snd.nxt)
  }

  function ValidateIncoming(s: Tcb, seg: Segment): (Tcb, Err) {
    var err := IncomingVerdict(s, seg);
    if err != NoErr then
      if (err.SeqNotInWindow? || err.LastNotInWindow? || err.RequireSequential? || err.ZeroWindow?)
        && !seg.flags.rst then
        if TooManyChallenges(s) then (RESET, ErrClosed) else (ChallengeEmit(s), err)
      else (s, err)
    else if seg.flags.rst then HandleRst(s, seg.first)
    else
      var ctlOrData := s.state.Established? && (seg.datalen > 0 || seg.flags.fin);
      if s.state.Established? && AcksOld(s, seg) && !ctlOrData then (s, NoErr)
      else if s.state.Established? && AcksUnsent(s, seg) then (s.(pending := s.pending.(ack := true)), Drop)
      else if s.state.IsPreestablished() && (AcksOld(s, seg) || AcksUnsent(s, seg)) then
        (s.(pending := RST, rstPtr := seg.ackno, snd := FreshSnd(s.snd.iss, seg.wnd)), Drop)
      else (s, NoErr)
  }

  /** The per-state receive handlers: new state, flags to send, error. */
  function Handle(s: Tcb, seg: Segment): (Tcb, Flags, Err) {
    var fin, ack := seg.flags.fin, seg.flags.ack;
    match s.state
    case Listen =>
      if !seg.flags.syn then (s, NONE, ExpectedSyn)
      else (s.(snd := FreshSnd(s.snd.iss, seg.wnd), rcv := FreshRcv(s.rcv.wnd, seg.first), pending := SYNACK,
               state := SynRcvd), SYNACK, NoErr)
    case SynSent =>
      if !seg.flags.syn then (s, NONE, ExpectedSyn)
      else if ack && seg.ackno != Wrap(s.snd.una + 1) then (s, NONE, BadSegack)
      else if ack then (s.(state := Established, rcv := FreshRcv(s.rcv.wnd, seg.first)), ACK, NoErr)
      else
        (s.(state := SynRcvd, snd := FreshSnd(s.snd.iss, seg.wnd), rcv := FreshRcv(s.rcv.wnd, seg.first)),
         SYNACK, NoErr)
    case SynRcvd =>
      if !ack || seg.ackno != Wrap(s.snd.una + 1) then (s, NONE, BadSegack)
      else (s.(state := Established), NONE, NoErr)
    case Established =>
      (if fin then s.(state := CloseWait) else s, if seg.datalen > 0 || fin then ACK else NONE, NoErr)
    case FinWait1 =>
      var all := ack && seg.ackno == s.snd.nxt;
      if !fin && !ack then (s, NONE, FinwaitExpectedAck)
      else
        (if fin && all then s.(state := TimeWait) else if fin then s.(state := Closing)
         else if all then s.(state := FinWait2) else s,
         if seg.datalen > 0 || fin then ACK else NONE, NoErr)
    case FinWait2 =>
      (if fin then s.(state := TimeWait) else s, if seg.datalen > 0 || fin then ACK else NONE, NoErr)
    case CloseWait => (s, NONE, NoErr)
    case LastAck => (if ack then RESET else s, NONE, NoErr)
    case Closing => (if ack then s.(state := TimeWait) else s, NONE, NoErr)
    case _ => (s, NONE, Panic)
  }

  /** SND.WND update, guarded by WL1 and WL2. */
  function UpdateWindow(s: Tcb, seg: Segment): Tcb {
    var snd := s.snd;
    if (snd.wl1 == 0 && snd.wl2 == 0) || LessThan(snd.wl1, seg.first)
      || (snd.wl1 == seg.first && LessThanEq(snd.wl2, seg.ackno)) then
      s.(snd := snd.(wnd := if LessThan(snd.una, seg.ackno) || seg.wnd > snd.wnd then seg.wnd else snd.wnd,
                     wl1 := seg.first, wl2 := seg.ackno))
    else s
  }

  predicate IsDupAck(s: Tcb, ackno: Value) {
    ackno == s.snd.una && LessThan(ackno, s.snd.nxt)
  }

  /** SND.UNA update and duplicate-ACK count. */
  function UpdateUna(s: Tcb, seg: Segment): Tcb {
    if !seg.flags.ack || !LessThanEq(seg.ackno, s.snd.nxt) then s
    else if IsDupAck(s, seg.ackno) && s.state.TxDataOpen() && !seg.flags.HasCtl()
            && s.dupack < s.nRetransmit + 2 * RETRANSMIT_MAX_QUEUED then
      s.(dupack := s.dupack + 1)
    else if LessThan(s.snd.una, seg.ackno) then
      s.(snd := s.snd.(una := seg.ackno), dupack := 0, nRetransmit := 0)
    else s
  }

  function Recv(s: Tcb, seg: Segment): (Tcb, Err) {
    var (v, err) := ValidateIncoming(s, seg);
    if err != NoErr then (v, err)
    else if seg.flags.syn && !v.state.IsPreestablished() then
      (ChallengeEmit(v).(pending := v.pending.(ack := true)), Drop)
    else
      var (h, flags, herr) := Handle(v, seg);
      if herr != NoErr then (h, herr)
      else
        var a := UpdateUna(UpdateWindow(h.(challengeAcks := 0, pending := Or(h.pending, flags)), seg), seg);
        (a.(rcv := a.rcv.(nxt := Add(a.rcv.nxt, seg.Len()))), NoErr)
  }

  function Close(s: Tcb): (Tcb, Err) {
    match s.state
    case Closed => (s, ConnNotExist)
    case CloseWait => (s.(state := LastAck, pending := FINACK, queued := NONE), NoErr)
    case Listen => (RESET, NoErr)
    case SynSent => (RESET, NoErr)
    case SynRcvd => (s.(pending := if s.pending.ack then FINACK else FIN), NoErr)
    case Established => (s.(pending := if s.pending.ack then FINACK else FIN), NoErr)
    case FinWait2 => (s, ConnectionClosing)
    case TimeWait => (s, ConnectionClosing)
    case _ => (s, InvalidState)
  }

  /** Whether a rewind of SND.NXT is within the unacknowledged range and the state can still send. */
  predicate CanRewind(s: Tcb, newNxt: Value) {
    s.state.TxQueuedDataOpen() && !LessThan(newNxt, s.snd.una) && !LessThan(s.snd.nxt, newNxt)
  }

  function RetransmitFrom(s: Tcb, newNxt: Value): Tcb {
    if CanRewind(s, newNxt) then s.(snd := s.snd.(nxt := newNxt), dupack := 0, nRetransmit := 0) else s
  }

  function Open(s: Tcb, iss: Value, wnd: Size): (Tcb, Err) {
    if !s.state.Closed? && !s.state.TimeWait? then (s, NeedClosed)
    else if wnd > MAX_WINDOW then (s, WindowTooLarge)
    else (RESET.(snd := FreshSnd(iss, 1), rcv := FreshRcv(wnd, 0), state := Listen), NoErr)
  }
}
