/** `ControlBlock` (tcp/control.go): the fields the source keeps and the methods that update them. */
module ControlBlocks {
  import opened Options
  import opened SeqNum
  import opened Segments
  import C = Control

  class ControlBlock {
    var snd: C.SendSpace
    var rcv: C.RecvSpace
    var rstPtr: Value
    var pending0: Flags
    var pending1: Flags
    var state: State
    var challengeAcks: int
    var dupack: int
    var nRetransmit: int

    function Tcb(): C.Tcb
      reads this
    {
      C.Tcb(snd, rcv, rstPtr, pending0, pending1, state, challengeAcks, dupack, nRetransmit)
    }

    constructor ()
      ensures Tcb() == C.RESET
    {
      snd, rcv, rstPtr := C.RESET.snd, C.RESET.rcv, 0;
      pending0, pending1, state := NONE, NONE, Closed;
      challengeAcks, dupack, nRetransmit := 0, 0, 0;
    }

    method Abort()
      modifies this
      ensures Tcb() == C.RESET
    {
      snd, rcv, rstPtr := C.RESET.snd, C.RESET.rcv, 0;
      pending0, pending1, state := NONE, NONE, Closed;
      challengeAcks, dupack, nRetransmit := 0, 0, 0;
    }

    method QueueRst(at: Value)
      modifies this`pending0, this`pending1, this`rstPtr
      ensures Tcb() == old(Tcb()).(pending := RST, queued := NONE, rstPtr := at)
    {
      pending0, pending1 := RST, NONE;
      rstPtr := at;
    }

    method ResetSnd(iss: Value, wnd: Size)
      modifies this`snd
      ensures snd == C.FreshSnd(iss, wnd)
    {
      snd := C.SendSpace(iss, iss, iss, wnd, 0, 0, 0);
    }

    method ResetRcv(wnd: Size, irs: Value)
      modifies this`rcv
      ensures rcv == C.FreshRcv(wnd, irs)
    {
      rcv := C.RecvSpace(irs, irs, wnd);
    }

    method PrepareToHandshake(iss: Value, wnd: Size, newState: State)
      modifies this
      ensures Tcb() == C.RESET.(snd := C.FreshSnd(iss, 1), rcv := C.FreshRcv(wnd, 0), state := newState)
    {
      Abort();
      ResetRcv(wnd, 0);
      ResetSnd(iss, 1);
      state := newState;
    }

    method Open(iss: Value, wnd: Size) returns (err: C.Err)
      modifies this
      ensures (Tcb(), err) == C.Open(old(Tcb()), iss, wnd)
    {
      if !state.Closed? && !state.TimeWait? {
        return C.NeedClosed;
      } else if wnd > MAX_WINDOW {
        return C.WindowTooLarge;
      }
      PrepareToHandshake(iss, wnd, Listen);
      return C.NoErr;
    }

    method Close() returns (err: C.Err)
      modifies this
      ensures (Tcb(), err) == C.Close(old(Tcb()))
    {
      match state {
        case Closed =>
          return C.ConnNotExist;
        case CloseWait =>
          state := LastAck;
          pending0, pending1 := FINACK, NONE;
        case Listen =>
          Abort();
        case SynSent =>
          Abort();
        case SynRcvd =>
          pending0 := if pending0.ack then FINACK else FIN;
        case Established =>
          pending0 := if pending0.ack then FINACK else FIN;
        case FinWait2 =>
          return C.ConnectionClosing;
        case TimeWait =>
          return C.ConnectionClosing;
        case _ =>
          return C.InvalidState;
      }
      return C.NoErr;
    }

    method RetransmitFrom(newNxt: Value) returns (ok: bool)
      modifies this`snd, this`dupack, this`nRetransmit
      ensures ok == C.CanRewind(old(Tcb()), newNxt)
      ensures Tcb() == C.RetransmitFrom(old(Tcb()), newNxt)
    {
      hide LessThan;
      if !state.TxQueuedDataOpen() {
        return false;
      } else if LessThan(newNxt, snd.una) || LessThan(snd.nxt, newNxt) {
        return false;
      }
      snd := snd.(nxt := newNxt);
      dupack := 0;
      nRetransmit := 0;
      return true;
    }

    method PendingSegment(payload: nat) returns (seg: Option<Segment>)
      ensures seg == C.Pending(Tcb(), payload)
    {
      hide C.InFlight, Wrap;
      var pending := pending0;
      if challengeAcks < 0 {
        return Some(Segment(snd.nxt, rcv.nxt, 0, rcv.wnd, ACK));
      } else if !pending.HasCtl() && C.HasPendingRetransmit(Tcb()) {
        return Some(Segment(snd.una, rcv.nxt, Wrap(payload), rcv.wnd, ACK));
      }
      var canSend := state.TxQueuedDataOpen();
      var n := payload;
      if !canSend {
        n := 0;
      }
      if pending == NONE && n == 0 {
        return None;
      }
      var maxPayload := C.MaxSend(snd);
      if n > maxPayload {
        if maxPayload == 0 && pending == NONE {
          return None;
        }
        assert maxPayload <= snd.wnd;
        n := maxPayload;
      }
      if snd.mss > 0 && n > snd.mss {
        n := snd.mss;
      }
      if canSend {
        pending := Or(pending, ACK);
      } else {
        n := 0;
      }
      var ack: Value := 0;
      if pending.ack {
        ack := rcv.nxt;
      }
      var first := snd.nxt;
      if pending.rst {
        first := rstPtr;
      }
      return Some(Segment(first, ack, n, rcv.wnd, pending));
    }

    method Send(seg: Segment) returns (err: C.Err)
      modifies this
      ensures (Tcb(), err) == C.Send(old(Tcb()), seg)
    {
      hide C.OutgoingVerdict, LessThan, Wrap;
      err := C.OutgoingVerdict(Tcb(), seg);
      if err != C.NoErr {
        return;
      }
      match state {
        case Closed =>
          if seg.flags == SYN {
            PrepareToHandshake(seg.first, seg.wnd, SynSent);
          }
        case SynRcvd =>
          if seg.flags.fin {
            state := FinWait1;
          }
        case Established =>
          if seg.flags.fin {
            state := FinWait1;
          }
        case Closing =>
          if seg.flags.ack {
            state := TimeWait;
          }
        case CloseWait =>
          if seg.flags.fin {
            state := LastAck;
          }
        case _ =>
      }
      assert Tcb() == C.SendTransition(old(Tcb()), seg);
      SendQueue(seg);
    }

    /** The part of `Send` after the state transition. */
    method SendQueue(seg: Segment)
      modifies this
      ensures snd == C.NextSnd(old(snd), seg) && rcv == old(rcv).(wnd := seg.wnd)
      ensures pending0 == C.NextPending(old(pending0), old(pending1), seg.flags)
      ensures pending1 == if AndNot(old(pending0), seg.flags) == NONE then NONE else old(pending1)
      ensures challengeAcks == if seg.flags.ack then C.ChallengeSent(old(challengeAcks)) else old(challengeAcks)
      ensures nRetransmit == C.NextRetransmits(old(nRetransmit), LessThan(seg.first, old(snd).nxt))
      ensures unchanged(this`state, this`rstPtr, this`dupack)
    {
      hide LessThan, Wrap;
      pending0 := AndNot(pending0, seg.flags);
      if pending0 == NONE {
        pending0, pending1 := AndNot(pending1, if seg.flags.fin then FIN else NONE), NONE;
      }
      if challengeAcks < 0 && seg.flags.ack {
        if challengeAcks != -128 {
          challengeAcks := -challengeAcks;
        }
      }
      if LessThan(seg.first, snd.nxt) {
        if nRetransmit < 255 - C.RETRANSMIT_MAX_QUEUED - C.RETRANSMIT_AFTER_DUPACKS {
          nRetransmit := nRetransmit + 1;
        }
      } else {
        snd := snd.(nxt := Add(snd.nxt, seg.Len()));
      }
      rcv := rcv.(wnd := seg.wnd);
    }

    method TriggerChallengeAckEmit()
      modifies this`challengeAcks
      ensures Tcb() == C.ChallengeEmit(old(Tcb()))
    {
      if challengeAcks >= 0 {
        challengeAcks := -challengeAcks - 1;
      }
    }

    method HandleRst(first: Value) returns (err: C.Err)
      modifies this
      ensures (Tcb(), err) == C.HandleRst(old(Tcb()), first)
    {
      hide C.RstIrs, Wrap;
      match state {
        case SynSent =>
          Abort();
          return C.ErrClosed;
        case Listen =>
          return C.Drop;
        case SynRcvd =>
          pending0 := NONE;
          state := Listen;
          ResetSnd(Wrap(snd.iss + 100), snd.wnd);
          ResetRcv(rcv.wnd, C.RstIrs(rcv.irs));
          return C.Drop;
        case _ =>
      }
      if first != rcv.nxt {
        TriggerChallengeAckEmit();
        pending0 := Or(pending0, ACK);
        return C.Drop;
      }
      Abort();
      return C.ErrClosed;
    }

    method ValidateIncoming(seg: Segment) returns (err: C.Err)
      modifies this
      ensures (Tcb(), err) == C.ValidateIncoming(old(Tcb()), seg)
    {
      hide C.IncomingVerdict, LessThan, Wrap, C.HandleRst;
      var established := state.Established?;
      var acksOld, acksUnsent := C.AcksOld(Tcb(), seg), C.AcksUnsent(Tcb(), seg);
      err := C.IncomingVerdict(Tcb(), seg);
      if err != C.NoErr {
        if err.SeqNotInWindow? || err.LastNotInWindow? || err.RequireSequential? || err.ZeroWindow? {
          if !seg.flags.rst {
            if C.TooManyChallenges(Tcb()) {
              Abort();
              return C.ErrClosed;
            }
            TriggerChallengeAckEmit();
          }
        }
        return;
      }
      if seg.flags.rst {
        err := HandleRst(seg.first);
        return;
      }
      if established && acksOld && !(seg.datalen > 0 || seg.flags.fin) {
        return C.NoErr;
      } else if established && acksUnsent {
        pending0 := Or(pending0, ACK);
        return C.Drop;
      } else if state.IsPreestablished() && (acksOld || acksUnsent) {
        pending0 := RST;
        rstPtr := seg.ackno;
        ResetSnd(snd.iss, seg.wnd);
        return C.Drop;
      }
      return C.NoErr;
    }

    method RcvListen(seg: Segment) returns (pending: Flags, err: C.Err)
      requires state.Listen?
      modifies this`snd, this`rcv, this`pending0, this`state
      ensures (Tcb(), pending, err) == C.Handle(old(Tcb()), seg)
    {
      if !seg.flags.syn {
        return NONE, C.ExpectedSyn;
      }
      ResetSnd(snd.iss, seg.wnd);
      ResetRcv(rcv.wnd, seg.first);
      pending0 := SYNACK;
      state := SynRcvd;
      return SYNACK, C.NoErr;
    }

    method RcvSynSent(seg: Segment) returns (pending: Flags, err: C.Err)
      requires state.SynSent?
      modifies this`snd, this`rcv, this`state
      ensures (Tcb(), pending, err) == C.Handle(old(Tcb()), seg)
    {
      hide Wrap;
      if !seg.flags.syn {
        return NONE, C.ExpectedSyn;
      } else if seg.flags.ack && seg.ackno != Wrap(snd.una + 1) {
        return NONE, C.BadSegack;
      }
      if seg.flags.ack {
        state := Established;
        pending := ACK;
        ResetRcv(rcv.wnd, seg.first);
      } else {
        pending := SYNACK;
        state := SynRcvd;
        ResetSnd(snd.iss, seg.wnd);
        ResetRcv(rcv.wnd, seg.first);
      }
      return pending, C.NoErr;
    }

    method RcvSynRcvd(seg: Segment) returns (pending: Flags, err: C.Err)
      requires state.SynRcvd?
      modifies this`state
      ensures (Tcb(), pending, err) == C.Handle(old(Tcb()), seg)
    {
      hide Wrap;
      if !seg.flags.ack || seg.ackno != Wrap(snd.una + 1) {
        return NONE, C.BadSegack;
      }
      state := Established;
      return NONE, C.NoErr;
    }

    method RcvEstablished(seg: Segment) returns (pending: Flags, err: C.Err)
      requires state.Established?
      modifies this`state
      ensures (Tcb(), pending, err) == C.Handle(old(Tcb()), seg)
    {
      pending := NONE;
      if seg.datalen > 0 || seg.flags.fin {
        pending := ACK;
        if seg.flags.fin {
          state := CloseWait;
        }
      }
      return pending, C.NoErr;
    }

    method RcvFinWait1(seg: Segment) returns (pending: Flags, err: C.Err)
      requires state.FinWait1?
      modifies this`state
      ensures (Tcb(), pending, err) == C.Handle(old(Tcb()), seg)
    {
      var fin, ack := seg.flags.fin, seg.flags.ack;
      pending := NONE;
      if fin && ack && seg.ackno == snd.nxt {
        state := TimeWait;
      } else if fin {
        state := Closing;
      } else if ack && seg.ackno == snd.nxt {
        state := FinWait2;
      } else if !ack {
        return NONE, C.FinwaitExpectedAck;
      }
      if seg.datalen > 0 || fin {
        pending := ACK;
      }
      return pending, C.NoErr;
    }

    method RcvFinWait2(seg: Segment) returns (pending: Flags, err: C.Err)
      requires state.FinWait2?
      modifies this`state
      ensures (Tcb(), pending, err) == C.Handle(old(Tcb()), seg)
    {
      if seg.flags.fin {
        state := TimeWait;
        return ACK, C.NoErr;
      }
      if seg.datalen > 0 {
        return ACK, C.NoErr;
      }
      return NONE, C.NoErr;
    }

    /** The dispatch of `Recv`; `Panic` stands for the default case. */
    method Dispatch(seg: Segment) returns (pending: Flags, err: C.Err)
      modifies this
      ensures (Tcb(), pending, err) == C.Handle(old(Tcb()), seg)
    {
      hide Wrap;
      pending, err := NONE, C.NoErr;
      match state {
        case Listen => pending, err := RcvListen(seg);
        case SynSent => pending, err := RcvSynSent(seg);
        case SynRcvd => pending, err := RcvSynRcvd(seg);
        case Established => pending, err := RcvEstablished(seg);
        case FinWait1 => pending, err := RcvFinWait1(seg);
        case FinWait2 => pending, err := RcvFinWait2(seg);
        case CloseWait =>
        case LastAck =>
          if seg.flags.ack {
            Abort();
          }
        case Closing =>
          if seg.flags.ack {
            state := TimeWait;
          }
        case _ =>
          err := C.Panic;
      }
    }

    method Recv(seg: Segment) returns (err: C.Err)
      modifies this
      ensures (Tcb(), err) == C.Recv(old(Tcb()), seg)
    {
      hide C.ValidateIncoming, C.Handle, C.UpdateWindow, C.UpdateUna, Wrap;
      err := ValidateIncoming(seg);
      if err != C.NoErr {
        return;
      }
      if seg.flags.syn && !state.IsPreestablished() {
        TriggerChallengeAckEmit();
        pending0 := Or(pending0, ACK);
        return C.Drop;
      }
      var pending;
      pending, err := Dispatch(seg);
      if err != C.NoErr {
        return;
      }
      challengeAcks := 0;
      pending0 := Or(pending0, pending);
      UpdateWindow(seg);
      UpdateUna(seg);
      rcv := rcv.(nxt := Add(rcv.nxt, seg.Len()));
    }

    method UpdateWindow(seg: Segment)
      modifies this`snd
      ensures Tcb() == C.UpdateWindow(old(Tcb()), seg)
    {
      hide LessThan;
      var wlUnset := snd.wl1 == 0 && snd.wl2 == 0;
      if wlUnset || LessThan(snd.wl1, seg.first) || (snd.wl1 == seg.first && LessThanEq(snd.wl2, seg.ackno)) {
        if LessThan(snd.una, seg.ackno) || seg.wnd > snd.wnd {
          snd := snd.(wnd := seg.wnd);
        }
        snd := snd.(wl1 := seg.first, wl2 := seg.ackno);
      }
    }

    method UpdateUna(seg: Segment)
      modifies this`snd, this`dupack, this`nRetransmit
      ensures Tcb() == C.UpdateUna(old(Tcb()), seg)
    {
      hide LessThan;
      if seg.flags.ack && LessThanEq(seg.ackno, snd.nxt) {
        if C.IsDupAck(Tcb(), seg.ackno) && state.TxDataOpen() && !seg.flags.HasCtl()
           && dupack < nRetransmit + C.RETRANSMIT_MAX_QUEUED + C.RETRANSMIT_MAX_QUEUED {
          dupack := dupack + 1;
        } else if LessThan(snd.una, seg.ackno) {
          snd := snd.(una := seg.ackno);
          dupack := 0;
          nRetransmit := 0;
        }
      }
    }
  }
}
