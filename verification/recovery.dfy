/**
  How a connection answers trouble (tcp/control.go, tcp/control_rcvhandlers.go, tcp/handler.go): duplicate
  acknowledgements, segments out of place, acknowledgements of what was never sent, and held data that a read makes
  room for; and what it learns from the peer's SYN.
*/
module Recovery {
  import opened Options
  import opened Bytes
  import opened SeqNum
  import opened Segments
  import opened Control
  import R = ControlRuns
  import opened TxQueue
  import opened Reassembling
  import opened RxStream
  import opened HandlerSpec
  import opened StreamEnd
  import opened Offers

  // ---- duplicate acknowledgements

  /** The segment acknowledges what is already acknowledged, with something outstanding. */
  predicate Repeats(s: Tcb, seg: Segment) {
    seg.flags.ack && !seg.flags.HasCtl() && seg.ackno == s.snd.una && LessThan(s.snd.una, s.snd.nxt)
  }

  lemma RepeatHandled(s: Tcb, seg: Segment)
    requires s.state.TxDataOpen() && !seg.flags.fin
    ensures Handle(s, seg).0 == s && Handle(s, seg).1 in {NONE, ACK} && Handle(s, seg).2 == NoErr
  {
    hide Wrap;
  }

  lemma WindowOnly(s: Tcb, seg: Segment)
    ensures var t := UpdateWindow(s, seg); t == s.(snd := t.snd) && t.snd.una == s.snd.una && t.snd.nxt == s.snd.nxt
  {
    hide LessThan, LessThanEq;
  }

  lemma SameControls(f: Flags, g: Flags)
    requires g in {NONE, ACK}
    ensures Or(f, g).HasCtl() <==> f.HasCtl()
  {
  }

  /** It is counted, up to four more than were answered, whether it carries data or not. */
  lemma RepeatCounted(s: Tcb, seg: Segment)
    requires s.state.TxDataOpen() && Recv(s, seg).1 == NoErr && Repeats(s, seg)
    ensures var s' := Recv(s, seg).0;
            && s'.state == s.state && s'.snd.una == s.snd.una && s'.snd.nxt == s.snd.nxt
            && s'.nRetransmit == s.nRetransmit && s'.challengeAcks == 0 && s'.rcv.wnd == s.rcv.wnd
            && (s.pending.HasCtl() <==> s'.pending.HasCtl())
            && s'.dupack == if s.dupack < s.nRetransmit + 4 then s.dupack + 1 else s.dupack
  {
    hide ValidateIncoming, Handle, UpdateWindow, LessThan, Wrap, Segment.Len, Add, AcksOld, AcksUnsent, Or;
    R.ValidateEffect(s, seg);
    RepeatHandled(s, seg);
    SameControls(s.pending, Handle(s, seg).1);
    WindowOnly(s.(challengeAcks := 0, pending := Or(s.pending, Handle(s, seg).1)), seg);
    R.NotBeforeItself(s.snd.una);
  }

  /** The segments are taken one after the other, and all repeat the acknowledgement. */
  predicate AllRepeat(s: Tcb, segs: seq<Segment>)
    decreases |segs|
  {
    segs != [] ==> Repeats(s, segs[0]) && Recv(s, segs[0]).1 == NoErr && AllRepeat(Recv(s, segs[0]).0, segs[1..])
  }

  function After(s: Tcb, segs: seq<Segment>): Tcb
    decreases |segs|
  {
    if segs == [] then s else After(Recv(s, segs[0]).0, segs[1..])
  }

  lemma {:induction false} RepeatsCounted(s: Tcb, segs: seq<Segment>)
    requires s.state.TxDataOpen() && AllRepeat(s, segs) && 0 <= s.dupack <= s.nRetransmit + 4
    ensures var t := After(s, segs);
            && t.state == s.state && t.snd.una == s.snd.una && t.snd.nxt == s.snd.nxt && t.nRetransmit == s.nRetransmit
            && t.rcv.wnd == s.rcv.wnd && (s.pending.HasCtl() <==> t.pending.HasCtl())
            && (segs != [] ==> t.challengeAcks == 0) && t.dupack == Min(s.dupack + |segs|, s.nRetransmit + 4)
    decreases |segs|
  {
    hide Recv, Repeats;
    if segs != [] {
      RepeatCounted(s, segs[0]);
      RepeatsCounted(Recv(s, segs[0]).0, segs[1..]);
    }
  }

  /** The third repetition, and none before it, has the oldest data sent again. */
  lemma ThirdRepeatResends(s: Tcb, segs: seq<Segment>, payload: Size)
    requires s.state.TxDataOpen() && AllRepeat(s, segs) && segs != []
    requires s.dupack == 0 && s.nRetransmit == 0 && !s.pending.HasCtl()
    ensures var t := After(s, segs);
            var p := Pending(t, payload);
            && (p.Some? && p.value.first == s.snd.una <==> |segs| >= 3)
            && (|segs| >= 3 ==> p.value == Segment(s.snd.una, t.rcv.nxt, payload, s.rcv.wnd, ACK))
  {
    hide Recv, Repeats, LessThan, Wrap, MaxSend;
    RepeatsCounted(s, segs);
    assert s.snd.una != s.snd.nxt by { Outstanding(s, segs[0]); }
    assert Wrap(payload) == payload by { WrapIsMod(payload); }
  }

  lemma Outstanding(s: Tcb, seg: Segment)
    requires Repeats(s, seg)
    ensures s.snd.una != s.snd.nxt
  {
    R.NotBeforeItself(s.snd.una);
  }

  /** Once it was sent again, it takes one more repetition. */
  lemma ResentOncePerRepeat(s: Tcb, segs: seq<Segment>, p: Segment, seg: Segment)
    requires s.state.TxDataOpen() && AllRepeat(s, segs) && |segs| == 3 && s.dupack == 0 && s.nRetransmit == 0
    requires p.first == s.snd.una && !p.flags.fin && Send(After(s, segs), p).1 == NoErr
    requires var t := Send(After(s, segs), p).0; Repeats(t, seg) && Recv(t, seg).1 == NoErr
    ensures var t := Send(After(s, segs), p).0;
            !HasPendingRetransmit(t) && HasPendingRetransmit(Recv(t, seg).0)
  {
    hide Recv, LessThan, Wrap, OutgoingVerdict, After, AllRepeat;
    RepeatsCounted(s, segs);
    assert LessThan(s.snd.una, s.snd.nxt) by { FirstRepeats(s, segs); }
    RepeatCounted(Send(After(s, segs), p).0, seg);
  }

  lemma FirstRepeats(s: Tcb, segs: seq<Segment>)
    requires AllRepeat(s, segs) && segs != []
    ensures LessThan(s.snd.una, s.snd.nxt)
  {
    hide Recv, LessThan;
  }

  /** A duplicate acknowledgement in the sense of section 2 of RFC 5681. */
  predicate StandardDuplicate(s: Tcb, seg: Segment) {
    Repeats(s, seg) && seg.datalen == 0 && seg.wnd == s.snd.wnd
  }

  /** What is counted is one if and only if it carries no data and repeats the window. */
  lemma CountsAsStandard(s: Tcb, seg: Segment)
    requires s.state.TxDataOpen() && Recv(s, seg).1 == NoErr && 0 <= s.dupack < s.nRetransmit + 4
    ensures (Recv(s, seg).0.dupack > s.dupack <==> StandardDuplicate(s, seg)) <==>
            Repeats(s, seg) ==> seg.datalen == 0 && seg.wnd == s.snd.wnd
  {
    hide Recv, Wrap, LessThan, LessThanEq;
    if Repeats(s, seg) {
      RepeatCounted(s, seg);
    } else {
      OthersNotCounted(s, seg);
    }
  }

  /** A segment with a byte of data that is counted nevertheless. */
  lemma DataCounted()
    ensures var s := RESET.(state := Established, snd := SendSpace(100, 100, 102, 1000, 0, 7, 7),
                            rcv := RecvSpace(500, 500, 1000));
            var seg := Segment(500, 100, 1, 1000, ACK);
            Recv(s, seg).1 == NoErr && Recv(s, seg).0.dupack == 1 && !StandardDuplicate(s, seg)
  {
  }

  lemma OthersNotCounted(s: Tcb, seg: Segment)
    requires s.state.TxDataOpen() && Recv(s, seg).1 == NoErr && 0 <= s.dupack && !Repeats(s, seg)
    ensures Recv(s, seg).0.dupack <= s.dupack
  {
    hide Wrap, LessThan, LessThanEq, ValidateIncoming, Handle, UpdateWindow, Segment.Len, Add, AcksOld, AcksUnsent;
    R.ValidateEffect(s, seg);
    R.RecvRefusal(s, seg);
    CountKept(s, seg);
    var h := Handle(s, seg).0;
    WindowOnly(h.(challengeAcks := 0, pending := Or(h.pending, Handle(s, seg).1)), seg);
  }

  lemma CountKept(s: Tcb, seg: Segment)
    requires s.state.TxDataOpen()
    ensures var h := Handle(s, seg).0; h.dupack == s.dupack && h.snd == s.snd
  {
    hide Wrap;
  }

  lemma NoLength(at: Value, seg: Segment)
    requires seg.datalen == 0 && !seg.flags.fin && !seg.flags.syn
    ensures seg.Len() == 0 && Add(at, seg.Len()) == at
  {
  }

  lemma AtStart(at: Value, size: Size)
    ensures size > 0 ==> InWindow(at, at, size)
  {
    AddThenSizeof(at, size);
  }

  // ---- segments out of place

  /** The challenge ACK that answers one, and the state once it was sent. */
  function Answered(s: Tcb, seg: Segment): Tcb {
    var t := Recv(s, seg).0;
    Send(t, Segment(t.snd.nxt, t.rcv.nxt, 0, t.rcv.wnd, ACK)).0
  }

  predicate OutOfPlace(s: Tcb, seg: Segment) {
    && s.state.TxDataOpen() && s.rcv.wnd <= MAX_WINDOW
    && seg.first != s.rcv.nxt && !seg.flags.rst && seg.wnd <= MAX_WINDOW
  }

  lemma StrayChallenged(s: Tcb, seg: Segment)
    requires OutOfPlace(s, seg) && s.challengeAcks >= 0
    ensures s.challengeAcks > 8 ==> Recv(s, seg) == (RESET, ErrClosed)
    ensures s.challengeAcks <= 8 ==> Recv(s, seg).0 == s.(challengeAcks := -s.challengeAcks - 1)
  {
    hide Wrap, LessThan, InWindow, Segment.Last, Handle, UpdateWindow, UpdateUna;
  }

  lemma ChallengeGoes(s: Tcb)
    requires s.state.TxDataOpen() && s.rcv.wnd <= MAX_WINDOW && -9 <= s.challengeAcks < 0
    ensures var p := Segment(s.snd.nxt, s.rcv.nxt, 0, s.rcv.wnd, ACK);
            && Pending(s, 0) == Some(p) && Send(s, p).1 == NoErr
            && var t := Send(s, p).0;
               t.state == s.state && t.rcv == s.rcv && t.snd == s.snd && t.challengeAcks == -s.challengeAcks
  {
    hide Wrap, LessThan, InWindow, Segment.Len, Add, AndNot;
    var p := Segment(s.snd.nxt, s.rcv.nxt, 0, s.rcv.wnd, ACK);
    NoLength(s.snd.nxt, p);
    AtStart(s.snd.nxt, s.snd.wnd);
    R.NotBeforeItself(s.snd.nxt);
  }

  function Rounds(s: Tcb, seg: Segment, n: nat): Tcb {
    if n == 0 then s else Answered(Rounds(s, seg, n - 1), seg)
  }

  /** Nine segments out of place in a row are answered with what is expected, and the tenth ends the connection. */
  lemma {:induction false} TenthStrayEnds(s: Tcb, seg: Segment, n: nat)
    requires OutOfPlace(s, seg) && s.challengeAcks == 0 && n <= 9
    ensures var t := Rounds(s, seg, n);
            && t.challengeAcks == n && OutOfPlace(t, seg) && t.rcv == s.rcv && t.snd == s.snd
            && (Recv(t, seg) == (RESET, ErrClosed) <==> n == 9)
            && (n < 9 ==> Pending(Recv(t, seg).0, 0) == Some(Segment(s.snd.nxt, s.rcv.nxt, 0, s.rcv.wnd, ACK)))
  {
    hide Recv, Send, Pending;
    if n > 0 {
      var r := Rounds(s, seg, n - 1);
      TenthStrayEnds(s, seg, n - 1);
      StrayChallenged(r, seg);
      ChallengeGoes(Recv(r, seg).0);
    }
    var t := Rounds(s, seg, n);
    StrayChallenged(t, seg);
    if n < 9 {
      ChallengeGoes(Recv(t, seg).0);
    }
  }

  // ---- acknowledgements of what was never sent

  /** While a connection is opening they are answered with a reset that carries their number. */
  lemma BadAckReset(s: Tcb, seg: Segment, payload: nat)
    requires s.state.IsPreestablished() && IncomingVerdict(s, seg) == NoErr && !ChallengePending(s)
    requires seg.flags.ack && !seg.flags.rst && !(LessThan(s.snd.una, seg.ackno) && LessThanEq(seg.ackno, s.snd.nxt))
    ensures Recv(s, seg).1 == Drop && Recv(s, seg).0.state == s.state
    ensures Pending(Recv(s, seg).0, payload) == Some(Segment(seg.ackno, 0, 0, s.rcv.wnd, RST))
  {
    hide Wrap, LessThan, LessThanEq, IncomingVerdict;
  }

  /** Once it is open they are answered with the number expected and change nothing. */
  lemma UnsentAckAnswered(s: Tcb, seg: Segment)
    requires s.state.Established? && IncomingVerdict(s, seg) == NoErr && !seg.flags.rst
    requires seg.flags.ack && !LessThanEq(seg.ackno, s.snd.nxt) && LessThan(s.snd.una, seg.ackno)
    ensures Recv(s, seg) == (s.(pending := s.pending.(ack := true)), Drop) && WillAck(Recv(s, seg).0, s.rcv.nxt)
  {
    hide Wrap, LessThan, LessThanEq, IncomingVerdict, WillAck;
    PendingAcks(Recv(s, seg).0);
  }

  // ---- the window

  lemma {:induction false} HeldFits(held: seq<Held>, nxt: Value, r: int, ahead: seq<byte>, S: seq<byte>)
    requires AllInStep(held, nxt, r, ahead, S) && Sorted(held, nxt, r)
    ensures held != [] ==> Pos(held[0], nxt, r) + HeldBytes(held) <= r + |ahead|
    decreases |held|
  {
    hide Pos;
    if held != [] {
      var tail := held[1..];
      assert InStep(held[0], nxt, r, ahead, S);
      forall i | 0 <= i < |tail|
        ensures InStep(tail[i], nxt, r, ahead, S)
      {
        assert tail[i] == held[i + 1];
      }
      forall i, j | 0 <= i < j < |tail|
        ensures Before(tail[i], tail[j], nxt, r)
      {
        assert tail[i] == held[i + 1] && tail[j] == held[j + 1];
      }
      HeldFits(tail, nxt, r, ahead, S);
      if tail != [] {
        assert Before(held[0], held[1], nxt, r);
      }
    }
  }

  /** Bytes to read, bytes held and the window are together the receive buffer; held bytes never close the window. */
  lemma WindowConserves(h: HView, S: seq<byte>, base: int, r: nat)
    requires Lockstep(Rx(h), S, base, r)
    ensures |h.contents| + HeldBytes(h.held) + RecvWindow(h) == |h.contents| + |h.ahead|
    ensures h.held != [] ==> RecvWindow(h) > 0
  {
    hide Pos, Wrap, InStep;
    HeldFits(h.held, h.tcb.rcv.nxt, r, h.ahead, S);
  }

  /** Every segment of an open connection carries that window. */
  lemma SentWindow(h: HView, room: nat, steer: Steer)
    requires Total(h.tx.spans) == |h.tx.sent| && |h.contents| + |h.ahead| < MOD && !h.requeue && !AwaitingSynSend(h)
    ensures var r := HSend(h, room, steer); r.seg.Some? ==> r.seg.value.wnd == RecvWindow(h)
  {
    hide Total, Send, Pending, TxSend, HRewind, HasPending, WantsClose, NothingToDo, ClosesNow, Room, Close, HeldBytes;
    RewindTotals(h, steer.rewind);
    RewindRx(h, steer.rewind);
  }

  // ---- reads

  /** What delivering held bytes leaves. */
  lemma DeliveredAcks(w: HView)
    requires !w.shutdownRx
    ensures var w' := DeliverHeld(w);
            var more := |w'.contents| - |w.contents|;
            && more >= 0 && |w'.contents| + |w'.ahead| == |w.contents| + |w.ahead|
            && w'.tcb.rcv == w.tcb.rcv.(nxt := w'.tcb.rcv.nxt) && w'.tcb.snd == w.tcb.snd
            && w'.tcb.rcv.nxt == Wrap(w.tcb.rcv.nxt + more) && (more > 0 ==> w'.tcb.pending.ack)
  {
    hide Deliver, Wrap;
    assert Wrap(w.tcb.rcv.nxt) == w.tcb.rcv.nxt by { WrapIsMod(w.tcb.rcv.nxt); }
  }

  /** A read that makes room for held bytes takes them in and acknowledges them. */
  lemma ReadTakesHeld(h: HView, want: nat)
    requires !h.shutdownRx && |h.contents| + |h.ahead| < MOD && want > 0 && h.contents != []
    ensures var h', n := HRead(h, want).0, Min(want, |h.contents|);
            var more := |h'.contents| - (|h.contents| - n);
            && more >= 0 && h'.tcb.rcv.nxt == Wrap(h.tcb.rcv.nxt + more)
            && |h'.contents| + |h'.ahead| == |h.contents| + |h.ahead|
            && (more > 0 ==> WillAck(h'.tcb, h'.tcb.rcv.nxt))
  {
    hide DeliverHeld, Wrap, RecvWindow, WillAck;
    var n, h' := Min(want, |h.contents|), HRead(h, want).0;
    DeliveredAcks(h.(contents := h.contents[n..], ahead := h.ahead + h.contents[..n]));
    if h'.tcb.pending.ack {
      PendingAcks(h'.tcb);
    }
  }

  /** One that opens the window by half of the buffer, or by a segment of the peer's, has the next segment say so. */
  lemma ReadAnnounces(h: HView, want: nat)
    requires !h.shutdownRx && |h.contents| + |h.ahead| < MOD && want > 0 && h.contents != []
    ensures var h' := HRead(h, want).0;
            && |h'.ahead| < MOD
            && var gain, mss := RecvWindow(h') - h.tcb.rcv.wnd, h.tcb.snd.mss;
               gain > 0 && (gain >= (|h.contents| + |h.ahead|) / 2 || gain >= mss > 0) ==>
                 WillAck(h'.tcb, h'.tcb.rcv.nxt)
  {
    hide DeliverHeld, Wrap, RecvWindow, WillAck;
    var n, h' := Min(want, |h.contents|), HRead(h, want).0;
    var w := DeliverHeld(h.(contents := h.contents[n..], ahead := h.ahead + h.contents[..n]));
    DeliveredAcks(h.(contents := h.contents[n..], ahead := h.ahead + h.contents[..n]));
    assert RecvWindow(h') == RecvWindow(w) by { SameWindow(h', w); }
    if h'.tcb.pending.ack {
      PendingAcks(h'.tcb);
    }
  }

  lemma SameWindow(v: HView, w: HView)
    requires v.ahead == w.ahead && v.held == w.held && v.slots == w.slots && |v.ahead| < MOD
    ensures RecvWindow(v) == RecvWindow(w)
  {
  }

  // ---- what the peer's SYN says

  /** The window, the segment size and the port of the SYN that opens a connection are kept. */
  lemma SynLearned(h: HView, seg: Segment, payload: seq<byte>, mss: Size, port: nat)
    requires seg.datalen == |payload| && Total(h.tx.spans) == |h.tx.sent|
    requires h.tcb.state.Listen? || (h.tcb.state.SynSent? && h.tcb.snd.wl1 == 0 && h.tcb.snd.wl2 == 0)
    requires seg.flags.syn && HRecv(h, seg, payload, mss, port).1 == HOk
    ensures var h' := HRecv(h, seg, payload, mss, port).0;
            && h'.tcb.snd.wnd == seg.wnd && (mss > 0 ==> h'.tcb.snd.mss == mss)
            && h'.remotePort == if h.remotePort == 0 then port else h.remotePort
  {
    hide Total, Recv, Place, InWindow, TxAck, TakePayload, Segment.Last;
    SynWindow(h.tcb, seg);
    TakenKeeps(h.(tcb := Recv(h.tcb, seg).0), payload);
  }

  lemma SynWindow(s: Tcb, seg: Segment)
    requires s.state.Listen? || (s.state.SynSent? && s.snd.wl1 == 0 && s.snd.wl2 == 0)
    requires seg.flags.syn && Recv(s, seg).1 == NoErr
    ensures Recv(s, seg).0.snd.wnd == seg.wnd && Recv(s, seg).0.state in {SynRcvd, Established}
  {
    hide Wrap, LessThan, LessThanEq, IncomingVerdict;
    if s.state.SynSent? && seg.flags.ack {
      AckOfSyn(s, seg);
    }
  }

  lemma AckOfSyn(s: Tcb, seg: Segment)
    requires s.state.SynSent? && seg.flags.ack && Recv(s, seg).1 == NoErr
    ensures LessThan(s.snd.una, seg.ackno)
  {
    hide Wrap, LessThan, LessThanEq, Handle, UpdateWindow, UpdateUna;
    R.RecvRefusal(s, seg);
  }

  lemma TakenKeeps(v: HView, payload: seq<byte>)
    requires |payload| <= |v.ahead| || v.shutdownRx
    ensures var w := TakePayload(v, payload); w.tcb.snd == v.tcb.snd && w.remotePort == v.remotePort && w.tx == v.tx
  {
    hide Deliver, Wrap;
  }

  // ---- and for how long

  lemma RecvMss(s: Tcb, seg: Segment)
    requires !s.state.IsPreestablished()
    ensures Recv(s, seg).0.state.Closed? || Recv(s, seg).0.snd.mss == s.snd.mss
  {
    hide Wrap, LessThan, LessThanEq, IncomingVerdict, AcksOld, AcksUnsent, Handle;
    SndHandled(s, seg);
    R.HandleErrors(s, seg);
  }

  lemma SendMss(s: Tcb, seg: Segment)
    requires !s.state.Closed?
    ensures Send(s, seg).0.snd.mss == s.snd.mss
  {
    hide Wrap, LessThan, OutgoingVerdict;
  }

  lemma HandlerRecvMss(h: HView, seg: Segment, payload: seq<byte>)
    requires seg.datalen == |payload| && Total(h.tx.spans) == |h.tx.sent| && Opened(h.tcb.state)
    ensures var h' := HRecv(h, seg, payload, 0, 0).0; h'.tcb.state.Closed? || h'.tcb.snd.mss == h.tcb.snd.mss
  {
    hide Total, Recv, Place, OutOfOrder, TxAck, TakePayload, IsKeepalive;
    RecvMss(h.tcb, seg);
    var v := h.(tcb := Recv(h.tcb, seg).0);
    if |payload| <= |v.ahead| || v.shutdownRx {
      TakenKeeps(v, payload);
    }
  }

  lemma HandlerSendMss(h: HView, room: nat, steer: Steer, after: HView)
    requires BuffersOk(h) && Opened(h.tcb.state) && SentView(HSend(h, room, steer), after)
    ensures after.tcb.state.Closed? || after.tcb.snd.mss == h.tcb.snd.mss
  {
    hide Total, HRewind, HasPending, WantsClose, NothingToDo, ClosesNow, Room, SendSegment, Close;
    RewindTotals(h, steer.rewind);
    RewindRx(h, steer.rewind);
    RewindMss(h, steer.rewind);
    var w := HRewind(h, steer.rewind);
    var x := w.(closing := WantsClose(w));
    SegmentMss(x, Room(w.tcb, w.tx, room, steer.limit));
    CloseMss(w.tcb);
    if Close(w.tcb).1 == NoErr && !Close(w.tcb).0.state.Closed? {
      SegmentMss(x.(tcb := Close(w.tcb).0, closing := false), Room(Close(w.tcb).0, w.tx, room, steer.limit));
    }
  }

  lemma RewindMss(h: HView, to: Option<Value>)
    requires Total(h.tx.spans) == |h.tx.sent|
    ensures HRewind(h, to).tcb.snd.mss == h.tcb.snd.mss
  {
    hide Total, Holding, TxRewind, LessThan;
  }

  lemma CloseMss(s: Tcb)
    requires Opened(s.state)
    ensures Close(s).0.snd == s.snd && Opened(Close(s).0.state)
  {
  }

  lemma SegmentMss(v: HView, room: nat)
    requires Total(v.tx.spans) == |v.tx.sent| && |v.contents| + |v.ahead| < MOD && Opened(v.tcb.state)
    ensures var r := SendSegment(v, false, room);
            && r.v.tcb.snd.mss == v.tcb.snd.mss
            && (r.teardown.Some? ==> r.teardown.value.state.Closed? || r.teardown.value.snd.mss == v.tcb.snd.mss)
  {
    hide Total, Send, TxSend, Pending, RecvWindow;
    forall seg: Segment
      ensures Send(v.tcb, seg).0.snd.mss == v.tcb.snd.mss
    {
      SendMss(v.tcb, seg);
    }
  }

  lemma EventMss(x: Reader, e: Event, S: seq<byte>, base: int)
    requires CanBe(x, e, S, base) && Opened(x.h.tcb.state)
    ensures var x' := Then(x, e); x'.h.tcb.state.Closed? || x'.h.tcb.snd.mss == x.h.tcb.snd.mss
  {
    hide Total, HSend, HRecv, SentView, Near, Honest, WindowUpdateDue, DeliverHeld, TxWriteError;
    if Fit(x, e) {
      match e {
        case Writes(_) =>
        case Closes =>
        case Sends(room, steer, after) => HandlerSendMss(x.h, room, steer, after);
        case Gets(seg, payload, _) => HandlerRecvMss(x.h, seg, payload);
        case Strays(seg, payload) => HandlerRecvMss(x.h, seg, payload);
        case Reads(want) =>
          if !x.h.shutdownRx {
            var n := Min(want, |x.h.contents|);
            DeliveredAcks(x.h.(contents := x.h.contents[n..], ahead := x.h.ahead + x.h.contents[..n]));
          }
      }
    }
  }

  /** The peer's segment size holds for as long as the connection does. */
  lemma {:induction false} SegmentSizeLasts(xs: seq<Reader>, es: seq<Event>, S: seq<byte>, base: int, i: nat)
    requires IsHistory(xs, es, S, base) && i < |xs| && forall k :: 0 <= k <= i ==> Opened(xs[k].h.tcb.state)
    ensures xs[i].h.tcb.snd.mss == xs[0].h.tcb.snd.mss
  {
    hide CanBe, Then, Newborn;
    if i > 0 {
      SegmentSizeLasts(xs, es, S, base, i - 1);
      EventMss(xs[i - 1], es[i - 1], S, base);
    }
  }

  // ---- what the control block lets out

  /** On an open connection a segment goes out exactly if it fits the window where it starts, or lies below SND.NXT. */
  lemma LetOutExactly(s: Tcb, seg: Segment)
    requires Opened(s.state) && !seg.flags.rst && seg.datalen < HALF && s.snd.wnd <= MAX_WINDOW
    ensures var off := Sizeof(s.snd.nxt, seg.first);
            Send(s, seg).1 == NoErr <==>
              && seg.wnd <= MAX_WINDOW && (seg.flags.ack ==> seg.ackno == s.rcv.nxt)
              && !(seg.datalen > 0 && s.state.FinWait2?)
              && (|| Sizeof(s.snd.una, seg.first) < InFlight(s.snd)
                  || (off < s.snd.wnd && off + seg.Len() <= s.snd.wnd)
                  || (off == 0 && seg.datalen == 0 && s.snd.wnd == 0))
  {
    hide Wrap, LessThan, InWindow, Segment.Len, Segment.Last;
    WindowMeans(seg.first, s.snd.nxt, s.snd.wnd);
    WindowMeans(seg.Last(), s.snd.nxt, s.snd.wnd);
    LastPlace(s.snd.nxt, seg);
    NoDistance(s.snd.nxt, seg.first);
    LengthIs(seg);
  }

  lemma NoDistance(v: Value, w: Value)
    ensures Sizeof(v, w) == 0 <==> v == w
  {
    WrapIsMod(w - v);
  }

  lemma WindowMeans(v: Value, first: Value, size: Size)
    ensures InWindow(v, first, size) <==> Sizeof(first, v) < size
  {
    AddThenSizeof(first, size);
  }

  lemma LastPlace(nxt: Value, seg: Segment)
    ensures seg.Len() == 0 ==> seg.Last() == seg.first
    ensures seg.Len() > 0 && Sizeof(nxt, seg.first) + seg.Len() <= MOD ==>
              Sizeof(nxt, seg.Last()) == Sizeof(nxt, seg.first) + seg.Len() - 1
  {
    hide Wrap, Segment.Len;
    if seg.Len() > 0 && Sizeof(nxt, seg.first) + seg.Len() <= MOD {
      WrapAdd(seg.first + seg.Len(), -1);
      WrapAdd(seg.first + seg.Len() - 1, 0 - nxt);
      WrapAdd(seg.first - nxt, seg.Len() - 1);
      assert Wrap(Sizeof(nxt, seg.first) + seg.Len() - 1) == Sizeof(nxt, seg.first) + seg.Len() - 1 by {
        WrapIsMod(Sizeof(nxt, seg.first) + seg.Len() - 1);
      }
    }
  }

  // ---- and in

  /**
    An established connection takes a segment exactly if it is the next one, fits the window, and does not
    acknowledge, other than as a bare repetition, what was not sent.
  */
  lemma LetInExactly(s: Tcb, seg: Segment)
    requires s.state.Established? && seg.datalen < HALF && s.rcv.wnd <= MAX_WINDOW
    ensures Recv(s, seg).1 == NoErr <==>
              && seg.wnd <= MAX_WINDOW && !seg.flags.rst && !seg.flags.syn && seg.first == s.rcv.nxt
              && (seg.Len() <= s.rcv.wnd || (seg.datalen == 0 && s.rcv.wnd == 0))
              && (seg.flags.ack ==>
                    || LessThanEq(seg.ackno, s.snd.nxt)
                    || (!LessThan(s.snd.una, seg.ackno) && !HasContent(seg)))
  {
    hide Wrap, LessThan, LessThanEq, InWindow, Segment.Len, Segment.Last, UpdateWindow, UpdateUna;
    WindowMeans(seg.first, s.rcv.nxt, s.rcv.wnd);
    WindowMeans(seg.Last(), s.rcv.nxt, s.rcv.wnd);
    LastPlace(s.rcv.nxt, seg);
    NoDistance(s.rcv.nxt, seg.first);
    LengthIs(seg);
  }

  lemma LengthIs(seg: Segment)
    requires seg.datalen < HALF
    ensures seg.Len() == seg.datalen + Bit(seg.flags.fin) + Bit(seg.flags.syn)
  {
  }

  /**
    A reset ends an open connection exactly if it has the number expected; elsewhere in the window it is challenged,
    and outside of it ignored.
  */
  lemma ResetExactly(s: Tcb, seg: Segment)
    requires Opened(s.state) && seg.flags.rst && seg.wnd <= MAX_WINDOW && seg.datalen < HALF && s.rcv.wnd <= MAX_WINDOW
    ensures var off, s' := Sizeof(s.rcv.nxt, seg.first), Recv(s, seg).0;
            var within := || (off < s.rcv.wnd && off + seg.Len() <= s.rcv.wnd)
                          || (off == 0 && seg.datalen == 0 && s.rcv.wnd == 0);
            && (s' == RESET <==> off == 0 && within)
            && (off != 0 && within ==> s'.state == s.state && WillAck(s', s.rcv.nxt))
            && (!within ==> s' == s)
  {
    hide Wrap, LessThan, InWindow, Segment.Len, Segment.Last, Handle, UpdateWindow, UpdateUna, WillAck;
    WindowMeans(seg.first, s.rcv.nxt, s.rcv.wnd);
    WindowMeans(seg.Last(), s.rcv.nxt, s.rcv.wnd);
    LastPlace(s.rcv.nxt, seg);
    NoDistance(s.rcv.nxt, seg.first);
    LengthIs(seg);
    if Recv(s, seg).0.pending.ack {
      PendingAcks(Recv(s, seg).0);
    }
  }

  // ---- probes

  /** A bare ACK one number back, as a peer sends to hear whether the connection is alive. */
  predicate IsProbe(s: Tcb, seg: Segment) {
    seg == Segment(Wrap(s.rcv.nxt - 1), s.snd.nxt, 0, seg.wnd, ACK)
  }

  /** An empty segment out of place is answered, or ends the connection, if and only if it is not a probe. */
  lemma ProbeUnanswered(h: HView, seg: Segment)
    requires Opened(h.tcb.state) && !IsTxOver(h) && Total(h.tx.spans) == |h.tx.sent| && Pending(h.tcb, 0) == None
    requires seg.datalen == 0 && seg.first != h.tcb.rcv.nxt && !seg.flags.rst && seg.wnd <= MAX_WINDOW
    ensures var h' := HRecv(h, seg, [], 0, 0).0;
            h'.tcb == RESET || WillAck(h'.tcb, h.tcb.rcv.nxt) <==> !IsProbe(h.tcb, seg)
  {
    hide Total, Recv, Place, InWindow, Segment.Last, WillAck, Pending, Wrap, Accepted;
    StrayAnswered(h.tcb, seg);
    if IsProbe(h.tcb, seg) {
      NotWilling(h.tcb);
    }
  }

  lemma NotWilling(s: Tcb)
    requires Pending(s, 0) == None
    ensures !WillAck(s, s.rcv.nxt)
  {
    hide Pending;
    assert !Acking(Pending(s, 0), s.rcv.nxt);
  }

  // ---- after the user is done reading

  /** The next segment is a reset with number `at`. */
  predicate WillReset(s: Tcb, at: Value) {
    var p := Pending(s, 0);
    p.Some? && p.value.flags.rst && p.value.first == at && p.value.datalen == 0
  }

  lemma ResetGoes(s: Tcb, at: Value)
    requires s.pending == RST && s.rstPtr == at && s.challengeAcks == 0
    ensures WillReset(s, at)
  {
    hide Wrap, LessThan;
  }

  /**
    Data that arrives once the user shut down reading is dropped. Before the FIN went out it is acknowledged, and
    what was held is dropped with it; after it, the peer is told by a reset.
  */
  lemma ShutdownDiscards(h: HView, seg: Segment, payload: seq<byte>)
    requires h.shutdownRx && h.tcb.state.RxDataOpen() && seg.datalen == |payload| > 0
    requires Total(h.tx.spans) == |h.tx.sent| && HRecv(h, seg, payload, 0, 0).1 == HOk
    ensures var h' := HRecv(h, seg, payload, 0, 0).0;
            && h'.contents == h.contents && h'.ahead == h.ahead
            && if h'.tcb.state.FinWait1? || h'.tcb.state.FinWait2? then WillReset(h'.tcb, seg.ackno)
               else h'.held == [] && WillAck(h'.tcb, Add(seg.first, seg.Len()))
  {
    hide Total, Recv, TxAck, WillAck, WillReset, Wrap, Segment.Len, Add, LessThan, IsKeepalive, TakePayload, R.Takes;
    KeepaliveEmpty(h.tcb, seg);
    ContentAcked(h.tcb, seg);
    R.AcceptEffect(h.tcb, seg);
    var s := Recv(h.tcb, seg).0;
    DroppedPayload(h.(tcb := s), payload);
    ResetGoes(s.(pending := RST, queued := NONE, rstPtr := seg.ackno), seg.ackno);
    SynRefused(h.tcb, seg);
  }

  lemma KeepaliveEmpty(s: Tcb, seg: Segment)
    ensures IsKeepalive(s, seg) ==> seg.datalen == 0
  {
  }

  lemma SynRefused(s: Tcb, seg: Segment)
    requires !s.state.IsPreestablished() && Recv(s, seg).1 == NoErr
    ensures !seg.flags.syn
  {
    hide Recv;
    R.RecvRefusal(s, seg);
  }

  lemma DroppedPayload(v: HView, payload: seq<byte>)
    requires v.shutdownRx && payload != []
    ensures TakePayload(v, payload) == v.(held := [])
  {
  }

  /** A reset that was sent leaves nothing of the connection. */
  lemma ResetSentEnds(h: HView, room: nat, steer: Steer)
    requires BuffersOk(h) && Opened(h.tcb.state) && !h.tcb.state.TimeWait?
    requires var r := HSend(h, room, steer); r.seg.Some? && r.seg.value.flags.rst
    ensures HSend(h, room, steer).teardown == Some(RESET)
  {
    hide Total, HRewind, HasPending, WantsClose, NothingToDo, ClosesNow, Room, Send, TxSend, Pending, RecvWindow;
    RewindTotals(h, steer.rewind);
    RewindRx(h, steer.rewind);
  }
}
