/**
  The three-way handshake between two handlers, one opened actively and one listening: it leaves the
  two established endpoints the stream theorem starts from.
*/
module Handshake {
  import opened Options
  import opened SeqNum
  import opened Segments
  import C = Control
  import R = ControlRuns
  import opened TxQueue
  import opened HandlerSpec
  import NR = NetworkRuns

  /** Buffers of a handler that was just opened. */
  ghost predicate Idle(h: HView, size: Size) {
    && h.tx.sent == [] && h.tx.unsent == [] && h.tx.spans == [] && 0 < h.tx.slots && h.tx.size < HALF
    && h.contents == [] && h.held == [] && |h.ahead| == size
    && !h.closing && !h.shutdownRx && !h.requeue
  }

  ghost predicate Quiet(s: C.Tcb) {
    s.queued == NONE && s.challengeAcks == 0 && s.dupack == 0 && s.nRetransmit == 0
  }

  /** `OpenActive`: a closed block that will send its SYN. */
  ghost predicate Active(h: HView, iss: Value, size: Size) {
    && Idle(h, size) && h.iss == iss && h.remotePort != 0
    && h.tcb == C.RESET.(rcv := C.RESET.rcv.(wnd := size))
  }

  /** `OpenListen`. */
  ghost predicate Passive(h: HView, iss: Value, size: Size) {
    Idle(h, size) && h.iss == iss && h.remotePort == 0 && h.tcb == C.Open(C.RESET, iss, size).0
  }

  ghost predicate SynSentBy(s: C.Tcb, iss: Value, size: Size) {
    && s.state.SynSent? && s.snd == C.FreshSnd(iss, 1).(nxt := Add(iss, 1)) && s.rcv == C.FreshRcv(size, 0)
    && s.pending == NONE && Quiet(s)
  }

  ghost predicate SynTakenBy(s: C.Tcb, iss: Value, peerIss: Value, pending: Flags) {
    && s.state.SynRcvd? && s.snd.una == iss && s.rcv.nxt == Add(peerIss, 1)
    && s.snd.nxt == (if pending.syn then iss else Add(iss, 1))
    && s.snd.wnd <= MAX_WINDOW && 0 < s.rcv.wnd <= MAX_WINDOW && s.pending == pending && Quiet(s)
  }

  ghost predicate OpenedBy(s: C.Tcb, iss: Value, peerIss: Value) {
    && s.state.Established? && s.snd.una == s.snd.nxt == Add(iss, 1) && s.rcv.nxt == Add(peerIss, 1)
    && s.snd.wnd <= MAX_WINDOW && s.rcv.wnd <= MAX_WINDOW && Quiet(s) && !s.pending.HasCtl()
  }

  // ---- the control block's part

  lemma SendSyn(iss: Value, size: Size)
    requires 0 < size <= MAX_WINDOW
    ensures var (s, err) := C.Send(C.RESET.(rcv := C.RESET.rcv.(wnd := size)), Segment(iss, 0, 0, size, SYN));
            err == C.NoErr && SynSentBy(s, iss, size)
  {
    hide Wrap, InWindow, InRange;
    R.NotBeforeItself(iss);
    R.OutgoingLen(Segment(iss, 0, 0, size, SYN));
  }

  lemma RecvSyn(iss: Value, size: Size, syn: Segment)
    requires 0 < size <= MAX_WINDOW && syn.wnd <= MAX_WINDOW && syn.flags == SYN && syn.datalen == 0
    ensures var (s, err) := C.Recv(C.Open(C.RESET, iss, size).0, syn);
            err == C.NoErr && SynTakenBy(s, iss, syn.first, SYNACK)
  {
    hide Wrap, InWindow, LessThan;
    R.OutgoingLen(syn);
  }

  lemma SendSynAck(s: C.Tcb, iss: Value, peerIss: Value, room: nat, wnd: Size)
    requires SynTakenBy(s, iss, peerIss, SYNACK) && 0 < wnd <= MAX_WINDOW
    ensures var p := C.Pending(s, room);
            && p.Some? && p.value.(wnd := wnd) == Segment(iss, Add(peerIss, 1), 0, wnd, SYNACK)
            && var (s', err) := C.Send(s, p.value.(wnd := wnd)); err == C.NoErr && SynTakenBy(s', iss, peerIss, NONE)
  {
    hide Wrap, InWindow, LessThan;
    R.NotBeforeItself(iss);
    R.FirstInWindow(iss, s.snd.wnd);
    R.OutgoingLen(Segment(iss, Add(peerIss, 1), 0, wnd, SYNACK));
    if s.snd.wnd > 0 {
      R.LastInWindow(Segment(iss, Add(peerIss, 1), 0, wnd, SYNACK), s.snd.wnd);
    }
  }

  /** The next number is ahead of its predecessor. */
  lemma OneAhead(v: Value)
    ensures LessThan(v, Add(v, 1)) && Add(v, 1) != v
  {
    assert v + 0 == v;
    OrderExact(0, v, v + 1);
    WrapOf(v);
  }

  lemma WrapOf(v: Value)
    ensures Wrap(v) == v && Wrap(0 + v) == v
  {
  }

  lemma RecvSynAck(s: C.Tcb, iss: Value, size: Size, peerIss: Value, wnd: Size)
    requires SynSentBy(s, iss, size) && 0 < size <= MAX_WINDOW && wnd <= MAX_WINDOW
    ensures var (s', err) := C.Recv(s, Segment(peerIss, Add(iss, 1), 0, wnd, SYNACK));
            err == C.NoErr && OpenedBy(s', iss, peerIss) && s'.pending == ACK
  {
    hide Wrap, InWindow, LessThan;
    OneAhead(iss);
    R.OutgoingLen(Segment(peerIss, Add(iss, 1), 0, wnd, SYNACK));
  }

  lemma RecvLastAck(s: C.Tcb, iss: Value, peerIss: Value, wnd: Size)
    requires SynTakenBy(s, iss, peerIss, NONE) && wnd <= MAX_WINDOW
    ensures var (s', err) := C.Recv(s, Segment(Add(peerIss, 1), Add(iss, 1), 0, wnd, ACK));
            err == C.NoErr && OpenedBy(s', iss, peerIss)
  {
    hide Wrap, InWindow, LessThan;
    OneAhead(iss);
    R.FirstInWindow(s.rcv.nxt, s.rcv.wnd);
    R.OutgoingLen(Segment(Add(peerIss, 1), Add(iss, 1), 0, wnd, ACK));
    R.AddZero(s.rcv.nxt);
  }

  lemma OpenedInOrder(s: C.Tcb, iss: Value, peerIss: Value)
    requires OpenedBy(s, iss, peerIss)
    ensures NR.ControlOk(s)
  {
    hide Wrap;
    R.FreshInFlight(s.snd);
  }

  // ---- the handler's part

  lemma IdleTotals(h: HView, size: Size)
    requires Idle(h, size)
    ensures Total(h.tx.spans) == |h.tx.sent| && (size > 0 ==> RecvWindow(h) == size)
  {
    EmptyTotal();
  }

  lemma ClientSyn(h: HView, iss: Value, size: Size, room: nat, limit: Size)
    requires Active(h, iss, size) && 0 < size <= MAX_WINDOW && Total(h.tx.spans) == |h.tx.sent|
    ensures var r := HSend(h, room, Steer(limit, None));
            && r.seg == Some(Segment(iss, 0, 0, size, SYN)) && r.teardown.None? && r.data == []
            && r.v == h.(tcb := r.v.tcb) && SynSentBy(r.v.tcb, iss, size)
  {
    hide Wrap, C.Send, Total, NextIsRetransmit;
    SendSyn(iss, size);
  }

  lemma ServerSyn(h: HView, iss: Value, size: Size, syn: Segment, mss: Size, port: nat)
    requires Passive(h, iss, size) && 0 < size <= MAX_WINDOW && Total(h.tx.spans) == |h.tx.sent|
    requires syn.wnd <= MAX_WINDOW && syn.flags == SYN && syn.datalen == 0
    ensures var (g, err) := HRecv(h, syn, [], mss, port);
            err == HOk && g == h.(tcb := g.tcb, remotePort := port) && SynTakenBy(g.tcb, iss, syn.first, SYNACK)
  {
    hide Wrap, C.Recv, Total, InWindow;
    RecvSyn(iss, size, syn);
  }

  lemma ServerSynAck(h: HView, iss: Value, peerIss: Value, size: Size, room: nat, limit: Size)
    requires Idle(h, size) && 0 < size <= MAX_WINDOW && Total(h.tx.spans) == |h.tx.sent|
             && SynTakenBy(h.tcb, iss, peerIss, SYNACK)
    ensures var r := HSend(h, room, Steer(limit, None));
            && r.seg == Some(Segment(iss, Add(peerIss, 1), 0, size, SYNACK)) && r.teardown.None? && r.data == []
            && r.v == h.(tcb := r.v.tcb) && SynTakenBy(r.v.tcb, iss, peerIss, NONE)
  {
    hide Wrap, C.Send, C.Pending, Total, NextIsRetransmit, RecvWindow;
    IdleTotals(h, size);
    SendSynAck(h.tcb, iss, peerIss, Room(h.tcb, h.tx, room, limit), size);
  }

  /** A block sends its SYN or SYN-ACK again from where it was. */
  lemma SendsAgain(s: C.Tcb, iss: Value, ackno: Value, wnd: Size, flags: Flags)
    requires s.state.SynSent? || s.state.SynRcvd?
    requires s.snd.una == iss && s.snd.nxt == Add(iss, 1) && s.pending == NONE && Quiet(s) && wnd <= MAX_WINDOW
    requires flags == SYN || (flags == SYNACK && ackno == s.rcv.nxt)
    ensures C.Send(s, Segment(iss, ackno, 0, wnd, flags)) ==
            (s.(rcv := s.rcv.(wnd := wnd), nRetransmit := 1), C.NoErr)
  {
    hide Wrap, InWindow, LessThan, Add, Segment.Last, Segment.Len;
    OneAhead(iss);
    Repeatable(iss);
  }

  lemma Repeatable(iss: Value)
    ensures InRange(iss, iss, Add(iss, 1))
  {
    AddThenSizeof(iss, 1);
  }

  /** A SYN that may have been lost is sent again as it was, and so is its answer. */
  lemma SynAgain(h: HView, iss: Value, size: Size, room: nat, limit: Size)
    requires Idle(h, size) && 0 < size <= MAX_WINDOW && Total(h.tx.spans) == |h.tx.sent|
    requires SynSentBy(h.tcb, iss, size) && h.iss == iss
    ensures var r := HSend(h.(requeue := true), room, Steer(limit, None));
            && r.seg == Some(Segment(iss, 0, 0, size, SYN)) && r.teardown.None? && r.data == []
            && r.v == h.(tcb := h.tcb.(nRetransmit := 1))
  {
    hide Wrap, C.Send, Total, NextIsRetransmit;
    SendsAgain(h.tcb, iss, 0, size, SYN);
  }

  lemma SynAckAgain(h: HView, iss: Value, peerIss: Value, size: Size, room: nat, limit: Size)
    requires Idle(h, size) && 0 < size <= MAX_WINDOW && Total(h.tx.spans) == |h.tx.sent|
    requires SynTakenBy(h.tcb, iss, peerIss, NONE)
    ensures var r := HSend(h.(requeue := true), room, Steer(limit, None));
            && r.seg == Some(Segment(iss, Add(peerIss, 1), 0, size, SYNACK)) && r.teardown.None? && r.data == []
            && r.v == h.(tcb := h.tcb.(nRetransmit := 1, rcv := h.tcb.rcv.(wnd := size)))
  {
    hide Wrap, C.Send, Total, NextIsRetransmit;
    SendsAgain(h.tcb, iss, Add(peerIss, 1), size, SYNACK);
  }

  lemma ClientSynAck(h: HView, iss: Value, peerIss: Value, size: Size, wnd: Size, mss: Size, port: nat)
    requires Idle(h, size) && 0 < size <= MAX_WINDOW && Total(h.tx.spans) == |h.tx.sent| && SynSentBy(h.tcb, iss, size)
    requires wnd <= MAX_WINDOW && h.remotePort != 0
    ensures var (g, err) := HRecv(h, Segment(peerIss, Add(iss, 1), 0, wnd, SYNACK), [], mss, port);
            err == HOk && g == h.(tcb := g.tcb) && OpenedBy(g.tcb, iss, peerIss) && g.tcb.pending == ACK
  {
    hide Wrap, C.Recv, Total, InWindow;
    RecvSynAck(h.tcb, iss, size, peerIss, wnd);
  }

  lemma ServerLastAck(h: HView, iss: Value, peerIss: Value, size: Size, wnd: Size, mss: Size, port: nat)
    requires Idle(h, size) && 0 < size <= MAX_WINDOW && Total(h.tx.spans) == |h.tx.sent|
             && SynTakenBy(h.tcb, iss, peerIss, NONE)
    requires wnd <= MAX_WINDOW
    ensures var (g, err) := HRecv(h, Segment(Add(peerIss, 1), Add(iss, 1), 0, wnd, ACK), [], mss, port);
            err == HOk && g == h.(tcb := g.tcb) && OpenedBy(g.tcb, iss, peerIss)
  {
    hide Wrap, C.Recv, Total, InWindow;
    RecvLastAck(h.tcb, iss, peerIss, wnd);
    StepBack(peerIss);
  }

  /** The number after `v` is not the one before it. */
  lemma StepBack(v: Value)
    ensures Wrap(Add(v, 1) - 1) != Add(v, 1)
  {
    WrapAdd(v + 1, -1);
  }

  /** The client's answer: a bare ACK, as nothing was written yet. */
  lemma ClientAck(h: HView, iss: Value, peerIss: Value, size: Size, room: nat, limit: Size)
    requires Idle(h, size) && 0 < size <= MAX_WINDOW && Total(h.tx.spans) == |h.tx.sent|
    requires OpenedBy(h.tcb, iss, peerIss) && h.tcb.pending == ACK
    ensures var r := HSend(h, room, Steer(limit, None));
            && r.seg == Some(Segment(Add(iss, 1), Add(peerIss, 1), 0, size, ACK)) && r.teardown.None? && r.data == []
            && r.v == h.(tcb := r.v.tcb) && OpenedBy(r.v.tcb, iss, peerIss)
  {
    hide Wrap, C.Send, C.Pending, Total, NextIsRetransmit, RecvWindow, LessThan;
    IdleTotals(h, size);
    SendAck(h.tcb, iss, peerIss, Room(h.tcb, h.tx, room, limit), size);
  }

  lemma SendAck(s: C.Tcb, iss: Value, peerIss: Value, room: nat, wnd: Size)
    requires OpenedBy(s, iss, peerIss) && s.pending == ACK && wnd <= MAX_WINDOW
    ensures var p := C.Pending(s, room);
            var seg := Segment(Add(iss, 1), Add(peerIss, 1), 0, wnd, ACK);
            && p.Some? && p.value.(wnd := wnd, datalen := 0) == seg && !p.value.flags.HasCtl()
            && var (s', err) := C.Send(s, seg); err == C.NoErr && OpenedBy(s', iss, peerIss)
  {
    hide Wrap, InWindow, LessThan, C.Send;
    AckSent(s, Segment(Add(iss, 1), Add(peerIss, 1), 0, wnd, ACK));
  }

  /** A bare ACK on a quiet connection changes its pending flags and its advertised window only. */
  lemma AckSent(s: C.Tcb, seg: Segment)
    requires s.state.Established? && s.pending == ACK && Quiet(s) && seg.wnd <= MAX_WINDOW
    requires seg == Segment(s.snd.nxt, s.rcv.nxt, 0, seg.wnd, ACK)
    ensures C.Send(s, seg) == (s.(pending := NONE, rcv := s.rcv.(wnd := seg.wnd)), C.NoErr)
  {
    hide Wrap, InWindow, LessThan;
    R.NotBeforeItself(s.snd.nxt);
    R.FirstInWindow(s.snd.nxt, s.snd.wnd);
    R.OutgoingLen(seg);
    R.AddZero(s.snd.nxt);
  }

  lemma OpenedFledgling(h: HView, iss: Value, peerIss: Value, size: Size)
    requires Idle(h, size) && size <= MAX_WINDOW && OpenedBy(h.tcb, iss, peerIss)
    ensures NR.Fledgling(NR.End(h, [], [], false, 0), iss + 1, peerIss + 1)
  {
    hide NR.ControlOk;
    OpenedInOrder(h.tcb, iss, peerIss);
  }

  datatype Pair = Pair(sender: HView, receiver: HView)

  /**
    What the frame and the wire add to a transmission: room, the policy's limit, the window and options as they
    arrive.
  */
  datatype Carriage = Carriage(room: nat, limit: Size, wnd: Size, mss: Size, port: nat)

  predicate Sound(h: HView) {
    Total(h.tx.spans) == |h.tx.sent| && |h.contents| + |h.ahead| < MOD
  }

  /** `sender` sends one segment and `receiver` gets it. */
  function Pass(sender: HView, receiver: HView, c: Carriage): Option<Pair> {
    if !Sound(sender) || !Sound(receiver) then None
    else
      var r := HSend(sender, c.room, Steer(c.limit, None));
      if r.seg.None? || r.seg.value.datalen != |r.data| || r.teardown.Some? then None
      else Some(Pair(r.v, HRecv(receiver, r.seg.value.(wnd := c.wnd), r.data, c.mss, c.port).0))
  }

  /** Three segments, the client's first. */
  function Shake(client: HView, server: HView, c1: Carriage, c2: Carriage, c3: Carriage): Option<Pair> {
    match Pass(client, server, c1)
    case None => None
    case Some(p) =>
      match Pass(p.receiver, p.sender, c2)
      case None => None
      case Some(q) => Pass(q.receiver, q.sender, c3)
  }

  lemma FirstPass(client: HView, server: HView, issA: Value, issB: Value, sizeA: Size, sizeB: Size, c: Carriage)
    requires Active(client, issA, sizeA) && Passive(server, issB, sizeB)
    requires 0 < sizeA <= MAX_WINDOW && 0 < sizeB <= MAX_WINDOW && c.wnd <= MAX_WINDOW
    ensures var p := Pass(client, server, c);
            && p.Some? && Idle(p.value.sender, sizeA) && Idle(p.value.receiver, sizeB) && p.value.sender.remotePort != 0
            && SynSentBy(p.value.sender.tcb, issA, sizeA) && SynTakenBy(p.value.receiver.tcb, issB, issA, SYNACK)
  {
    hide Total, HSend, HRecv, SynSentBy, SynTakenBy;
    IdleTotals(client, sizeA);
    IdleTotals(server, sizeB);
    ClientSyn(client, issA, sizeA, c.room, c.limit);
    ServerSyn(server, issB, sizeB, Segment(issA, 0, 0, c.wnd, SYN), c.mss, c.port);
  }

  lemma SecondPass(client: HView, server: HView, issA: Value, issB: Value, sizeA: Size, sizeB: Size, c: Carriage)
    requires Idle(client, sizeA) && Idle(server, sizeB) && client.remotePort != 0
    requires 0 < sizeA <= MAX_WINDOW && 0 < sizeB <= MAX_WINDOW && c.wnd <= MAX_WINDOW
    requires SynSentBy(client.tcb, issA, sizeA) && SynTakenBy(server.tcb, issB, issA, SYNACK)
    ensures var p := Pass(server, client, c);
            && p.Some? && Idle(p.value.sender, sizeB) && Idle(p.value.receiver, sizeA)
            && SynTakenBy(p.value.sender.tcb, issB, issA, NONE)
            && OpenedBy(p.value.receiver.tcb, issA, issB) && p.value.receiver.tcb.pending == ACK
  {
    hide Total, HSend, HRecv, SynSentBy, SynTakenBy, OpenedBy;
    IdleTotals(client, sizeA);
    IdleTotals(server, sizeB);
    ServerSynAck(server, issB, issA, sizeB, c.room, c.limit);
    ClientSynAck(client, issA, issB, sizeA, c.wnd, c.mss, c.port);
  }

  lemma ThirdPass(client: HView, server: HView, issA: Value, issB: Value, sizeA: Size, sizeB: Size, c: Carriage)
    requires Idle(client, sizeA) && Idle(server, sizeB)
    requires 0 < sizeA <= MAX_WINDOW && 0 < sizeB <= MAX_WINDOW && c.wnd <= MAX_WINDOW
    requires OpenedBy(client.tcb, issA, issB) && client.tcb.pending == ACK && SynTakenBy(server.tcb, issB, issA, NONE)
    ensures var p := Pass(client, server, c);
            && p.Some? && Idle(p.value.sender, sizeA) && Idle(p.value.receiver, sizeB)
            && OpenedBy(p.value.sender.tcb, issA, issB) && OpenedBy(p.value.receiver.tcb, issB, issA)
  {
    hide Total, HSend, HRecv, SynTakenBy, OpenedBy;
    IdleTotals(client, sizeA);
    IdleTotals(server, sizeB);
    ClientAck(client, issA, issB, sizeA, c.room, c.limit);
    ServerLastAck(server, issB, issA, sizeB, c.wnd, c.mss, c.port);
  }

  /**
    A client opened towards a listening server, with any initial sequence numbers, any receive buffers
    up to the largest window and any windows on the wire: the SYN, the SYN-ACK and the ACK are each sent
    and accepted, and leave both ends as the stream theorem starts them, one past their initial numbers, with
    copies of the last ACK possibly still to come.
  */
  lemma HandshakeConnects(client: HView, server: HView, issA: Value, issB: Value, sizeA: Size, sizeB: Size,
                          c1: Carriage, c2: Carriage, c3: Carriage, acks: set<NR.Wire>)
    requires forall m :: m in acks ==> NR.BareAck(m, issA + 1, issB + 1)
    requires Active(client, issA, sizeA) && Passive(server, issB, sizeB)
    requires 0 < sizeA <= MAX_WINDOW && 0 < sizeB <= MAX_WINDOW
    requires c1.wnd <= MAX_WINDOW && c2.wnd <= MAX_WINDOW && c3.wnd <= MAX_WINDOW
    ensures var p := Shake(client, server, c1, c2, c3);
            p.Some? && NR.NetStart(NR.Net(NR.End(p.value.sender, [], [], false, 0),
              NR.End(p.value.receiver, [], [], false, 0), acks, {}),
                                    issA + 1, issB + 1)
  {
    hide Pass, Idle, OpenedBy, SynTakenBy, SynSentBy, Active, Passive, NR.Fledgling;
    FirstPass(client, server, issA, issB, sizeA, sizeB, c1);
    var p := Pass(client, server, c1).value;
    SecondPass(p.sender, p.receiver, issA, issB, sizeA, sizeB, c2);
    var q := Pass(p.receiver, p.sender, c2).value;
    ThirdPass(q.receiver, q.sender, issA, issB, sizeA, sizeB, c3);
    var r := Pass(q.receiver, q.sender, c3).value;
    OpenedFledgling(r.sender, issA, issB, sizeA);
    OpenedFledgling(r.receiver, issB, issA, sizeB);
  }
}
