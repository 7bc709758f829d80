/**
  What tcp/handler.go does with the control block, the transmit queue, the receive ring and the
  reassembly list, as functions on their abstract values. `Handler` is proved to carry them out.
*/
module HandlerSpec {
  import opened Options
  import opened Bytes
  import opened SeqNum
  import opened Segments
  import C = Control
  import opened TxQueue
  import opened Reassembling
  import opened RxStream

  datatype HErr = HOk | HClosed | HBufferFull | HClosing | HEOF | HReject(err: C.Err) | HQueue(tx: TxError)

  datatype HView = HView(
    tcb: C.Tcb,
    tx: TxView,
    contents: seq<byte>,   // received, not yet read
    ahead: seq<byte>,      // free part of the receive ring, staged bytes included
    held: seq<Held>,
    slots: nat,            // capacity of held
    iss: Value,
    remotePort: nat,
    closing: bool,
    shutdownRx: bool,
    requeue: bool
  )

  function Rx(v: HView): RxView {
    RxView(v.contents, v.ahead, v.held, v.slots, v.tcb.rcv.nxt)
  }

  /** The view with its receive side replaced. */
  function WithRx(v: HView, rx: RxView): HView {
    v.(contents := rx.contents, ahead := rx.ahead, held := rx.held, slots := rx.slots,
       tcb := v.tcb.(rcv := v.tcb.rcv.(nxt := rx.nxt)))
  }

  function QueueAck(v: HView): HView {
    v.(tcb := v.tcb.(pending := v.tcb.pending.(ack := true)))
  }

  predicate AwaitingSynSend(v: HView) {
    v.remotePort != 0 && v.tcb.state.Closed?
  }

  predicate IsTxOver(v: HView) {
    (v.tcb.state.Closed? && !AwaitingSynSend(v)) || (v.tcb.state.TimeWait? && !C.HasPending(v.tcb))
  }

  predicate IsKeepalive(s: C.Tcb, seg: Segment) {
    seg.first == Wrap(s.rcv.nxt - 1) && seg.flags == ACK && seg.ackno == s.snd.nxt && seg.datalen == 0
  }

  /** Free receive space less the bytes held out of order. */
  function RecvWindow(v: HView): Size
    requires |v.ahead| < MOD
  {
    if v.slots == 0 then |v.ahead|
    else if HeldBytes(v.held) < |v.ahead| then |v.ahead| - HeldBytes(v.held)
    else 0
  }

  /** Candidate for reassembly: pure data ahead of rcv.NXT and within the window. */
  predicate OutOfOrder(v: HView, seg: Segment) {
    && v.slots > 0 && !v.shutdownRx
    && seg.datalen != 0 && !seg.flags.HasCtl()
    && seg.first != v.tcb.rcv.nxt
    && InWindow(seg.first, v.tcb.rcv.nxt, v.tcb.rcv.wnd) && InWindow(seg.Last(), v.tcb.rcv.nxt, v.tcb.rcv.wnd)
  }

  /** Delivery of held data, with the ACK that announces it. */
  function DeliverHeld(v: HView): HView {
    if v.held == [] then v
    else if v.shutdownRx then v.(held := [])
    else
      var v' := WithRx(v, RxDeliver(Rx(v)));
      if Due(Rx(v)) > 0 then QueueAck(v') else v'
  }

  /** An accepted segment's payload, written and followed by what it uncovers. */
  function TakePayload(v: HView, payload: seq<byte>): HView
    requires |payload| <= |v.ahead| || v.shutdownRx
  {
    if payload == [] then v
    else
      var w := if v.shutdownRx then v else v.(contents := v.contents + payload, ahead := v.ahead[|payload|..]);
      DeliverHeld(w)
  }

  /** Everything after the control block accepted the segment. */
  function Accepted(v: HView, prevUna: Value, seg: Segment, payload: seq<byte>, mss: Size, port: nat): HView
    requires |payload| <= |v.ahead| || v.shutdownRx
    requires Total(v.tx.spans) == |v.tx.sent|
  {
    var w := TakePayload(v, payload);
    var x := if seg.flags.ack && seg.ackno != prevUna then w.(tx := TxAck(w.tx, seg.ackno)) else w;
    if !seg.flags.syn then x
    else
      x.(tcb := if mss > 0 then x.tcb.(snd := x.tcb.snd.(mss := mss)) else x.tcb,
         remotePort := if x.remotePort == 0 then port else x.remotePort)
  }

  /** `Recv` of a parsed segment whose ports match; `mss` is the option on a SYN, `port` the sender's. */
  function HRecv(v: HView, seg: Segment, payload: seq<byte>, mss: Size, port: nat): (HView, HErr)
    requires seg.datalen == |payload| && Total(v.tx.spans) == |v.tx.sent|
  {
    if IsTxOver(v) then (v, HClosed)
    else if IsKeepalive(v.tcb, seg) then (v, HOk)
    else if OutOfOrder(v, seg) && !Place(v.held, v.slots, |v.ahead|, v.tcb.rcv.nxt, seg.first, |payload|).Refused? then
      (QueueAck(WithRx(v, RxStore(Rx(v), seg.first, payload))), HOk)
    else if !v.shutdownRx && |payload| > |v.ahead| then (v, HBufferFull)
    else
      var (s, err) := C.Recv(v.tcb, seg);
      var w := v.(tcb := s);
      if err != C.NoErr then (w, if s.state.Closed? then HClosed else HReject(err))
      else if s.state.Closed? then (w, HClosed)
      else if seg.datalen != 0 && v.shutdownRx && (s.state.FinWait1? || s.state.FinWait2?) then
        (w.(tcb := s.(pending := RST, queued := NONE, rstPtr := seg.ackno)), HOk)
      else (Accepted(w, v.tcb.snd.una, seg, payload, mss, port), HOk)
  }

  function HWrite(v: HView, b: seq<byte>): (HView, HErr) {
    if v.closing then (v, HClosing)
    else if !v.tcb.state.TxDataOpen() then (v, HClosed)
    else if TxWriteError(v.tx, b) == TxOk then (v.(tx := TxWrite(v.tx, b)), HOk)
    else (v, HQueue(TxWriteError(v.tx, b)))
  }

  /** A window update is due once enough space opened since the last advertisement. */
  predicate WindowUpdateDue(v: HView)
    requires |v.ahead| < MOD
  {
    var cur, last := RecvWindow(v), v.tcb.rcv.wnd;
    var half := (|v.contents| + |v.ahead|) / 2;
    var thresh := if 0 < v.tcb.snd.mss < half then v.tcb.snd.mss else half;
    cur > last && cur - last >= thresh
  }

  function HRead(v: HView, want: nat): (HView, seq<byte>, HErr)
    requires |v.contents| + |v.ahead| < MOD
  {
    if v.shutdownRx then (v, [], HEOF)
    else
      var n := Min(want, |v.contents|);
      if n > 0 then
        var w := DeliverHeld(v.(contents := v.contents[n..], ahead := v.ahead + v.contents[..n]));
        (if WindowUpdateDue(w) then QueueAck(w) else w, v.contents[..n], HOk)
      else
        (v, [], if v.tcb.state.IsClosed() then HClosed else if !v.tcb.state.RxDataOpen() then HEOF else HOk)
  }

  /** A policy's say before a transmission: a limit on new data and where to rewind to. */
  datatype Steer = Steer(limit: Size, rewind: Option<Value>)

  /** The rewind a policy directs, of SND.NXT and of the transmit queue together. */
  function HRewind(v: HView, to: Option<Value>): HView
    requires Total(v.tx.spans) == |v.tx.sent|
  {
    if to.Some? && C.CanRewind(v.tcb, to.value) then
      var i := Holding(v.tx.spans, to.value);
      v.(tcb := C.RetransmitFrom(v.tcb, to.value), tx := if i < |v.tx.spans| then TxRewind(v.tx, i) else v.tx)
    else v
  }

  /** The application is done: its own request, or a half-closed connection with nothing left to send. */
  predicate WantsClose(v: HView) {
    v.closing || (v.tcb.state.CloseWait? && |v.tx.unsent| == 0 && !C.HasPending(v.tcb))
  }

  predicate NothingToDo(v: HView) {
    !AwaitingSynSend(v) && !v.requeue && |v.tx.unsent| == 0 && !WantsClose(v) && !C.HasPending(v.tcb)
  }

  predicate ClosesNow(v: HView) {
    |v.tx.unsent| == 0 && WantsClose(v) && (!v.tcb.state.CloseWait? || !C.HasPending(v.tcb))
  }

  predicate NextIsRetransmit(s: C.Tcb, tx: TxView) {
    tx.spans != [] && LessThan(s.snd.nxt, EndSeq(tx.spans))
  }

  /** Payload room of the frame, clamped by the policy for new data. */
  function Room(s: C.Tcb, tx: TxView, room: nat, limit: Size): nat {
    if limit < room && !NextIsRetransmit(s, tx) then limit else room
  }

  /** Outcome of `Send`; `teardown` is the control block left when the handler was reset afterwards. */
  datatype Sent = Sent(v: HView, seg: Option<Segment>, data: seq<byte>, err: HErr, teardown: Option<C.Tcb>)

  /** Handing a segment to the control block. */
  function Emit(v: HView, seg: Segment, data: seq<byte>): Sent {
    var (s, err) := C.Send(v.tcb, seg);
    if err != C.NoErr then Sent(v, None, [], HReject(err), None)
    else
      Sent(v.(tcb := s, requeue := false), Some(seg), data, HOk,
           if v.tcb.state.TimeWait? && seg.flags.ack then Some(s)
           else if seg.flags.rst then Some(C.RESET) else None)
  }

  /** The pending segment, filled from the transmit queue. */
  function SendPending(v: HView, room: nat): Sent
    requires Total(v.tx.spans) == |v.tx.sent| && |v.ahead| < MOD
  {
    match C.Pending(v.tcb, room)
    case None => Sent(v, None, [], HOk, None)
    case Some(p) =>
      var seg := p.(wnd := RecvWindow(v));
      if seg.flags == SYNACK || seg.datalen == 0 then Emit(v, seg, [])
      else
        var (tx, data, err) := TxSend(v.tx, seg.datalen, seg.first);
        if err != TxOk then Sent(v.(tx := tx), None, [], HQueue(err), None)
        else
          assert |data| <= seg.datalen;
          Emit(v.(tx := tx),
               seg.(datalen := |data|, flags := if data != [] then seg.flags.(psh := true) else seg.flags), data)
  }

  /** Choice of the segment to send. */
  function SendSegment(v: HView, awaiting: bool, room: nat): Sent
    requires Total(v.tx.spans) == |v.tx.sent| && |v.contents| + |v.ahead| < MOD
  {
    if awaiting || (v.requeue && v.tcb.state.SynSent?) then
      Emit(v, Segment(v.iss, 0, 0, |v.contents| + |v.ahead|, SYN), [])
    else if v.requeue && v.tcb.state.SynRcvd? then
      Emit(v, Segment(v.tcb.snd.una, v.tcb.rcv.nxt, 0, |v.ahead|, SYNACK), [])
    else if v.requeue then Sent(v.(requeue := false), None, [], HOk, None)
    else SendPending(v, room)
  }

  /** `Send` past the policy: close when due, then the segment. */
  function SendOrClose(w: HView, room: nat, limit: Size): Sent
    requires Total(w.tx.spans) == |w.tx.sent| && |w.contents| + |w.ahead| < MOD
  {
    var x := w.(closing := WantsClose(w));
    if NothingToDo(w) then Sent(x, None, [], HOk, None)
    else if !ClosesNow(w) then SendSegment(x, AwaitingSynSend(w), Room(w.tcb, w.tx, room, limit))
    else
      var (s, err) := C.Close(w.tcb);
      if err != C.NoErr then Sent(x.(tcb := C.RESET), None, [], HEOF, Some(C.RESET))
      else SendSegment(x.(tcb := s, closing := false), AwaitingSynSend(w), Room(s, w.tx, room, limit))
  }

  function HSend(v: HView, room: nat, steer: Steer): Sent
    requires Total(v.tx.spans) == |v.tx.sent| && |v.contents| + |v.ahead| < MOD
  {
    if IsTxOver(v) then Sent(v, None, [], HClosed, None)
    else
      RewindTotals(v, steer.rewind);
      SendOrClose(HRewind(v, steer.rewind), room, steer.limit)
  }

  lemma RewindTotals(v: HView, to: Option<Value>)
    requires Total(v.tx.spans) == |v.tx.sent|
    ensures Total(HRewind(v, to).tx.spans) == |HRewind(v, to).tx.sent|
    ensures HRewind(v, to).contents == v.contents && HRewind(v, to).ahead == v.ahead
    ensures to.None? ==> HRewind(v, to) == v
  {
    if to.Some? && C.CanRewind(v.tcb, to.value) {
      var i := Holding(v.tx.spans, to.value);
      if i < |v.tx.spans| {
        assert v.tx.spans[..i][..i] == v.tx.spans[..i];
        StartPrefix(v.tx.spans[..i], v.tx.spans, i);
        StartMonotone(v.tx.spans, i, |v.tx.spans|);
      }
    }
  }

  /** A handler whose buffers were emptied, around control block `s`. */
  predicate TornDown(v: HView, s: C.Tcb) {
    && v.tcb == s && v.tx.sent == [] && v.tx.unsent == [] && v.tx.spans == []
    && v.contents == [] && v.held == [] && v.remotePort == 0
    && !v.closing && !v.shutdownRx && !v.requeue
  }

  /** The view after a send: its outcome, unless that tore the handler down. */
  predicate SentView(r: Sent, v: HView) {
    if r.teardown.Some? then TornDown(v, r.teardown.value) else v == r.v
  }

  /** Whatever data is offered next starts where the transmit queue expects it. */
  predicate SendAgrees(v: HView, room: nat, steer: Steer)
    requires Total(v.tx.spans) == |v.tx.sent|
  {
    CloseAgrees(HRewind(v, steer.rewind), room, steer.limit)
  }

  predicate CloseAgrees(w: HView, room: nat, limit: Size) {
    var s := if ClosesNow(w) then C.Close(w.tcb).0 else w.tcb;
    OfferAgrees(s, w.tx, Room(s, w.tx, room, limit))
  }

  predicate OfferAgrees(s: C.Tcb, tx: TxView, room: nat) {
    var p := C.Pending(s, room);
    p.Some? && p.value.datalen > 0 ==> QueueAgrees(tx, p.value.first)
  }

  /** Nothing is unsent, or the transmit queue's idea of where the next packet starts agrees with number `at`. */
  predicate QueueAgrees(tx: TxView, at: Value) {
    tx.unsent == [] || tx.spans == [] || at == EndSeq(tx.spans) || LessThan(at, EndSeq(tx.spans))
  }
}
