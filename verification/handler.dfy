/** `Handler` (tcp/handler.go): the glue between control block, transmit queue, receive ring and reassembly. */
module Handlers {
  import opened Options
  import opened Bytes
  import opened SeqNum
  import opened Segments
  import C = Control
  import opened ControlBlocks
  import opened Rings
  import opened TxQueue
  import opened RingTransmit
  import opened Reassembling
  import opened RxStream
  import opened HandlerSpec

  class Handler {
    const scb: ControlBlock
    const bufTx: RingTx
    const bufRx: Ring
    const reasm: Reassembly
    var remotePort: nat
    var closing: bool
    var shutdownRx: bool
    var requeue: bool

    ghost predicate Valid()
      reads this, bufTx, bufRx
    {
      && bufTx.Valid() && bufRx.Valid()
      && bufTx.rawbuf != bufRx.buf
      && bufRx.buf.Length < HALF
    }

    ghost function View(): HView
      requires Valid()
      reads this, scb, bufTx, bufTx.rawbuf, bufRx, bufRx.buf, reasm
    {
      HView(scb.Tcb(), bufTx.View(), bufRx.Contents(), bufRx.Ahead(), reasm.held, reasm.slots,
            bufTx.iss, remotePort, closing, shutdownRx, requeue)
    }

    constructor (txbuf: array<byte>, rxbuf: array<byte>, packets: nat)
      requires txbuf != rxbuf && 2 <= txbuf.Length < HALF && 2 <= rxbuf.Length < HALF && 0 < packets <= txbuf.Length
      ensures Valid() && fresh(scb) && fresh(bufTx) && fresh(bufRx) && fresh(reasm)
      ensures bufTx.rawbuf == txbuf && bufRx.buf == rxbuf
      ensures View() == HView(C.RESET, TxView([], [], [], packets, txbuf.Length), [], rxbuf[..], [],
                              MAX_REASM_SEGMENTS, 0, 0, false, false, false)
    {
      scb := new ControlBlock();
      bufTx := new RingTx(txbuf, packets, 0);
      bufRx := new Ring(rxbuf, 0, 0);
      reasm := new Reassembly(MAX_REASM_SEGMENTS);
      remotePort, closing, shutdownRx, requeue := 0, false, false, false;
    }

    method Write(b: seq<byte>) returns (n: nat, err: HErr)
      requires Valid()
      modifies bufTx`unsentend, bufTx.rawbuf
      ensures Valid()
      ensures (View(), err) == HWrite(old(View()), b)
      ensures n == if err == HOk then |b| else 0
    {
      hide Layout, Region, Turn, Used, TxWriteError, Spans, Total;
      if closing {
        return 0, HClosing;
      } else if !scb.state.TxDataOpen() {
        return 0, HClosed;
      }
      var e;
      n, e := bufTx.Write(b);
      return n, if e == TxOk then HOk else HQueue(e);
    }

    /** Delivers held segments that have become contiguous. */
    method DeliverReassembled()
      requires Valid()
      modifies scb, bufRx`end, reasm`held
      ensures Valid()
      ensures View() == DeliverHeld(old(View()))
    {
      hide Layout, Region, Turn, Used, Spans, Total, Deliver, Wrap, RingTx.Valid, RingTx.View;
      if |reasm.held| == 0 {
        return;
      }
      if shutdownRx {
        reasm.Clear();
        return;
      }
      var delivered := reasm.Reassemble(bufRx, scb.rcv.nxt);
      NextAfter(scb.rcv.nxt, delivered);
      if delivered > 0 {
        scb.rcv := scb.rcv.(nxt := Wrap(scb.rcv.nxt + delivered));
        scb.pending0 := Or(scb.pending0, ACK);
      }
    }

    method Read(want: nat) returns (data: seq<byte>, err: HErr)
      requires Valid()
      modifies scb, bufRx`off, bufRx`end, reasm`held
      ensures Valid()
      ensures (View(), data, err) == HRead(old(View()), want)
    {
      hide Layout, Region, Turn, Used, Spans, Total, Deliver, Wrap, RingTx.Valid, RingTx.View, DeliverHeld, HeldBytes;
      if shutdownRx {
        return [], HEOF;
      }
      data, err := [], HOk;
      if bufRx.Buffered() > 0 {
        var e;
        data, e := bufRx.Read(want);
      }
      ghost var v := old(View());
      assert v.contents[0..] == v.contents && v.ahead + [] == v.ahead;
      assert data == v.contents[..Min(want, |v.contents|)];
      assert View() == v.(contents := v.contents[|data|..], ahead := v.ahead + data);
      if |data| > 0 {
        DeliverReassembled();
        MaybeQueueWindowUpdate();
      }
      if |data| == 0 {
        if scb.state.IsClosed() {
          err := HClosed;
        } else if !scb.state.RxDataOpen() {
          err := HEOF;
        }
      }
    }

    method RecvWindowNow() returns (wnd: Size)
      requires Valid()
      ensures wnd == RecvWindow(View())
    {
      hide Layout, Region, Turn, Used, Spans, Total, RingTx.Valid, RingTx.View, HeldBytes;
      var free := bufRx.Free();
      if reasm.slots == 0 {
        return free;
      }
      var ooo := reasm.BufferedBytes();
      if ooo < free {
        return free - ooo;
      }
      return 0;
    }

    method MaybeQueueWindowUpdate()
      requires Valid()
      modifies scb`pending0
      ensures Valid()
      ensures View() == if WindowUpdateDue(old(View())) then QueueAck(old(View())) else old(View())
    {
      hide Layout, Region, Turn, Used, Spans, Total, RingTx.Valid, RingTx.View, HeldBytes, RecvWindow;
      var currentFree := RecvWindowNow();
      var lastAdvertised := scb.rcv.wnd;
      if currentFree <= lastAdvertised {
        return;
      }
      var thresh := bufRx.Size() / 2;
      if scb.snd.mss > 0 && scb.snd.mss < thresh {
        thresh := scb.snd.mss;
      }
      if currentFree - lastAdvertised >= thresh {
        scb.pending0 := Or(scb.pending0, ACK);
      }
    }

    /** Stages pure data that arrived ahead of rcv.NXT; false leaves the segment to the control block. */
    method HandleOutOfOrder(seg: Segment, payload: seq<byte>) returns (done: bool)
      requires Valid() && seg.datalen == |payload|
      modifies scb`pending0, reasm`held, bufRx.buf
      ensures Valid()
      ensures var v := old(View());
              && (done <==>
                 OutOfOrder(v, seg) && !Place(v.held, v.slots, |v.ahead|, v.tcb.rcv.nxt, seg.first, |payload|).Refused?)
              && View() == if done then QueueAck(WithRx(v, RxStore(Rx(v), seg.first, payload))) else v
    {
      hide Layout, Region, Turn, Used, Spans, Total, Wrap, InWindow, Sizeof, Place, RingTx.Valid, RingTx.View,
           Segment.Last;
      if reasm.slots == 0 || shutdownRx {
        return false;
      }
      if seg.datalen == 0 || seg.flags.HasCtl() {
        return false;
      }
      if seg.first == scb.rcv.nxt {
        return false;
      }
      if !InWindow(seg.first, scb.rcv.nxt, scb.rcv.wnd) || !InWindow(seg.Last(), scb.rcv.nxt, scb.rcv.wnd) {
        return false;
      }
      done := reasm.Store(bufRx, scb.rcv.nxt, seg.first, payload);
      if !done {
        return;
      }
      scb.pending0 := Or(scb.pending0, ACK);
    }

    /** Writes an accepted payload to the ring and delivers what it uncovers. */
    method TakeIn(payload: seq<byte>)
      requires Valid() && (shutdownRx || |payload| <= bufRx.Free())
      modifies scb, bufRx`end, bufRx.buf, reasm`held
      ensures Valid()
      ensures View() == TakePayload(old(View()), payload)
    {
      hide Layout, Region, Turn, Used, Spans, Total, Wrap, DeliverHeld, EndAfter, RingTx.View, RingTx.Valid;
      if payload != [] && !shutdownRx {
        var n, e := bufRx.Write(payload);
      }
      if payload != [] {
        DeliverReassembled();
      }
    }

    /** The part of `Recv` that follows the control block's acceptance. */
    method Accept(prevUna: Value, seg: Segment, payload: seq<byte>, mss: Size, port: nat)
      requires Valid() && (shutdownRx || |payload| <= bufRx.Free()) && seg.datalen == |payload|
      modifies this`remotePort, scb, bufTx, bufRx`end, bufRx.buf, reasm`held
      ensures Valid() && bufTx.rawbuf == old(bufTx.rawbuf)
      ensures View() == Accepted(old(View()), prevUna, seg, payload, mss, port)
    {
      hide Layout, Region, Turn, Used, Spans, Total, Wrap, DeliverHeld, TakePayload, TxAck, AckTaken, EndAfter,
           RingTx.View, RingTx.Valid, Ring.Contents, Ring.Ahead;
      TakeIn(payload);
      if seg.flags.ack && seg.ackno != prevUna {
        FreeAcked(seg.ackno);
      }
      if seg.flags.syn {
        NoteSyn(mss, port);
      }
    }

    method FreeAcked(ack: Value)
      requires Valid()
      modifies bufTx
      ensures Valid() && bufTx.rawbuf == old(bufTx.rawbuf)
      ensures Total(old(View()).tx.spans) == |old(View()).tx.sent|
      ensures View() == old(View()).(tx := TxAck(old(View()).tx, ack))
    {
      hide Layout, Region, Turn, Used, Spans, Total, Wrap, TxAck, AckTaken, RingTx.View, RingTx.Valid, Ring.Contents,
           Ring.Ahead;
      QueueTotals();
      var e := bufTx.RecvACK(ack);
    }

    /** Options and port learned from a SYN. */
    method NoteSyn(mss: Size, port: nat)
      requires Valid()
      modifies this`remotePort, scb`snd
      ensures Valid()
      ensures var v := old(View());
              View() == v.(tcb := if mss > 0 then v.tcb.(snd := v.tcb.snd.(mss := mss)) else v.tcb,
                           remotePort := if v.remotePort == 0 then port else v.remotePort)
    {
      hide RingTx.View, RingTx.Valid, Ring.Contents, Ring.Ahead;
      if mss > 0 {
        scb.snd := scb.snd.(mss := mss);
      }
      if remotePort == 0 {
        remotePort := port;
      }
    }

    method Recv(seg: Segment, payload: seq<byte>, mss: Size, port: nat) returns (err: HErr)
      requires Valid() && seg.datalen == |payload|
      modifies this`remotePort, scb, bufTx, bufRx`end, bufRx.buf, reasm`held
      ensures Valid() && bufTx.rawbuf == old(bufTx.rawbuf)
      ensures (View(), err) == HRecv(old(View()), seg, payload, mss, port)
    {
      hide Layout, Region, Turn, Used, Spans, Total, Wrap, OutOfOrder, Place, RxStore, Accepted, C.Recv, C.HasPending,
           RingTx.Valid, RingTx.View;
      QueueTotals();
      if TxOver() {
        return HClosed;
      }
      if IsKeepalive(scb.Tcb(), seg) {
        return HOk;
      }
      var done := HandleOutOfOrder(seg, payload);
      if done {
        return HOk;
      }
      if !shutdownRx && |payload| > bufRx.Free() {
        return HBufferFull;
      }
      var prevUna := scb.snd.una;
      var e := scb.Recv(seg);
      if e != C.NoErr {
        return if scb.state.Closed? then HClosed else HReject(e);
      }
      if scb.state.Closed? {
        return HClosed;
      }
      if seg.datalen != 0 && shutdownRx && (scb.state.FinWait1? || scb.state.FinWait2?) {
        scb.QueueRst(seg.ackno);
        return HOk;
      }
      Accept(prevUna, seg, payload, mss, port);
      return HOk;
    }

    predicate TxOver()
      reads this, scb
    {
      (scb.state.Closed? && remotePort == 0) || (scb.state.TimeWait? && !C.HasPending(scb.Tcb()))
    }

    lemma QueueTotals()
      requires Valid()
      ensures Total(View().tx.spans) == |View().tx.sent|
    {
      bufTx.ViewIsCoherent();
    }

    /** Rewinds SND.NXT and the transmit queue to `to`, when the control block allows it. */
    method Rewind(to: Value)
      requires Valid() && RewindStaysInQueue(to)
      modifies scb, bufTx
      ensures Valid() && bufTx.rawbuf == old(bufTx.rawbuf)
      ensures Total(old(View()).tx.spans) == |old(View()).tx.sent|
      ensures View() == HRewind(old(View()), Some(to))
    {
      hide Layout, Region, Turn, Used, Total, Wrap, C.CanRewind, TxRewind, Ring.Contents, Ring.Ahead, Start;
      QueueTotals();
      var ok := scb.RetransmitFrom(to);
      if ok {
        bufTx.RetransmitFrom(to);
      }
    }

    /** The packet `to` falls into, if any, can be rewound to. */
    ghost predicate RewindStaysInQueue(to: Value)
      reads this, bufTx
    {
      var i := Holding(Spans(bufTx.pkts), to);
      i == |bufTx.pkts| || RewindSafe(bufTx.pkts, i)
    }

    /** `reset`: drops everything buffered; the control block is left as it is. */
    method Reset()
      requires Valid()
      modifies this, bufTx, bufRx`off, bufRx`end, reasm`held
      ensures Valid() && bufTx.rawbuf == old(bufTx.rawbuf)
      ensures TornDown(View(), scb.Tcb())
    {
      hide Layout, Region, Turn, Used, Spans, Total, Wrap, RingTx.View, RingTx.Valid;
      remotePort, closing, shutdownRx, requeue := 0, false, false, false;
      reasm.Clear();
      bufTx.Reset(0);
      bufRx.Reset();
    }

    /** Hands `seg` to the control block and tears the handler down when that ended the connection. */
    method EmitSegment(seg: Segment, data: seq<byte>) returns (out: Option<Segment>, payload: seq<byte>, err: HErr)
      requires Valid()
      modifies this, scb, bufTx, bufRx`off, bufRx`end, reasm`held
      ensures Valid() && bufTx.rawbuf == old(bufTx.rawbuf)
      ensures var r := Emit(old(View()), seg, data);
              (out, payload, err) == (r.seg, r.data, r.err) && SentView(r, View())
    {
      hide Layout, Region, Turn, Used, Spans, Total, Wrap, RingTx.View, RingTx.Valid, Ring.Contents, Ring.Ahead,
           C.Send, TornDown;
      var prevState := scb.state;
      C.SendRefused(scb.Tcb(), seg);
      var e := scb.Send(seg);
      if e != C.NoErr {
        return None, [], HReject(e);
      }
      requeue := false;
      if prevState.TimeWait? && seg.flags.ack {
        Reset();
      } else if seg.flags.rst {
        scb.Abort();
        Reset();
      }
      return Some(seg), data, HOk;
    }

    /** Sends what is pending, filled with data from the transmit queue. */
    method SendNext(room: nat) returns (out: Option<Segment>, payload: seq<byte>, err: HErr)
      requires Valid() && OfferAgrees(scb.Tcb(), bufTx.View(), room)
      modifies this, scb, bufTx, bufRx`off, bufRx`end, reasm`held
      ensures Valid() && bufTx.rawbuf == old(bufTx.rawbuf)
      ensures Total(old(View()).tx.spans) == |old(View()).tx.sent|
      ensures var r := SendPending(old(View()), room);
              (out, payload, err) == (r.seg, r.data, r.err) && SentView(r, View())
    {
      hide Layout, Region, Turn, Used, Spans, Total, Wrap, RingTx.Valid, Ring.Contents, Ring.Ahead, C.Pending, C.Send,
           TornDown, RecvWindow, TxSend, Emit, EndSeq;
      QueueTotals();
      var p := scb.PendingSegment(room);
      if p.None? {
        return None, [], HOk;
      }
      var wnd := RecvWindowNow();
      var seg := p.value.(wnd := wnd);
      if seg.flags == SYNACK || seg.datalen == 0 {
        out, payload, err := EmitSegment(seg, []);
        return;
      }
      var data, e := bufTx.MakePacket(seg.datalen, seg.first);
      if e != TxOk {
        return None, [], HQueue(e);
      }
      seg := seg.(datalen := |data|);
      if |data| > 0 {
        seg := seg.(flags := Or(seg.flags, PSH));
      }
      out, payload, err := EmitSegment(seg, data);
    }

    /** Chooses between a handshake segment to (re)send and what is pending. */
    method SendChosen(awaiting: bool, room: nat) returns (out: Option<Segment>, payload: seq<byte>, err: HErr)
      requires Valid() && OfferAgrees(scb.Tcb(), bufTx.View(), room)
      modifies this, scb, bufTx, bufRx`off, bufRx`end, reasm`held
      ensures Valid() && bufTx.rawbuf == old(bufTx.rawbuf)
      ensures Total(old(View()).tx.spans) == |old(View()).tx.sent|
      ensures var r := SendSegment(old(View()), awaiting, room);
              (out, payload, err) == (r.seg, r.data, r.err) && SentView(r, View())
    {
      hide Layout, Region, Turn, Used, Spans, Total, Wrap, RingTx.Valid, RingTx.View, C.Pending, C.Send,
           TornDown, TxSend, Emit, SendPending, OfferAgrees;
      QueueTotals();
      if awaiting || (requeue && scb.state.SynSent?) {
        out, payload, err := EmitSegment(Segment(bufTx.iss, 0, 0, bufRx.Size(), SYN), []);
      } else if requeue && scb.state.SynRcvd? {
        out, payload, err := EmitSegment(Segment(scb.snd.una, scb.rcv.nxt, 0, bufRx.Free(), SYNACK), []);
      } else if requeue {
        requeue := false;
        return None, [], HOk;
      } else {
        out, payload, err := SendNext(room);
      }
    }

    /** Starts the close when it is due; `done` says there is nothing more to send now. */
    method CloseIfDue() returns (done: bool, err: HErr)
      requires Valid()
      modifies this, scb, bufTx, bufRx`off, bufRx`end, reasm`held
      ensures Valid() && bufTx.rawbuf == old(bufTx.rawbuf)
      ensures var w := old(View());
              var x := w.(closing := WantsClose(w));
              var (s, e) := C.Close(w.tcb);
              && (done <==> NothingToDo(w) || (ClosesNow(w) && e != C.NoErr))
              && err == (if NothingToDo(w) || !done then HOk else HEOF)
              && (if NothingToDo(w) then View() == x
                  else if !ClosesNow(w) then View() == x
                  else if e != C.NoErr then TornDown(View(), C.RESET)
                  else View() == x.(tcb := s, closing := false))
    {
      hide Layout, Region, Turn, Used, Spans, Total, Wrap, RingTx.Valid, C.Close, C.HasPending,
           TornDown, Ring.Contents, Ring.Ahead, RingTx.View;
      var awaiting := remotePort != 0 && scb.state.Closed?;
      var buffered := bufTx.BufferedUnsent();
      if scb.state.CloseWait? && !closing && buffered == 0 && !C.HasPending(scb.Tcb()) {
        closing := true;
      }
      if !awaiting && !requeue && buffered == 0 && !closing && !C.HasPending(scb.Tcb()) {
        return true, HOk;
      }
      if buffered == 0 && closing && (!scb.state.CloseWait? || !C.HasPending(scb.Tcb())) {
        var ok := StartClose();
        return !ok, if ok then HOk else HEOF;
      }
      return false, HOk;
    }

    /** Closes the control block; a block that cannot be closed ends the connection. */
    method StartClose() returns (ok: bool)
      requires Valid()
      modifies this, scb, bufTx, bufRx`off, bufRx`end, reasm`held
      ensures Valid() && bufTx.rawbuf == old(bufTx.rawbuf)
      ensures ok <==> C.Close(old(View()).tcb).1 == C.NoErr
      ensures if ok then View() == old(View()).(tcb := C.Close(old(View()).tcb).0, closing := false)
              else TornDown(View(), C.RESET)
    {
      hide Layout, Region, Turn, Used, Spans, Total, Wrap, RingTx.Valid, C.Close, TornDown, Ring.Contents, Ring.Ahead,
           RingTx.View;
      closing := false;
      var e := scb.Close();
      ok := e == C.NoErr;
      if !ok {
        scb.Abort();
        Reset();
      }
    }

    /** `Send` past the policy. */
    method SendUnsteered(room: nat, limit: Size) returns (out: Option<Segment>, payload: seq<byte>, err: HErr)
      requires Valid() && CloseAgrees(View(), room, limit)
      modifies this, scb, bufTx, bufRx`off, bufRx`end, reasm`held
      ensures Valid() && bufTx.rawbuf == old(bufTx.rawbuf)
      ensures Total(old(View()).tx.spans) == |old(View()).tx.sent|
      ensures var r := SendOrClose(old(View()), room, limit);
              (out, payload, err) == (r.seg, r.data, r.err) && SentView(r, View())
    {
      hide Layout, Region, Turn, Used, Spans, Total, Wrap, RingTx.Valid, C.Close, WantsClose, NothingToDo, ClosesNow,
           TornDown, SendSegment, Room, OfferAgrees, Ring.Contents, Ring.Ahead, RingTx.View;
      QueueTotals();
      var awaiting := remotePort != 0 && scb.state.Closed?;
      var done;
      done, err := CloseIfDue();
      if done {
        return None, [], err;
      }
      out, payload, err := SendLimited(awaiting, room, limit);
    }

    /** Clamps new data to what the policy allows. */
    method SendLimited(awaiting: bool, room: nat, limit: Size)
        returns (out: Option<Segment>, payload: seq<byte>, err: HErr)
      requires Valid() && OfferAgrees(scb.Tcb(), bufTx.View(), Room(scb.Tcb(), bufTx.View(), room, limit))
      modifies this, scb, bufTx, bufRx`off, bufRx`end, reasm`held
      ensures Valid() && bufTx.rawbuf == old(bufTx.rawbuf)
      ensures Total(old(View()).tx.spans) == |old(View()).tx.sent|
      ensures var v := old(View());
              var r := SendSegment(v, awaiting, Room(v.tcb, v.tx, room, limit));
              (out, payload, err) == (r.seg, r.data, r.err) && SentView(r, View())
    {
      hide Layout, Region, Turn, Used, Spans, Total, Wrap, RingTx.Valid, C.Pending, C.Send,
           TornDown, SendSegment, NextIsRetransmit, OfferAgrees, Ring.Contents, Ring.Ahead, RingTx.View;
      var maxPayload := room;
      var retransmit := NextSegmentIsRetransmit();
      if limit < maxPayload && !retransmit {
        maxPayload := limit;
      }
      out, payload, err := SendChosen(awaiting, maxPayload);
    }

    method NextSegmentIsRetransmit() returns (r: bool)
      requires Valid()
      ensures r == NextIsRetransmit(scb.Tcb(), bufTx.View())
    {
      hide Layout, Region, Turn, Used, Total, Wrap, Ring.Contents, Ring.Ahead, LessThan;
      if bufTx.pkts == [] {
        return false;
      }
      var newest := bufTx.pkts[|bufTx.pkts| - 1];
      return LessThan(scb.snd.nxt, Wrap(newest.first + newest.size));
    }

    /** `Send` into a frame with `room` bytes for payload; `steer` is what the policy asked for. */
    method Send(room: nat, steer: Steer) returns (out: Option<Segment>, payload: seq<byte>, err: HErr)
      requires Valid() && (steer.rewind.Some? ==> RewindStaysInQueue(steer.rewind.value))
      requires Total(View().tx.spans) == |View().tx.sent| && SendAgrees(View(), room, steer)
      modifies this, scb, bufTx, bufRx`off, bufRx`end, reasm`held
      ensures Valid() && bufTx.rawbuf == old(bufTx.rawbuf)
      ensures var r := HSend(old(View()), room, steer);
              (out, payload, err) == (r.seg, r.data, r.err) && SentView(r, View())
    {
      hide Layout, Region, Turn, Used, Spans, Total, Wrap, RingTx.Valid, RingTx.View, C.HasPending,
           TornDown, SendOrClose, CloseAgrees, HRewind, Holding;
      if TxOver() {
        return None, [], HClosed;
      }
      RewindTotals(View(), steer.rewind);
      if steer.rewind.Some? {
        Rewind(steer.rewind.value);
      }
      out, payload, err := SendUnsteered(room, steer.limit);
    }

    method Close() returns (err: HErr)
      requires Valid()
      modifies this`closing
      ensures Valid()
      ensures View() == old(View()).(closing := old(closing) || err == HOk)
      ensures err == if old(closing) then HClosing else if scb.state.IsClosed() then HClosed else HOk
    {
      hide Layout, Region, Turn, Used, Spans, Total, RingTx.Valid, RingTx.View;
      if closing {
        return HClosing;
      } else if scb.state.IsClosed() {
        return HClosed;
      }
      closing := true;
      return HOk;
    }
  }

  lemma NextAfter(nxt: Value, n: nat)
    ensures n == 0 ==> Wrap(nxt + n) == nxt
  {
  }
}
