/**
  Two endpoints from the handshake through every way of closing, over a network that loses, duplicates and
  reorders: each user reads a prefix of what the other wrote, and is told of the end only past all of it.

  A segment once sent stays in the set of its direction for ever, so any delivery order, any number
  of deliveries and none at all are runs, as long as a segment that arrives is not most of a turn of
  sequence space old. Streams have no length limit. Windows are not trusted: a segment is delivered
  with any window the wire format allows, which covers window scaling.
*/
module NetworkRuns {
  import opened Bytes
  import opened SeqNum
  import opened Segments
  import C = Control
  import R = ControlRuns
  import opened TxQueue
  import opened Reassembling
  import opened RxStream
  import opened HandlerSpec
  import opened Endpoint
  import opened StreamEnd
  import opened Writers

  /** A segment on the wire, with the stream positions its two sequence numbers stand for. */
  datatype Wire = Wire(seg: Segment, payload: seq<byte>, at: int, ackAt: int)

  /** An endpoint with what its user wrote and read. */
  datatype End = End(
    h: HView,
    written: seq<byte>,
    read: seq<byte>,
    fin: bool,      // its FIN went out
    ackTo: nat      // position in the peer's stream it last acknowledged or would acknowledge
  )

  function AsReader(x: End): Reader {
    Reader(x.h, x.read)
  }

  function St(x: End): State {
    x.h.tcb.state
  }

  /** A segment of the stream `S`, a FIN or anything past it only once the FIN went out. */
  ghost predicate OnWire(m: Wire, S: seq<byte>, base: int, fin: bool) {
    0 <= m.at && Honest(m.seg, m.payload, m.at, S, base) && (m.seg.flags.fin || m.at > |S| ==> fin)
  }

  ghost predicate AllOnWire(w: set<Wire>, S: seq<byte>, base: int, fin: bool) {
    forall m :: m in w ==> OnWire(m, S, base, fin)
  }

  /** A segment acknowledges no more than its sender received. */
  ghost predicate AcksUpTo(w: set<Wire>, base: int, r: nat) {
    forall m :: m in w && m.seg.flags.ack ==> m.seg.ackno == Wrap(base + m.ackAt) && m.ackAt <= r
  }

  /** Where `y` is in the stream of `x`. */
  ghost predicate Bounds(x: End, y: End) {
    && (HalfClosed(St(y)) ==> x.fin)
    && (Opened(St(y)) ==> y.ackTo == NextPos(AsReader(y), x.written))
    && y.ackTo <= |x.written| + Bit(x.fin) && |x.written| < y.ackTo + HALF
    && (St(x).TxQueuedDataOpen() ==> Una(x.h, x.written) <= y.ackTo)
  }

  /** The stream from `x` to `y` over the segments `w`. */
  ghost predicate Flow(x: End, y: End, w: set<Wire>, base: int) {
    && WriterOk(x.h, x.written, base, x.fin) && ReaderOk(AsReader(y), x.written, base)
    && Bounds(x, y) && AllOnWire(w, x.written, base, x.fin)
  }

  // ---- acts

  /** An act of the endpoint's own, or the arrival of a segment with any window. */
  datatype Act = Own(e: Event) | Take(m: Wire, wnd: Size)

  function EventOf(act: Act): Event {
    match act
    case Own(e) => e
    case Take(m, wnd) => Gets(m.seg.(wnd := wnd), m.payload, if m.at < 0 then 0 else m.at)
  }

  /** Not so old that its sequence numbers could be taken for new ones. */
  predicate Recent(x: End, m: Wire, S: seq<byte>) {
    && (Opened(St(x)) ==> NextPos(AsReader(x), S) - m.at <= MOD - MAX_WINDOW)
    && (St(x).TxQueuedDataOpen() ==> Una(x.h, x.written) - HALF < m.ackAt)
  }

  /** What `x` may do while the peer's stream is `S`. */
  ghost predicate CanDo(x: End, act: Act, S: seq<byte>, base: int, incoming: set<Wire>) {
    match act
    case Own(e) => !e.Gets? && CanBe(AsReader(x), e, S, base) && (e.Sends? ==> Orderly(x.h, e.room, e.steer))
    case Take(m, _) => m in incoming && Recent(x, m, S)
  }

  predicate DoesWrite(x: End, act: Act) {
    act.Own? && act.e.Writes? && HWrite(x.h, act.e.b).1 == HOk
  }

  predicate DoesSend(x: End, act: Act) {
    && act.Own? && act.e.Sends? && Fit(AsReader(x), act.e)
    && HSend(x.h, act.e.room, act.e.steer).seg.Some?
  }

  /** The segment put on the wire. */
  function Out(x: End, act: Act, base: int): Wire
    requires DoesSend(x, act)
  {
    var r := HSend(x.h, act.e.room, act.e.steer);
    Wire(r.seg.value, r.data, At(r.seg.value.first, x.written, base), x.ackTo)
  }

  function Emitted(x: End, act: Act, base: int): set<Wire> {
    if DoesSend(x, act) then {Out(x, act, base)} else {}
  }

  /** The endpoint afterwards. */
  ghost function Done(x: End, act: Act, S: seq<byte>): End {
    var r := Then(AsReader(x), EventOf(act));
    End(r.h, if DoesWrite(x, act) then x.written + act.e.b else x.written, r.read,
         x.fin || (DoesSend(x, act) && HSend(x.h, act.e.room, act.e.steer).seg.value.flags.fin),
         if Opened(r.h.tcb.state) then NextPos(r, S) else x.ackTo)
  }

  // ---- the reader's part

  /** A segment of the peer's may be taken. */
  lemma TakeFits(x: End, y: End, w: set<Wire>, base: int, act: Act)
    requires Flow(y, x, w, base) && CanDo(x, act, y.written, base, w)
    ensures CanBe(AsReader(x), EventOf(act), y.written, base)
    ensures act.Take? ==> OnWire(act.m, y.written, base, y.fin)
    ensures EventOf(act).Gets? ==> act.Take?
  {
    hide WriterOk, ReaderOk, Wrap;
    if act.Take? {
      assert OnWire(act.m, y.written, base, y.fin);
    }
  }

  /** What an act of `x` leaves of the peer's stream towards it. */
  lemma DoneReads(x: End, y: End, w: set<Wire>, base: int, act: Act)
    requires Flow(y, x, w, base) && CanDo(x, act, y.written, base, w)
    ensures var x' := Done(x, act, y.written);
            && Fit(AsReader(x), EventOf(act)) && Flow(y, x', w, base) && x.ackTo <= x'.ackTo
            && (Opened(St(x')) ==> Opened(St(x)))
  {
    hide WriterOk, ReaderOk, Wrap, CanDo, CanBe, Fit, Then, AllOnWire, Una;
    TakeFits(x, y, w, base, act);
    EventKept(AsReader(x), EventOf(act), y.written, base);
    FinTaken(x, y, base, act);
    GotFits(Done(x, act, y.written), y, base);
  }

  /** Only a FIN on the wire half closes a connection. */
  lemma FinTaken(x: End, y: End, base: int, act: Act)
    requires act.Take? ==> OnWire(act.m, y.written, base, y.fin)
    ensures act.Take? && EventOf(act).seg.flags.fin ==> y.fin
  {
    hide Honest;
  }

  lemma GotFits(x: End, y: End, base: int)
    requires ReaderOk(AsReader(x), y.written, base)
    ensures Got(AsReader(x)) <= |y.written|
  {
    hide Wrap, Lockstep, BuffersOk;
  }

  // ---- the writer's part

  /** A longer stream, as long as no FIN went out. */
  lemma WireGrows(m: Wire, S: seq<byte>, S': seq<byte>, base: int)
    requires OnWire(m, S, base, false) && S <= S'
    ensures OnWire(m, S', base, false)
  {
    hide Wrap;
  }

  lemma ReaderGrows(y: Reader, S: seq<byte>, S': seq<byte>, base: int)
    requires ReaderOk(y, S, base) && S <= S' && !HalfClosed(y.h.tcb.state)
    ensures ReaderOk(y, S', base)
  {
    hide Wrap, Lockstep, BuffersOk;
    if y.h.tcb.state.RxDataOpen() {
      StreamGrows(Rx(y.h), S, S', base, Got(y));
    }
  }

  /** A write towards `y`. */
  lemma WrittenFlow(x: End, y: End, w: set<Wire>, base: int, x': End, b: seq<byte>)
    requires Flow(x, y, w, base) && HWrite(x.h, b).1 == HOk
             && x' == x.(h := HWrite(x.h, b).0, written := x.written + b, ackTo := x'.ackTo)
    ensures Flow(x', y, w, base)
  {
    hide WriterOk, ReaderOk, Wrap, OnWire, TxWriteError;
    WriteKept(x.h, x.written, base, x.fin, b);
    ReaderGrows(AsReader(y), x.written, x'.written, base);
    forall m | m in w
      ensures OnWire(m, x'.written, base, false)
    {
      WireGrows(m, x.written, x'.written, base);
    }
    WriteSpot(x.h, x.written, b);
  }

  lemma WriteSpot(h: HView, S: seq<byte>, b: seq<byte>)
    requires HWrite(h, b).1 == HOk
    ensures Una(HWrite(h, b).0, S + b) == Una(h, S) && HWrite(h, b).0.tcb == h.tcb && h.tcb.state.TxDataOpen()
  {
    hide TxWriteError;
  }

  /** What leaves the stream and the wires alone. */
  lemma SameFlow(x: End, y: End, w: set<Wire>, base: int, x': End)
    requires Flow(x, y, w, base) && x'.written == x.written && x'.fin == x.fin
    requires WriterOk(x'.h, x.written, base, x.fin) && (St(x').TxQueuedDataOpen() ==> Una(x'.h, x.written) <= y.ackTo)
    ensures Flow(x', y, w, base)
  {
    hide WriterOk, ReaderOk, AllOnWire, Una;
  }

  /** The writer's part of the view after an act that neither writes nor sends. */
  ghost predicate StillWriter(x: End, h': HView, base: int, limit: nat) {
    WriterOk(h', x.written, base, x.fin) && (h'.tcb.state.TxQueuedDataOpen() ==> Una(h', x.written) <= limit)
  }

  ghost predicate Writer(x: End, base: int, limit: nat) {
    && StillWriter(x, x.h, base, limit) && BuffersOk(x.h) && (Opened(St(x)) || St(x).Closed?)
    && (St(x).Closed? ==> x.h.tcb.rcv.wnd == 0)
  }

  lemma WriterOfFlow(x: End, y: End, v: set<Wire>, baseX: int, w: set<Wire>, baseY: int)
    requires Flow(x, y, v, baseX) && Flow(y, x, w, baseY)
    ensures Writer(x, baseX, y.ackTo)
  {
    hide WriterOk, Wrap, Lockstep, BuffersOk, AllOnWire;
  }

  lemma CloseWriter(x: End, base: int, limit: nat, closing: bool)
    requires Writer(x, base, limit)
    ensures StillWriter(x, x.h.(closing := closing), base, limit)
  {
    hide WriterOk, BuffersOk;
    StaysOut(x.h, x.written, base, x.fin);
    if St(x).Closed? {
      GoneWriter(x.h.(closing := closing), x.written, base, x.fin);
    } else {
      WindowOk(x.h);
      FrameKept(x.h, x.h.(closing := closing), x.written, base, x.fin);
    }
  }

  lemma WindowOk(h: HView)
    requires BuffersOk(h)
    ensures h.tcb.rcv.wnd <= MAX_WINDOW && !h.shutdownRx && |h.contents| + |h.ahead| < MOD
            && Total(h.tx.spans) == |h.tx.sent|
  {
    hide Total;
  }

  lemma ReadWriter(x: End, base: int, limit: nat, want: nat)
    requires Writer(x, base, limit)
    ensures |x.h.contents| + |x.h.ahead| < MOD && StillWriter(x, HRead(x.h, want).0, base, limit)
  {
    hide WriterOk, BuffersOk, HRead;
    WindowOk(x.h);
    StaysOut(x.h, x.written, base, x.fin);
    ReadBlock(x.h, want);
    var h' := HRead(x.h, want).0;
    if St(x).Closed? {
      GoneWriter(h', x.written, base, x.fin);
    } else {
      FrameKept(x.h, h', x.written, base, x.fin);
    }
  }

  /** What a read leaves of the control block and the queue. */
  lemma ReadBlock(h: HView, want: nat)
    requires |h.contents| + |h.ahead| < MOD && !h.shutdownRx
    ensures var g := HRead(h, want).0;
            && g.tx == h.tx && g.requeue == h.requeue && g.tcb == h.tcb.(rcv := g.tcb.rcv, pending := g.tcb.pending)
            && g.tcb.rcv.wnd == h.tcb.rcv.wnd
               && (g.tcb.pending == h.tcb.pending || g.tcb.pending == h.tcb.pending.(ack := true))
  {
    hide DeliverHeld, WindowUpdateDue;
    var n := Min(want, |h.contents|);
    DeliveredBlock(h.(contents := h.contents[n..], ahead := h.ahead + h.contents[..n]));
  }

  lemma DeliveredBlock(v: HView)
    requires !v.shutdownRx
    ensures var g := DeliverHeld(v);
            && g.tx == v.tx && g.requeue == v.requeue && g.tcb == v.tcb.(rcv := g.tcb.rcv, pending := g.tcb.pending)
            && g.tcb.rcv.wnd == v.tcb.rcv.wnd
               && (g.tcb.pending == v.tcb.pending || g.tcb.pending == v.tcb.pending.(ack := true))
            && |g.contents| + |g.ahead| == |v.contents| + |v.ahead|
  {
    hide Wrap, Deliver;
  }

  lemma StrayWriter(x: End, base: int, limit: nat, seg: Segment, payload: seq<byte>)
    requires Writer(x, base, limit) && seg.datalen == |payload| && (seg.flags.syn || seg.flags.rst)
    ensures Total(x.h.tx.spans) == |x.h.tx.sent| && StillWriter(x, HRecv(x.h, seg, payload, 0, 0).0, base, limit)
  {
    hide WriterOk, BuffersOk, HRecv, C.Recv, Wrap;
    WindowOk(x.h);
    if St(x).Closed? {
      ClosedRecv(x.h, seg, payload);
    } else {
      if C.Recv(x.h.tcb, seg).1 == C.NoErr {
        AcceptedMoves(x.h.tcb, seg);
        assert false;
      }
      ArrivalWriter(x.h, seg, payload, x.written, base, x.fin, 0);
    }
  }

  lemma TakeWriter(x: End, base: int, limit: nat, m: Wire, wnd: Size)
    requires Writer(x, base, limit) && m.seg.datalen == |m.payload| && limit <= |x.written| + Bit(x.fin)
    requires m.seg.flags.ack ==> m.seg.ackno == Wrap(base + m.ackAt) && m.ackAt <= limit
    requires St(x).TxQueuedDataOpen() ==> Una(x.h, x.written) - HALF < m.ackAt
    ensures Total(x.h.tx.spans) == |x.h.tx.sent|
            && StillWriter(x, HRecv(x.h, m.seg.(wnd := wnd), m.payload, 0, 0).0, base, limit)
  {
    hide WriterOk, BuffersOk, HRecv, C.Recv, Wrap;
    var seg := m.seg.(wnd := wnd);
    WindowOk(x.h);
    if St(x).Closed? {
      ClosedRecv(x.h, seg, m.payload);
    } else {
      ArrivalWriter(x.h, seg, m.payload, x.written, base, x.fin, m.ackAt);
    }
  }

  /** Acts that neither write nor send. */
  lemma OtherFlow(x: End, y: End, v: set<Wire>, baseX: int, w: set<Wire>, baseY: int, act: Act)
    requires Flow(x, y, v, baseX) && Flow(y, x, w, baseY) && AcksUpTo(w, baseX, y.ackTo)
             && CanDo(x, act, y.written, baseY, w)
    requires !(act.Own? && (act.e.Writes? || act.e.Sends?))
    ensures Flow(Done(x, act, y.written), y, v, baseX)
  {
    hide WriterOk, ReaderOk, AllOnWire, HRecv, HRead, C.Recv, BuffersOk, Una, Honest;
    WriterOfFlow(x, y, v, baseX, w, baseY);
    TakeFits(x, y, w, baseY, act);
    EventKept(AsReader(x), EventOf(act), y.written, baseY);
    match act {
      case Take(m, wnd) =>
        WireSize(m, y.written, baseY, y.fin);
        TakeWriter(x, baseX, y.ackTo, m, wnd);
      case Own(Strays(seg, payload)) => StrayWriter(x, baseX, y.ackTo, seg, payload);
      case Own(Reads(want)) => ReadWriter(x, baseX, y.ackTo, want);
      case Own(Closes) => CloseWriter(x, baseX, y.ackTo, x.h.closing || !St(x).IsClosed());
      case _ =>
    }
    SameFlow(x, y, v, baseX, Done(x, act, y.written));
  }

  lemma WireSize(m: Wire, S: seq<byte>, base: int, fin: bool)
    requires OnWire(m, S, base, fin)
    ensures m.seg.datalen == |m.payload|
  {
  }

  /** A segment sent towards `y`. */
  lemma SentFlow(x: End, y: End, v: set<Wire>, baseX: int, w: set<Wire>, baseY: int, act: Act)
    requires Flow(x, y, v, baseX) && Flow(y, x, w, baseY) && CanDo(x, act, y.written, baseY, w) && act.Own?
             && act.e.Sends?
    ensures Flow(Done(x, act, y.written), y, v + Emitted(x, act, baseX), baseX)
    ensures Fit(AsReader(x), act.e) && SendAgrees(x.h, act.e.room, act.e.steer)
    ensures St(x).TxQueuedDataOpen() ==> NotRefused(HSend(x.h, act.e.room, act.e.steer))
  {
    hide WriterOk, ReaderOk, HSend, Orderly, Una, SendAgrees, Placed, QuietOk;
    TakeFits(x, y, w, baseY, act);
    EventKept(AsReader(x), EventOf(act), y.written, baseY);
    SendWriter(x.h, act.e.room, act.e.steer, x.written, baseX, x.fin);
    var r, x' := HSend(x.h, act.e.room, act.e.steer), Done(x, act, y.written);
    if r.teardown.Some? {
      TornWriter(x'.h, r.teardown.value, x.written, baseX, x'.fin);
    }
  }

  lemma TornWriter(h: HView, s: C.Tcb, S: seq<byte>, base: int, fin: bool)
    requires TornDown(h, s) && (s.state.Closed? || (s.state.TimeWait? && QuietOk(s, S, base, fin)))
    ensures WriterOk(h, S, base, fin) && !h.tcb.state.TxQueuedDataOpen()
  {
    hide QuietOk, QueueOk, BlockOk;
  }

  /** A write, taken or refused. */
  lemma WriteFlow(x: End, y: End, v: set<Wire>, baseX: int, w: set<Wire>, baseY: int, act: Act)
    requires Flow(x, y, v, baseX) && Flow(y, x, w, baseY) && CanDo(x, act, y.written, baseY, w) && act.Own?
             && act.e.Writes?
    ensures Flow(Done(x, act, y.written), y, v, baseX)
  {
    hide WriterOk, ReaderOk, HWrite, Bounds, AllOnWire;
    TakeFits(x, y, w, baseY, act);
    EventKept(AsReader(x), EventOf(act), y.written, baseY);
    var x' := Done(x, act, y.written);
    if DoesWrite(x, act) {
      WrittenFlow(x, y, v, baseX, x', act.e.b);
    } else {
      NotWritten(x.h, act.e.b);
      BoundsUna(x, y);
      SameFlow(x, y, v, baseX, x');
    }
  }

  lemma NotWritten(h: HView, b: seq<byte>)
    requires HWrite(h, b).1 != HOk
    ensures HWrite(h, b).0 == h
  {
    hide TxWriteError;
  }

  lemma BoundsUna(x: End, y: End)
    requires Bounds(x, y)
    ensures St(x).TxQueuedDataOpen() ==> Una(x.h, x.written) <= y.ackTo
  {
  }

  /** A segment acknowledges what its sender received. */
  lemma OutAcks(x: End, y: End, v: set<Wire>, baseX: int, w: set<Wire>, baseY: int, act: Act)
    requires Flow(x, y, v, baseX) && Flow(y, x, w, baseY) && CanDo(x, act, y.written, baseY, w) && DoesSend(x, act)
    ensures var m := Out(x, act, baseX); m.seg.flags.ack ==> m.seg.ackno == Wrap(baseY + x.ackTo)
  {
    hide WriterOk, HSend, Orderly, Una, SendAgrees, Placed, QuietOk, Wrap, Lockstep, AllOnWire;
    SendWriter(x.h, act.e.room, act.e.steer, x.written, baseX, x.fin);
    if x.h.tcb.state.RxDataOpen() {
      LockstepNext(x.h, y.written, baseY, Got(AsReader(x)));
    }
  }

  // ---- no further than was sent

  /** The position after the segment, its FIN included. */
  function Past(m: Wire): int {
    m.at + |m.payload| + Bit(m.seg.flags.fin)
  }

  ghost predicate Within(w: set<Wire>, hi: nat) {
    forall m :: m in w ==> Past(m) <= hi
  }

  /** What of the stream `S` lies before `hi`. */
  function Cut(S: seq<byte>, hi: nat): seq<byte> {
    S[..Min(hi, |S|)]
  }

  /** `y` is a reader of the stream of `x` before `hi`, and has not gone past that. */
  ghost predicate ReadsTo(x: End, y: End, base: int, hi: nat) {
    && ReaderOk(AsReader(y), Cut(x.written, hi), base) && y.ackTo <= hi
    && (HalfClosed(St(y)) ==> |x.written| + 1 <= hi)
  }

  /** Wherever all segments of `x` end, `y` has gone no further. */
  ghost predicate Covered(x: End, y: End, w: set<Wire>, base: int) {
    forall hi: nat :: Within(w, hi) ==> ReadsTo(x, y, base, hi)
  }

  /** A segment that ends before `hi` is one of the stream before `hi`. */
  lemma CutHonest(m: Wire, S: seq<byte>, base: int, fin: bool, hi: nat)
    requires OnWire(m, S, base, fin) && Past(m) <= hi
    ensures Honest(m.seg, m.payload, m.at, Cut(S, hi), base) && (m.seg.flags.fin ==> |S| + 1 <= hi)
  {
    hide Wrap;
  }

  lemma CutCanBe(x: End, y: End, w: set<Wire>, base: int, act: Act, hi: nat)
    requires Flow(y, x, w, base) && CanDo(x, act, y.written, base, w) && Within(w, hi) && ReadsTo(y, x, base, hi)
    ensures CanBe(AsReader(x), EventOf(act), Cut(y.written, hi), base)
    ensures act.Take? && EventOf(act).seg.flags.fin ==> |y.written| + 1 <= hi
    ensures EventOf(act).Gets? ==> act.Take?
  {
    hide WriterOk, ReaderOk, Wrap, Honest, SentView, BuffersOk;
    TakeFits(x, y, w, base, act);
    if act.Take? {
      CutHonest(act.m, y.written, base, y.fin, hi);
      HonestPayload(act.m.seg.(wnd := act.wnd), act.m.seg, act.m.payload, act.m.at, Cut(y.written, hi), base);
    }
  }

  lemma HonestPayload(seg: Segment, seg': Segment, payload: seq<byte>, at: nat, S: seq<byte>, base: int)
    requires Honest(seg', payload, at, S, base) && seg == seg'.(wnd := seg.wnd)
    ensures Honest(seg, payload, at, S, base)
  {
    hide Wrap;
  }

  /** An act of the reader. */
  lemma ReaderCovered(x: End, y: End, w: set<Wire>, base: int, act: Act)
    requires Flow(y, x, w, base) && CanDo(x, act, y.written, base, w) && Covered(y, x, w, base)
    ensures Covered(y, Done(x, act, y.written), w, base)
  {
    hide Flow, CanDo, ReadsTo, Done, Within;
    forall hi: nat | Within(w, hi)
      ensures ReadsTo(y, Done(x, act, y.written), base, hi)
    {
      ReadsOn(x, y, w, base, act, hi);
    }
  }

  lemma ReadsOn(x: End, y: End, w: set<Wire>, base: int, act: Act, hi: nat)
    requires Flow(y, x, w, base) && CanDo(x, act, y.written, base, w) && Within(w, hi) && ReadsTo(y, x, base, hi)
    ensures ReadsTo(y, Done(x, act, y.written), base, hi)
  {
    hide WriterOk, ReaderOk, Wrap, CanDo, CanBe, Fit, Then, AllOnWire, Una, Within;
    CutCanBe(x, y, w, base, act, hi);
    EventKept(AsReader(x), EventOf(act), Cut(y.written, hi), base);
    GotCut(Done(x, act, y.written), Cut(y.written, hi), base);
  }

  lemma GotCut(x: End, S: seq<byte>, base: int)
    requires ReaderOk(AsReader(x), S, base)
    ensures Got(AsReader(x)) <= |S|
  {
    hide Wrap, Lockstep, BuffersOk;
  }

  /** An act of the writer. */
  lemma WriterCovered(x: End, y: End, v: set<Wire>, base: int, act: Act, S: seq<byte>)
    requires Flow(x, y, v, base) && Covered(x, y, v, base)
    ensures Covered(Done(x, act, S), y, v + Emitted(x, act, base), base)
  {
    hide Flow, ReadsTo, Done, Emitted;
    var x', v' := Done(x, act, S), v + Emitted(x, act, base);
    forall hi: nat | Within(v', hi)
      ensures ReadsTo(x', y, base, hi)
    {
      assert Within(v, hi);
      StreamKept(x, y, v, base, act, S, hi);
    }
  }

  lemma StreamKept(x: End, y: End, v: set<Wire>, base: int, act: Act, S: seq<byte>, hi: nat)
    requires Flow(x, y, v, base) && ReadsTo(x, y, base, hi)
    ensures ReadsTo(Done(x, act, S), y, base, hi)
  {
    hide WriterOk, ReaderOk, Then, AllOnWire, HWrite, DoesSend, Una;
    if DoesWrite(x, act) {
      WriteKept(x.h, x.written, base, x.fin, act.e.b);
      ReaderGrows(AsReader(y), Cut(x.written, hi), Cut(x.written + act.e.b, hi), base);
    }
  }

  /** The receiver has gone no further than some segment that was sent. */
  lemma CoveredReaches(x: End, y: End, w: set<Wire>, base: int)
    requires Covered(x, y, w, base)
    ensures y.ackTo == 0 || exists m :: m in w && y.ackTo <= Past(m)
  {
    hide ReaderOk;
    if y.ackTo > 0 {
      assert !Within(w, y.ackTo - 1);
    }
  }

  // ---- runs

  /** Both directions of a connection; `ab` and `ba` are the segments ever sent. */
  datatype Net = Net(a: End, b: End, ab: set<Wire>, ba: set<Wire>)

  ghost predicate NetOk(n: Net, baseA: int, baseB: int) {
    && Flow(n.a, n.b, n.ab, baseA) && Flow(n.b, n.a, n.ba, baseB)
    && AcksUpTo(n.ab, baseB, n.a.ackTo) && AcksUpTo(n.ba, baseA, n.b.ackTo)
    && Covered(n.a, n.b, n.ab, baseA) && Covered(n.b, n.a, n.ba, baseB)
  }

  /** What one act of `x` keeps. */
  ghost predicate ActKept(x: End, y: End, v: set<Wire>, baseX: int, w: set<Wire>, baseY: int, act: Act) {
    var x', v' := Done(x, act, y.written), v + Emitted(x, act, baseX);
    Fit(AsReader(x), EventOf(act)) && Flow(x', y, v', baseX) && Flow(y, x', w, baseY) && AcksUpTo(v', baseY, x'.ackTo)
  }

  lemma ActKeeps(x: End, y: End, v: set<Wire>, baseX: int, w: set<Wire>, baseY: int, act: Act)
    requires Flow(x, y, v, baseX) && Flow(y, x, w, baseY) && AcksUpTo(w, baseX, y.ackTo) && AcksUpTo(v, baseY, x.ackTo)
    requires CanDo(x, act, y.written, baseY, w)
    ensures ActKept(x, y, v, baseX, w, baseY, act)
  {
    hide Flow, CanDo, Done, HSend, Wrap, Fit, At;
    DoneReads(x, y, w, baseY, act);
    if act.Own? && act.e.Sends? {
      SentFlow(x, y, v, baseX, w, baseY, act);
      if DoesSend(x, act) {
        OutAcks(x, y, v, baseX, w, baseY, act);
      }
    } else {
      assert v + Emitted(x, act, baseX) == v;
      if act.Own? && act.e.Writes? {
        WriteFlow(x, y, v, baseX, w, baseY, act);
      } else {
        OtherFlow(x, y, v, baseX, w, baseY, act);
      }
    }
  }

  datatype Side = SideA | SideB

  function Mine(n: Net, side: Side): End {
    if side.SideA? then n.a else n.b
  }

  function Theirs(n: Net, side: Side): End {
    if side.SideA? then n.b else n.a
  }

  ghost predicate NetCan(n: Net, side: Side, act: Act, baseA: int, baseB: int) {
    if side.SideA? then CanDo(n.a, act, n.b.written, baseB, n.ba) else CanDo(n.b, act, n.a.written, baseA, n.ab)
  }

  ghost function NetNext(n: Net, side: Side, act: Act, baseA: int, baseB: int): Net {
    if side.SideA? then n.(a := Done(n.a, act, n.b.written), ab := n.ab + Emitted(n.a, act, baseA))
    else n.(b := Done(n.b, act, n.a.written), ba := n.ba + Emitted(n.b, act, baseB))
  }

  lemma NetKeeps(n: Net, side: Side, act: Act, baseA: int, baseB: int)
    requires NetOk(n, baseA, baseB) && NetCan(n, side, act, baseA, baseB)
    ensures NetOk(NetNext(n, side, act, baseA, baseB), baseA, baseB) && Fit(AsReader(Mine(n, side)), EventOf(act))
  {
    hide Flow, CanDo, AcksUpTo, Done, Emitted, Fit, Covered;
    if side.SideA? {
      ActKeeps(n.a, n.b, n.ab, baseA, n.ba, baseB, act);
      WriterCovered(n.a, n.b, n.ab, baseA, act, n.b.written);
      ReaderCovered(n.a, n.b, n.ba, baseB, act);
    } else {
      ActKeeps(n.b, n.a, n.ba, baseB, n.ab, baseA, act);
      WriterCovered(n.b, n.a, n.ba, baseB, act, n.a.written);
      ReaderCovered(n.b, n.a, n.ab, baseA, act);
    }
  }

  /** The control block of an endpoint as a run of the state machine that has seen no FIN. */
  ghost predicate ControlOk(s: C.Tcb) {
    R.Inv(R.Track(s, false, 0, false, false)) && !s.pending.HasCtl()
  }

  /** An endpoint as the handshake leaves it: nothing written, read, queued or held. */
  ghost predicate Fledgling(x: End, base: int, peerBase: int) {
    && St(x).Established? && ControlOk(x.h.tcb) && !x.h.closing && !x.h.requeue && !x.h.shutdownRx
    && x.written == [] && x.read == [] && !x.fin && x.ackTo == 0
    && x.h.tx.sent == [] && x.h.tx.unsent == [] && x.h.tx.spans == [] && x.h.tx.size < HALF
    && x.h.contents == [] && x.h.held == [] && |x.h.ahead| <= MAX_WINDOW
    && x.h.tcb.snd.una == x.h.tcb.snd.nxt == Wrap(base) && x.h.tcb.rcv.nxt == Wrap(peerBase)
  }

  /** The handshake's last segment, which may still be on its way or arrive again. */
  predicate BareAck(m: Wire, base: int, peerBase: int) {
    && m.seg.flags == ACK && m.seg.datalen == 0 && m.payload == [] && m.at == 0 && m.ackAt == 0
    && m.seg.first == Wrap(base) && m.seg.ackno == Wrap(peerBase)
  }

  ghost predicate NetStart(n: Net, baseA: int, baseB: int) {
    && Fledgling(n.a, baseA, baseB) && Fledgling(n.b, baseB, baseA)
    && (forall m :: m in n.ab ==> BareAck(m, baseA, baseB)) && (forall m :: m in n.ba ==> BareAck(m, baseB, baseA))
  }

  lemma FledglingFlow(x: End, y: End, w: set<Wire>, base: int, peerBase: int)
    requires Fledgling(x, base, peerBase) && Fledgling(y, peerBase, base) && forall m :: m in w ==>
             BareAck(m, base, peerBase)
    ensures Flow(x, y, w, base) && AcksUpTo(w, peerBase, 0) && Covered(x, y, w, base)
  {
    hide R.SpaceOk, R.FlagsOk, R.HistoryOk, Wrap;
    EmptyTotal();
    assert base + 0 == base && peerBase + 0 == peerBase;
    WindowSmall(y.h.tcb);
    NewbornOk(AsReader(y), [], base);
    Loosened(R.Track(x.h.tcb, false, 0, false, false));
    forall m | m in w
      ensures OnWire(m, [], base, false) && m.seg.ackno == Wrap(peerBase + m.ackAt) && m.ackAt <= 0
    {
      assert BareAck(m, base, peerBase);
    }
  }

  lemma WindowSmall(s: C.Tcb)
    requires ControlOk(s)
    ensures s.rcv.wnd <= MAX_WINDOW
  {
    hide R.FlagsOk, R.HistoryOk;
  }

  lemma StartsInOrder(n: Net, baseA: int, baseB: int)
    requires NetStart(n, baseA, baseB)
    ensures NetOk(n, baseA, baseB)
  {
    hide Flow, AcksUpTo, ControlOk, BareAck, Covered;
    FledglingFlow(n.a, n.b, n.ab, baseA, baseB);
    FledglingFlow(n.b, n.a, n.ba, baseB, baseA);
  }

  /** A run: any acts of either endpoint, in any order. */
  ghost predicate NetRun(ns: seq<Net>, sides: seq<Side>, acts: seq<Act>, baseA: int, baseB: int) {
    && |ns| == |acts| + 1 && |sides| == |acts| && NetStart(ns[0], baseA, baseB)
    && forall i :: 0 <= i < |acts| ==> NetMove(ns, sides, acts, baseA, baseB, i)
  }

  ghost predicate NetMove(ns: seq<Net>, sides: seq<Side>, acts: seq<Act>, baseA: int, baseB: int, i: nat)
    requires i < |acts| == |sides| == |ns| - 1
  {
    NetCan(ns[i], sides[i], acts[i], baseA, baseB) && ns[i + 1] == NetNext(ns[i], sides[i], acts[i], baseA, baseB)
  }

  lemma {:induction false} RunInOrder(ns: seq<Net>, sides: seq<Side>, acts: seq<Act>, baseA: int, baseB: int, i: nat)
    requires NetRun(ns, sides, acts, baseA, baseB) && i < |ns|
    ensures NetOk(ns[i], baseA, baseB)
  {
    hide NetOk, NetCan, NetNext, NetStart;
    if i == 0 {
      StartsInOrder(ns[0], baseA, baseB);
    } else {
      RunInOrder(ns, sides, acts, baseA, baseB, i - 1);
      assert NetMove(ns, sides, acts, baseA, baseB, i - 1);
      NetKeeps(ns[i - 1], sides[i - 1], acts[i - 1], baseA, baseB);
    }
  }

  /**
    What `y` delivered to its user is a prefix of what the user of `x` wrote; SND.UNA of `x` is at most rcv.NXT of
    `y`, which some segment sent reaches; while `x` may send, it holds every byte `y` has not acknowledged, which is
    every byte `y` has not received while that may receive; and every FIN of `x` is numbered past all it wrote.
  */
  ghost predicate StreamSafe(x: End, y: End, w: set<Wire>, base: int) {
    && y.read <= x.written
    && (Opened(St(y)) ==> y.h.tcb.rcv.nxt == Wrap(base + y.ackTo))
    && (y.ackTo == 0 || exists m :: m in w && y.ackTo <= Past(m))
    && (St(x).TxQueuedDataOpen() ==>
          var u := Una(x.h, x.written);
          && x.h.tcb.snd.una == Wrap(base + u) && 0 <= u <= y.ackTo
          && u <= |x.written| && x.written[u..] == x.h.tx.sent + x.h.tx.unsent
          && (St(y).RxDataOpen() ==>
                u <= |y.read + y.h.contents|
                  && x.written == (y.read + y.h.contents)[..u] + x.h.tx.sent + x.h.tx.unsent))
    && forall m :: m in w && m.seg.flags.fin ==> x.fin && m.at + |m.payload| == |x.written|
  }

  lemma FlowIsSafe(x: End, y: End, w: set<Wire>, base: int)
    requires Flow(x, y, w, base) && Covered(x, y, w, base)
    ensures StreamSafe(x, y, w, base)
  {
    hide Wrap, Lockstep, Coherent, BlockOk, BuffersOk, QuietOk, Covered, Past;
    CoveredReaches(x, y, w, base);
    if St(y).RxDataOpen() {
      LockstepNext(y.h, x.written, base, Got(AsReader(y)));
    }
    assert y.read == (y.read + y.h.contents)[..|y.read|];
    if St(x).TxQueuedDataOpen() && St(y).RxDataOpen() {
      var u := Una(x.h, x.written);
      assert x.written == x.written[..u] + x.written[u..] && u <= Got(AsReader(y));
      assert (y.read + y.h.contents)[..u] == x.written[..u];
    }
    forall m | m in w && m.seg.flags.fin
      ensures x.fin && m.at + |m.payload| == |x.written|
    {
      assert OnWire(m, x.written, base, x.fin);
    }
  }

  /** A read that asks for bytes and is told of the end has been given everything. */
  lemma FlowEnds(x: End, y: End, w: set<Wire>, base: int, want: nat)
    requires Flow(x, y, w, base) && want > 0 && |y.h.contents| + |y.h.ahead| < MOD
    ensures HRead(y.h, want).2 == HEOF ==> x.fin && y.read == x.written
  {
    hide Wrap, Lockstep, WriterOk, AllOnWire, DeliverHeld, WindowUpdateDue, Total;
    assert y.read == (y.read + y.h.contents)[..|y.read|];
  }

  /**
    Through every close: in every run each user reads a prefix of what the other wrote, no byte is lost while it
    can still be sent and received, and every FIN follows everything its sender wrote.
  */
  lemma RunStreamSafe(ns: seq<Net>, sides: seq<Side>, acts: seq<Act>, baseA: int, baseB: int, i: nat)
    requires NetRun(ns, sides, acts, baseA, baseB) && i < |ns|
    ensures StreamSafe(ns[i].a, ns[i].b, ns[i].ab, baseA) && StreamSafe(ns[i].b, ns[i].a, ns[i].ba, baseB)
  {
    hide Flow, StreamSafe, NetRun, AcksUpTo, Covered;
    RunInOrder(ns, sides, acts, baseA, baseB, i);
    FlowIsSafe(ns[i].a, ns[i].b, ns[i].ab, baseA);
    FlowIsSafe(ns[i].b, ns[i].a, ns[i].ba, baseB);
  }

  /** Once the FIN went out nothing more is written. */
  lemma {:induction false} Frozen(ns: seq<Net>, sides: seq<Side>, acts: seq<Act>, baseA: int, baseB: int, i: nat,
                                  j: nat, side: Side)
    requires NetRun(ns, sides, acts, baseA, baseB) && i <= j < |ns| && Mine(ns[i], side).fin
    ensures Mine(ns[j], side).fin && Mine(ns[j], side).written == Mine(ns[i], side).written
  {
    hide NetOk, NetCan, NetStart, NetNext, Mine;
    if i < j {
      Frozen(ns, sides, acts, baseA, baseB, i, j - 1, side);
      assert NetMove(ns, sides, acts, baseA, baseB, j - 1);
      RunInOrder(ns, sides, acts, baseA, baseB, j - 1);
      FrozenStep(ns[j - 1], sides[j - 1], acts[j - 1], baseA, baseB, side);
    }
  }

  lemma FrozenStep(n: Net, mover: Side, act: Act, baseA: int, baseB: int, side: Side)
    requires NetOk(n, baseA, baseB) && Mine(n, side).fin
    ensures var n' := NetNext(n, mover, act, baseA, baseB);
            Mine(n', side).fin && Mine(n', side).written == Mine(n, side).written
  {
    hide NetOk, Then, DoesSend, DoesWrite, Emitted;
    NoMoreWrites(n, side, act, baseA, baseB);
  }

  lemma NoMoreWrites(n: Net, side: Side, act: Act, baseA: int, baseB: int)
    requires NetOk(n, baseA, baseB) && Mine(n, side).fin
    ensures !DoesWrite(Mine(n, side), act)
  {
    hide ReaderOk, Wrap, TxWriteError, AllOnWire, AcksUpTo, QueueOk, BlockOk, QuietOk, Bounds;
  }

  /**
    End of file is the end: a read that asks for bytes and is told of it finds that its user was given everything
    the other user wrote, and the other user never writes more. Every act finds the endpoint in a state its
    functions are defined on.
  */
  lemma EndOfFile(ns: seq<Net>, sides: seq<Side>, acts: seq<Act>, baseA: int, baseB: int, i: nat, j: nat)
    requires NetRun(ns, sides, acts, baseA, baseB) && i < |acts| && i <= j < |ns|
    ensures var x, e := Mine(ns[i], sides[i]), EventOf(acts[i]);
            && Fit(AsReader(x), e)
            && (e.Reads? && e.want > 0 && HRead(x.h, e.want).2 == HEOF ==> x.read == Theirs(ns[j], sides[i]).written)
  {
    hide Flow, NetNext, NetStart, HRead, CanDo, AcksUpTo;
    RunInOrder(ns, sides, acts, baseA, baseB, i);
    assert NetMove(ns, sides, acts, baseA, baseB, i);
    NetKeeps(ns[i], sides[i], acts[i], baseA, baseB);
    var n, side, e := ns[i], sides[i], EventOf(acts[i]);
    if e.Reads? && e.want > 0 && HRead(Mine(n, side).h, e.want).2 == HEOF {
      if side.SideA? {
        FlowEnds(n.b, n.a, n.ba, baseB, e.want);
        Frozen(ns, sides, acts, baseA, baseB, i, j, SideB);
      } else {
        FlowEnds(n.a, n.b, n.ab, baseA, e.want);
        Frozen(ns, sides, acts, baseA, baseB, i, j, SideA);
      }
    }
  }

  /**
    In every run a send meets the handler's precondition and never finds the queue out of step. While queued data
    may be sent it is not refused either.
  */
  lemma RunSends(ns: seq<Net>, sides: seq<Side>, acts: seq<Act>, baseA: int, baseB: int, i: nat)
    requires NetRun(ns, sides, acts, baseA, baseB) && i < |acts| && EventOf(acts[i]).Sends?
    ensures var x, e := Mine(ns[i], sides[i]), EventOf(acts[i]);
            && Fit(AsReader(x), e) && SendAgrees(x.h, e.room, e.steer)
            && (St(x).TxQueuedDataOpen() ==> NotRefused(HSend(x.h, e.room, e.steer)))
  {
    hide Flow, NetNext, NetStart, CanDo, SendAgrees, AcksUpTo, HSend;
    RunInOrder(ns, sides, acts, baseA, baseB, i);
    assert NetMove(ns, sides, acts, baseA, baseB, i);
    var n, act := ns[i], acts[i];
    if sides[i].SideA? {
      SentFlow(n.a, n.b, n.ab, baseA, n.ba, baseB, act);
    } else {
      SentFlow(n.b, n.a, n.ba, baseB, n.ab, baseA, act);
    }
  }

  /** Retransmissions are faithful: two segments of one direction never disagree about a stream byte. */
  lemma RunSameBytes(ns: seq<Net>, sides: seq<Side>, acts: seq<Act>, baseA: int, baseB: int, i: nat, m: Wire,
                     m': Wire, k: int)
    requires NetRun(ns, sides, acts, baseA, baseB) && i < |ns|
    requires (m in ns[i].ab && m' in ns[i].ab) || (m in ns[i].ba && m' in ns[i].ba)
    requires m.at <= k < m.at + |m.payload| && m'.at <= k < m'.at + |m'.payload|
    ensures m.payload[k - m.at] == m'.payload[k - m'.at]
  {
    hide AcksUpTo, NetMove, NetStart, Wrap, WriterOk, ReaderOk, Bounds;
    RunInOrder(ns, sides, acts, baseA, baseB, i);
    var n := ns[i];
    if m in n.ab && m' in n.ab {
      assert OnWire(m, n.a.written, baseA, n.a.fin) && OnWire(m', n.a.written, baseA, n.a.fin);
    } else {
      assert OnWire(m, n.b.written, baseB, n.b.fin) && OnWire(m', n.b.written, baseB, n.b.fin);
    }
  }
}
