/** The transmit queue and SND.NXT together: rewinds, new packets and retransmissions as parts of the stream. */
module SendQueue {
  import opened Options
  import opened Bytes
  import opened SeqNum
  import C = Control
  import R = ControlRuns
  import opened TxQueue
  import opened HandlerSpec
  import opened Endpoint

  // ---- rewinds

  /** Where a sequence number near the queue falls: in the span the search finds, or past the end. */
  lemma HoldingPosition(spans: seq<Span>, base: int, p: nat)
    requires Chained(spans) && Total(spans) < HALF && p < HALF && (spans != [] ==> spans[0].first == Wrap(base))
    ensures var i := Holding(spans, Wrap(base + p));
            if i < |spans| then Start(spans, i) <= p < Start(spans, i + 1) else Total(spans) <= p
  {
    hide Wrap, Start, Holding;
    var i := Holding(spans, Wrap(base + p));
    if i < |spans| {
      SpanOffset(spans, base, p, i);
    } else {
      PastAll(spans, base, p, |spans|);
    }
  }

  lemma SpanOffset(spans: seq<Span>, base: int, p: nat, i: nat)
    requires Chained(spans) && Total(spans) < HALF && p < HALF && i < |spans| && spans[0].first == Wrap(base)
    ensures Sizeof(spans[i].first, Wrap(base + p)) < spans[i].size <==> Start(spans, i) <= p < Start(spans, i + 1)
  {
    hide Wrap, Start;
    assert InChain(spans, i);
    WrapAdd(base, Start(spans, i));
    StartNext(spans, i);
    StartMonotone(spans, i + 1, |spans|);
    WrapDiff(base, p, Start(spans, i));
    ShortWay(p - Start(spans, i));
  }

  lemma ShortWay(d: int)
    requires -HALF < d < HALF
    ensures Wrap(d) == if d < 0 then d + MOD else d
  {
  }

  lemma {:induction false} PastAll(spans: seq<Span>, base: int, p: nat, j: nat)
    requires Chained(spans) && Total(spans) < HALF && p < HALF && j <= |spans|
             && (spans != [] ==> spans[0].first == Wrap(base))
    requires Holding(spans, Wrap(base + p)) == |spans|
    ensures Start(spans, j) <= p
  {
    hide Wrap, Holding;
    if j > 0 {
      PastAll(spans, base, p, j - 1);
      SpanOffset(spans, base, p, j - 1);
    }
  }

  /** Position of a rewind the control block allows. */
  lemma RewindPosition(h: HView, S: seq<byte>, base: int, u: int, to: Value) returns (p: nat)
    requires SenderOk(h, S, base, u) && C.CanRewind(h.tcb, to)
    ensures p <= |h.tx.sent| && to == Wrap(base + u + p)
  {
    hide Wrap, LessThan, Chained, Total;
    p := Sizeof(h.tcb.snd.una, to);
    SizeofExact(base, u, u + |h.tx.sent|);
    assert base + (u + |h.tx.sent|) == base + u + |h.tx.sent|;
    R.RewindExact(h.tcb.snd.una, h.tcb.snd.nxt, to);
    WrapCancel(to, base + u);
    WrapAdd(to - h.tcb.snd.una, base + u);
  }

  /** The queue after a rewind to position `p` of span `i`: in step exactly when the span starts there. */
  lemma RewoundSender(h: HView, S: seq<byte>, base: int, u: int, p: nat, i: nat)
    requires SenderOk(h, S, base, u) && i < |h.tx.spans| && Start(h.tx.spans, i) <= p < Start(h.tx.spans, i + 1)
    ensures var h' := h.(tcb := h.tcb.(snd := h.tcb.snd.(nxt := Wrap(base + u + p)), dupack := 0, nRetransmit := 0),
            tx := TxRewind(h.tx, i));
            && (SenderOk(h', S, base, u) <==> p == Start(h.tx.spans, i))
            && |h'.tx.sent| <= |h.tx.sent| && |h'.tx.sent| + |h'.tx.unsent| == |h.tx.sent| + |h.tx.unsent|
  {
    hide Wrap, Start, Chained;
    RewindKeeps(h.tx, i);
    StartMonotone(h.tx.spans, i, |h.tx.spans|);
    StartMonotone(h.tx.spans, i + 1, |h.tx.spans|);
    OrderExact(base + u, p, Start(h.tx.spans, i));
  }

  /**
    A rewind keeps SND.NXT and the transmit queue in step if and only if it goes to the start of a
    queued packet or to SND.NXT itself: the queue always rewinds to the start of the packet.
  */
  lemma RewindExactly(h: HView, S: seq<byte>, base: int, u: int, to: Value)
    requires SenderOk(h, S, base, u) && C.CanRewind(h.tcb, to)
    ensures SenderOk(HRewind(h, Some(to)), S, base, u) <==> PacketStart(h, to)
  {
    hide Wrap, Start, Chained, Holding, LessThan, Total, TxRewind, SenderOk;
    var p := RewindPosition(h, S, base, u, to);
    SenderParts(h, S, base, u);
    HoldingPosition(h.tx.spans, base + u, p);
    var i := Holding(h.tx.spans, to);
    if i < |h.tx.spans| {
      RewoundSender(h, S, base, u, p, i);
      PacketStartAt(h, S, base, u, p, i);
    } else {
      SenderFrame(h, HRewind(h, Some(to)), S, base, u);
    }
  }

  lemma SenderParts(h: HView, S: seq<byte>, base: int, u: int)
    requires SenderOk(h, S, base, u)
    ensures Chained(h.tx.spans) && Total(h.tx.spans) == |h.tx.sent| < HALF
    ensures h.tx.spans != [] ==> h.tx.spans[0].first == Wrap(base + u)
    ensures h.tcb.snd.una == Wrap(base + u) && h.tcb.snd.nxt == Wrap(base + u + |h.tx.sent|)
  {
    hide Wrap, Total, Chained;
  }

  lemma PacketStartAt(h: HView, S: seq<byte>, base: int, u: int, p: nat, i: nat)
    requires SenderOk(h, S, base, u) && i < |h.tx.spans| && Start(h.tx.spans, i) <= p < Start(h.tx.spans, i + 1)
    ensures PacketStart(h, Wrap(base + u + p)) <==> p == Start(h.tx.spans, i)
  {
    hide Wrap, Start;
    SenderParts(h, S, base, u);
    var spans := h.tx.spans;
    StartMonotone(spans, i + 1, |spans|);
    OrderExact(base + u, p, |h.tx.sent|);
    forall j | 0 <= j < |spans|
      ensures spans[j].first == Wrap(base + u + p) <==> p == Start(spans, j)
    {
      assert InChain(spans, j);
      WrapAdd(base + u, Start(spans, j));
      StartMonotone(spans, j, |spans|);
      OrderExact(base + u, p, Start(spans, j));
    }
    forall j | 0 <= j < |spans| && p == Start(spans, j)
      ensures j == i
    {
      if j < i {
        assert InChain(spans, j);
        StartNext(spans, j);
        StartMonotone(spans, j + 1, i);
      } else if j > i {
        StartMonotone(spans, i + 1, j);
      }
    }
  }

  // ---- sends

  lemma NextIsMove(t: R.Track, op: R.Op)
    requires op.DoSend? && C.Pending(t.s, op.payload).Some?
    ensures R.Next(t, op).s == C.Send(t.s, R.Outgoing(t.s, op)).0
  {
    hide C.Send, C.Pending;
  }

  /** Asked for data at SND.NXT, the queue makes a packet of the next unsent bytes, or has none or no room for it. */
  lemma MakeCases(h: HView, S: seq<byte>, base: int, u: int, want: nat)
    requires SenderOk(h, S, base, u) && 0 < want
    ensures var r := TxSend(h.tx, want, h.tcb.snd.nxt);
            var n := Min(want, |h.tx.unsent|);
            || r == (h.tx, [], TxBufferFull) || (r == (h.tx, [], TxOk) && h.tx.unsent == [])
            || (0 < n && |h.tx.spans| < h.tx.slots && r == (TxMake(h.tx, n, h.tcb.snd.nxt), h.tx.unsent[..n], TxOk))
    ensures h.tx.spans != [] ==> EndSeq(h.tx.spans) == h.tcb.snd.nxt
  {
    hide Wrap, LessThan, Chained, Start, StartingAt, TxMake;
    if h.tx.spans != [] {
      EndOfChain(h.tx.spans);
      WrapAdd(base + u, |h.tx.sent|);
      R.NotBeforeItself(h.tcb.snd.nxt);
    }
  }

  /** New data is the next unsent part of the stream, and the queue stays in step once SND.NXT moves past it. */
  lemma MadeSender(h: HView, S: seq<byte>, base: int, u: int, n: nat)
    requires SenderOk(h, S, base, u) && 0 < n <= |h.tx.unsent| && |h.tx.spans| < h.tx.slots
    requires h.tx.spans != [] ==> EndSeq(h.tx.spans) == h.tcb.snd.nxt
    ensures var tx := TxMake(h.tx, n, h.tcb.snd.nxt);
            && h.tx.unsent[..n] == S[u + |h.tx.sent|..u + |h.tx.sent| + n]
            && SenderOk(h.(tx := tx, tcb := h.tcb.(snd := h.tcb.snd.(nxt := Wrap(h.tcb.snd.nxt + n)))), S, base, u)
  {
    hide Wrap, Chained, Total, EndSeq;
    var sent, unsent := h.tx.sent, h.tx.unsent;
    MakeKeeps(h.tx, n, h.tcb.snd.nxt);
    WrapAdd(base + u + |sent|, n);
    if h.tx.spans == [] {
      EmptyTotal();
    }
    assert unsent[..n] == (sent + unsent)[|sent|..|sent| + n] == S[u..][|sent|..|sent| + n];
    assert unsent == unsent[..n] + unsent[n..];
  }

  /** Retransmission at SND.UNA: the queue hands out the oldest packet, or a prefix of it. */
  lemma ResendSender(h: HView, S: seq<byte>, base: int, u: int, want: nat)
    requires SenderOk(h, S, base, u) && h.tx.sent != []
    ensures var (tx, data, err) := TxSend(h.tx, want, h.tcb.snd.una);
            && (err == TxOk || err == TxBufferFull) && (err != TxOk ==> data == [])
            && tx == h.tx && |data| <= |h.tx.sent| && data == S[u..u + |data|]
            && QueueAgrees(h.tx, h.tcb.snd.una)
  {
    hide Wrap, LessThan, Chained, Start;
    var tx := h.tx;
    assert tx.spans != [] by { if tx.spans == [] { EmptyTotal(); } }
    EndOfChain(tx.spans);
    WrapAdd(base + u, |tx.sent|);
    OrderExact(base + u, 0, |tx.sent|);
    FirstSpan(tx.spans);
    assert Start(tx.spans, 0) == 0 by { StartZero(tx.spans); }
    var k := Min(want, tx.spans[0].size);
    assert tx.sent[..k] == (tx.sent + tx.unsent)[..k] == S[u..][..k];
  }

  lemma StartZero(spans: seq<Span>)
    ensures Start(spans, 0) == 0
  {
  }

  /** Positions of the two places data is sent from. */
  lemma SendPositions(h: HView, S: seq<byte>, base: int, u: int)
    requires SenderOk(h, S, base, u)
    ensures Sizeof(h.tcb.snd.una, h.tcb.snd.nxt) == |h.tx.sent| && Sizeof(h.tcb.snd.una, h.tcb.snd.una) == 0
    ensures h.tx.sent != [] ==> LessThan(h.tcb.snd.una, h.tcb.snd.nxt)
    ensures h.tx.sent == [] ==> h.tcb.snd.una == h.tcb.snd.nxt
  {
    hide Wrap, Chained, Total, LessThan;
    SizeofExact(base + u, 0, |h.tx.sent|);
    SizeofSelf(h.tcb.snd.una);
    OrderExact(base + u, 0, |h.tx.sent|);
  }

}
