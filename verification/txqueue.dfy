/**
  The transmit queue of tcp/txqueue.go: one raw buffer holding sent-but-unacknowledged bytes
  followed by unsent bytes, and the list of packets the sent bytes went out in.

  `TxView` is what the offsets stand for: the two byte queues and the spans of sequence space the
  packets cover. `RingTx` is proved to act on it as the `Tx…` functions do.
*/
module TxQueue {
  import opened Bytes
  import opened SeqNum

  datatype TxError = TxOk | TxBufferFull | TxShortBuffer | TxNoData | TxDrop | TxBug

  /** The sequence numbers one queued packet covers. */
  datatype Span = Span(first: Value, size: nat)

  datatype TxView = TxView(
    sent: seq<byte>,      // transmitted, not yet acknowledged
    unsent: seq<byte>,    // written, not yet transmitted
    spans: seq<Span>,     // packets carrying `sent`, oldest first
    slots: nat,           // packets the list may hold
    size: nat             // bytes the buffer may hold
  )

  /** Sum of the sizes of the first `i` spans. */
  function Start(spans: seq<Span>, i: nat): nat
    requires i <= |spans|
  {
    if i == 0 then 0 else Start(spans, i - 1) + spans[i - 1].size
  }

  function Total(spans: seq<Span>): nat {
    Start(spans, |spans|)
  }

  /** Sequence number following the newest packet. */
  function EndSeq(spans: seq<Span>): Value
    requires spans != []
  {
    Wrap(spans[|spans| - 1].first + spans[|spans| - 1].size)
  }

  /** The spans cover consecutive sequence numbers, without an empty one. */
  ghost predicate Chained(spans: seq<Span>) {
    forall i :: 0 <= i < |spans| ==> InChain(spans, i)
  }

  ghost predicate InChain(spans: seq<Span>, i: nat)
    requires i < |spans|
  {
    0 < spans[i].size && spans[i].first == Wrap(spans[0].first + Start(spans, i))
  }

  /** The queue's own invariant, free of buffer offsets. */
  ghost predicate Coherent(v: TxView) {
    && v.size < HALF
    && |v.spans| <= v.slots
    && Chained(v.spans)
    && Total(v.spans) == |v.sent|
    && |v.sent| + |v.unsent| <= v.size
  }

  /** Index of the span holding `at`, or the number of spans when none does. */
  function Holding(spans: seq<Span>, at: Value): (i: nat)
    ensures i <= |spans|
    ensures i < |spans| ==> Sizeof(spans[i].first, at) < spans[i].size
    ensures forall j :: 0 <= j < i ==> Sizeof(spans[j].first, at) >= spans[j].size
  {
    if spans == [] then 0
    else if Sizeof(spans[0].first, at) < spans[0].size then 0
    else 1 + Holding(spans[1..], at)
  }

  /** Index of the span starting at `at`, or the number of spans when none does. */
  function StartingAt(spans: seq<Span>, at: Value): (i: nat)
    ensures i <= |spans|
    ensures i < |spans| ==> spans[i].first == at
    ensures forall j :: 0 <= j < i ==> spans[j].first != at
  {
    if spans == [] then 0
    else if spans[0].first == at then 0
    else 1 + StartingAt(spans[1..], at)
  }

  /** Spans left once the first `d` sequence numbers are acknowledged. */
  function DropSpans(spans: seq<Span>, d: nat): seq<Span>
    requires d <= Total(spans)
  {
    if spans == [] || d == 0 then spans
    else if spans[0].size <= d then
      StartTail(spans, |spans| - 1);
      DropSpans(spans[1..], d - spans[0].size)
    else [Span(Wrap(spans[0].first + d), spans[0].size - d)] + spans[1..]
  }

  /** Whether a write is taken: exactly when it is not empty and fits the free space. */
  function TxWriteError(v: TxView, b: seq<byte>): (e: TxError)
    ensures e == TxOk <==> 0 < |b| && |v.sent| + |v.unsent| + |b| <= v.size
  {
    if b == [] then TxNoData
    else if v.sent != [] && |b| > v.size then TxShortBuffer
    else if |b| > v.size - |v.sent| - |v.unsent| then TxBufferFull
    else TxOk
  }

  function TxWrite(v: TxView, b: seq<byte>): TxView {
    v.(unsent := v.unsent + b)
  }

  function TxMake(v: TxView, n: nat, at: Value): TxView
    requires n <= |v.unsent|
  {
    v.(sent := v.sent + v.unsent[..n], unsent := v.unsent[n..], spans := v.spans + [Span(at, n)])
  }

  /** What asking for a packet of up to `want` bytes at sequence number `at` yields. */
  function TxSend(v: TxView, want: nat, at: Value): (r: (TxView, seq<byte>, TxError))
    requires Total(v.spans) == |v.sent|
    ensures |r.1| <= want
  {
    if |v.spans| >= v.slots then (v, [], TxBufferFull)
    else if v.spans != [] && LessThan(at, EndSeq(v.spans)) then
      var i := StartingAt(v.spans, at);
      if i == |v.spans| then (v, [], TxBug)
      else
        StartMonotone(v.spans, i + 1, |v.spans|);
        (v, v.sent[Start(v.spans, i)..Start(v.spans, i) + Min(want, v.spans[i].size)], TxOk)
    else if v.unsent == [] then (v, [], TxOk)
    else
      var n := Min(want, |v.unsent|);
      (TxMake(v, n, at), v.unsent[..n], TxOk)
  }

  /** Bytes `ack` acknowledges, negative when it is older than the queue. */
  function AckOffset(v: TxView, ack: Value): int
    requires v.spans != []
  {
    Int32(Wrap(ack - v.spans[0].first))
  }

  /** `ack` is one the queue takes: not past its end. */
  predicate AckTaken(v: TxView, ack: Value) {
    v.spans != [] && |v.sent| - HALF < AckOffset(v, ack) <= |v.sent|
  }

  function TxAck(v: TxView, ack: Value): TxView
    requires Total(v.spans) == |v.sent|
  {
    if !AckTaken(v, ack) || AckOffset(v, ack) <= 0 then v
    else v.(sent := v.sent[AckOffset(v, ack)..], spans := DropSpans(v.spans, AckOffset(v, ack)))
  }

  /** Rewinds to the start of span `i`. */
  function TxRewind(v: TxView, i: nat): TxView
    requires i <= |v.spans| && Total(v.spans) == |v.sent|
  {
    StartMonotone(v.spans, i, |v.spans|);
    v.(sent := v.sent[..Start(v.spans, i)],
       unsent := v.sent[Start(v.spans, i)..] + v.unsent,
       spans := v.spans[..i])
  }

  lemma StartNext(spans: seq<Span>, i: nat)
    requires i < |spans|
    ensures Start(spans, i + 1) == Start(spans, i) + spans[i].size
  {
  }

  lemma StartMonotone(spans: seq<Span>, i: nat, j: nat)
    requires i <= j <= |spans|
    ensures Start(spans, i) <= Start(spans, j)
    decreases j
  {
    if i < j {
      StartMonotone(spans, i, j - 1);
    }
  }

  lemma StartTail(spans: seq<Span>, i: nat)
    requires spans != [] && i < |spans|
    ensures Start(spans[1..], i) == Start(spans, i + 1) - spans[0].size
  {
    if i > 0 {
      StartTail(spans, i - 1);
    }
  }

  lemma StartPrefix(a: seq<Span>, b: seq<Span>, i: nat)
    requires i <= |a| && i <= |b| && a[..i] == b[..i]
    ensures Start(a, i) == Start(b, i)
  {
    if i > 0 {
      assert a[..i - 1] == a[..i][..i - 1] == b[..i - 1];
      assert a[..i][i - 1] == b[..i][i - 1];
      StartPrefix(a, b, i - 1);
    }
  }

  lemma StartAppend(spans: seq<Span>, s: Span)
    ensures Total(spans + [s]) == Total(spans) + s.size
    ensures forall i :: 0 <= i <= |spans| ==> Start(spans + [s], i) == Start(spans, i)
  {
    forall i | 0 <= i <= |spans|
      ensures Start(spans + [s], i) == Start(spans, i)
    {
      assert (spans + [s])[..i] == spans[..i];
      StartPrefix(spans + [s], spans, i);
    }
  }

  /** The end of a chain is its start plus its length. */
  lemma EndOfChain(spans: seq<Span>)
    requires spans != [] && Chained(spans)
    ensures EndSeq(spans) == Wrap(spans[0].first + Total(spans))
  {
    var last := |spans| - 1;
    assert InChain(spans, last);
    WrapAdd(spans[0].first + Start(spans, last), spans[last].size);
  }

  /** A packet made at `at` keeps the queue coherent if and only if it continues the chain. */
  lemma MakeKeeps(v: TxView, n: nat, at: Value)
    requires Coherent(v) && 0 < n <= |v.unsent| && |v.spans| < v.slots
    ensures Coherent(TxMake(v, n, at)) <==> v.spans == [] || at == EndSeq(v.spans)
    ensures Chained(TxMake(v, n, at).spans) <==> v.spans == [] || at == EndSeq(v.spans)
  {
    StartAppend(v.spans, Span(at, n));
    var spans := TxMake(v, n, at).spans;
    if v.spans != [] {
      EndOfChain(v.spans);
      assert InChain(spans, |v.spans|) <==> at == EndSeq(v.spans);
    }
    if v.spans == [] || at == EndSeq(v.spans) {
      forall i | 0 <= i < |spans|
        ensures InChain(spans, i)
      {
        assert i < |v.spans| ==> InChain(v.spans, i);
      }
    }
  }

  /** Dropping `d` sequence numbers leaves a chain that starts `d` later. */
  lemma {:induction false} DropChained(spans: seq<Span>, d: nat)
    requires Chained(spans) && d <= Total(spans)
    ensures Chained(DropSpans(spans, d))
    ensures |DropSpans(spans, d)| <= |spans|
    ensures Total(DropSpans(spans, d)) == Total(spans) - d
    ensures DropSpans(spans, d) == [] <==> d == Total(spans)
    ensures DropSpans(spans, d) != [] ==> DropSpans(spans, d)[0].first == Wrap(spans[0].first + d)
    ensures DropSpans(spans, d) != [] ==> EndSeq(DropSpans(spans, d)) == EndSeq(spans)
  {
    hide Start, Chained;
    if spans == [] || d == 0 {
      if spans != [] {
        FirstSpan(spans);
      }
      assert spans == [] ==> Total(spans) == 0 by { EmptyTotal(); }
    } else if spans[0].size <= d {
      TailChained(spans);
      StartTail(spans, |spans| - 1);
      DropChained(spans[1..], d - spans[0].size);
      WrapAdd(spans[0].first + spans[0].size, d - spans[0].size);
    } else {
      FirstSpan(spans);
      TrimChained(spans, d);
    }
  }

  lemma EmptyTotal()
    ensures Total([]) == 0
  {
  }

  lemma FirstSpan(spans: seq<Span>)
    requires spans != [] && Chained(spans)
    ensures 0 < spans[0].size <= Total(spans)
  {
    assert InChain(spans, 0);
    StartMonotone(spans, 1, |spans|);
    assert Start(spans, 1) == Start(spans, 0) + spans[0].size;
  }

  lemma TailChained(spans: seq<Span>)
    requires spans != [] && Chained(spans)
    ensures Chained(spans[1..])
    ensures |spans| > 1 ==> spans[1].first == Wrap(spans[0].first + spans[0].size)
  {
    assert |spans| > 1 ==> InChain(spans, 1);
    assert Start(spans, 1) == Start(spans, 0) + spans[0].size;
    forall i | 0 <= i < |spans| - 1
      ensures InChain(spans[1..], i)
    {
      assert InChain(spans, i + 1);
      StartTail(spans, i);
      WrapAdd(spans[0].first + spans[0].size, Start(spans[1..], i));
    }
  }

  lemma TrimChained(spans: seq<Span>, d: nat)
    requires Chained(spans) && spans != [] && 0 < d < spans[0].size
    ensures d <= Total(spans)
    ensures Chained(DropSpans(spans, d))
    ensures Total(DropSpans(spans, d)) == Total(spans) - d
    ensures EndSeq(DropSpans(spans, d)) == EndSeq(spans)
  {
    StartMonotone(spans, 1, |spans|);
    var t := DropSpans(spans, d);
    forall i | 0 <= i < |spans|
      ensures InChain(t, i)
    {
      assert InChain(spans, i);
      if i > 0 {
        StartTrimmed(spans, t, d, i);
        WrapAdd(spans[0].first + d, Start(t, i));
      }
    }
    StartTrimmed(spans, t, d, |spans|);
    EndOfChain(spans);
    EndOfChain(t);
    WrapAdd(spans[0].first + d, Total(t));
  }

  lemma StartTrimmed(spans: seq<Span>, t: seq<Span>, d: nat, i: nat)
    requires spans != [] && d < spans[0].size && 1 <= i <= |spans|
    requires t == [Span(Wrap(spans[0].first + d), spans[0].size - d)] + spans[1..]
    ensures Start(t, i) == Start(spans, i) - d
  {
    if i == 1 {
      assert Start(t, 1) == Start(t, 0) + t[0].size;
      assert Start(spans, 1) == Start(spans, 0) + spans[0].size;
    } else {
      StartTrimmed(spans, t, d, i - 1);
      assert t[i - 1] == spans[i - 1];
    }
  }

  /** An acknowledgement keeps the queue coherent and drops exactly the bytes it covers. */
  lemma AckKeeps(v: TxView, ack: Value)
    requires Coherent(v)
    ensures Coherent(TxAck(v, ack))
    ensures TxAck(v, ack).spans != [] ==> EndSeq(TxAck(v, ack).spans) == EndSeq(v.spans)
    ensures AckTaken(v, ack) && AckOffset(v, ack) >= 0 && TxAck(v, ack).spans != [] ==>
              TxAck(v, ack).spans[0].first == ack
  {
    if AckTaken(v, ack) && AckOffset(v, ack) > 0 {
      DropChained(v.spans, AckOffset(v, ack));
    }
    if AckTaken(v, ack) && AckOffset(v, ack) >= 0 {
      WrapAdd(ack - v.spans[0].first, v.spans[0].first);
    }
  }

  /** Rewinding moves bytes from sent back to unsent and loses none. */
  lemma RewindKeeps(v: TxView, i: nat)
    requires Coherent(v) && i <= |v.spans|
    ensures Coherent(TxRewind(v, i))
    ensures TxRewind(v, i).sent + TxRewind(v, i).unsent == v.sent + v.unsent
    ensures i > 0 ==> TxRewind(v, i).spans[0] == v.spans[0]
    ensures 0 < i < |v.spans| ==> EndSeq(TxRewind(v, i).spans) == v.spans[i].first
  {
    var r := TxRewind(v, i);
    forall j | 0 <= j < i
      ensures InChain(r.spans, j)
    {
      assert InChain(v.spans, j);
      assert r.spans[..j] == v.spans[..j];
      StartPrefix(r.spans, v.spans, j);
    }
    StartPrefix(r.spans, v.spans, i);
    assert i < |v.spans| ==> InChain(v.spans, i);
    StartMonotone(v.spans, i, |v.spans|);
    if 0 < i {
      EndOfChain(r.spans);
    }
  }

  /** Data sent again is the bytes that went out under its number, up to the end of their packet. */
  lemma ResendBytes(v: TxView, want: nat, at: Value)
    requires Coherent(v) && v.spans != [] && LessThan(at, EndSeq(v.spans)) && TxSend(v, want, at).2 == TxOk
    ensures var off, data := Sizeof(v.spans[0].first, at), TxSend(v, want, at).1;
            && TxSend(v, want, at).0 == v && off + |data| <= |v.sent| && data == v.sent[off..off + |data|]
            && exists i :: 0 <= i < |v.spans| && v.spans[i].first == at && |data| == Min(want, v.spans[i].size)
  {
    hide Wrap, LessThan, Start;
    var i := StartingAt(v.spans, at);
    assert InChain(v.spans, i);
    StartMonotone(v.spans, i + 1, |v.spans|);
    StartStep(v.spans, i);
    StartMonotone(v.spans, 0, i);
    assert Sizeof(v.spans[0].first, at) == Start(v.spans, i) by {
      AddThenSizeof(v.spans[0].first, Start(v.spans, i));
    }
  }

  lemma StartStep(spans: seq<Span>, i: nat)
    requires i < |spans|
    ensures Start(spans, i + 1) == Start(spans, i) + spans[i].size && Start(spans, 0) == 0
  {
  }

  /** The packet test of the retransmission search is membership in the packet's span. */
  lemma InSpan(first: Value, size: nat, at: Value)
    requires 0 < size < HALF
    ensures LessThanEq(first, at) && LessThan(at, Wrap(first + size)) <==> Sizeof(first, at) < size
  {
    WrapIsMod(first - at);
    WrapIsMod(at - first);
    WrapIsMod(first + size);
    WrapIsMod(at - Wrap(first + size));
  }

  /** Acknowledging into span `j` leaves what is past `d` of it, and the spans after it. */
  lemma {:induction false} DropTo(spans: seq<Span>, d: nat, j: nat)
    requires j < |spans| && Chained(spans) && Start(spans, j) <= d < Start(spans, j + 1)
    ensures d <= Total(spans)
    ensures DropSpans(spans, d) ==
            [Span(Wrap(spans[j].first + (d - Start(spans, j))), Start(spans, j + 1) - d)] + spans[j + 1..]
    decreases j
  {
    StartMonotone(spans, j + 1, |spans|);
    if j == 0 {
      assert Start(spans, 1) == Start(spans, 0) + spans[0].size;
    } else {
      StartMonotone(spans, 1, j);
      assert Start(spans, 1) == Start(spans, 0) + spans[0].size;
      TailChained(spans);
      StartTail(spans, j - 1);
      StartTail(spans, j);
      DropTo(spans[1..], d - spans[0].size, j - 1);
      assert InChain(spans, 0);
    }
  }

  /** Starts of what is left, measured from the acknowledged position. */
  lemma StartAfterDrop(spans: seq<Span>, rest: seq<Span>, d: nat, j: nat, i: nat)
    requires j < |spans| && Start(spans, j) <= d < Start(spans, j + 1)
    requires |rest| == |spans| - j && rest[0].size == Start(spans, j + 1) - d && rest[1..] == spans[j + 1..]
    requires 1 <= i <= |rest|
    ensures Start(rest, i) == Start(spans, j + i) - d
  {
    if i == 1 {
      assert Start(rest, 1) == Start(rest, 0) + rest[0].size;
    } else {
      StartAfterDrop(spans, rest, d, j, i - 1);
      assert rest[i - 1] == rest[1..][i - 2] == spans[j + 1..][i - 2] == spans[j + i - 1];
    }
  }
}
