/** `ringTx` and its `sentlist` (tcp/txqueue.go), over the offsets the source keeps. */
module RingTransmit {
  import opened Bytes
  import opened SeqNum
  import opened Rings
  import opened TxQueue

  /** A queued packet: where its bytes lie in the raw buffer and which sequence numbers they have. */
  datatype Packet = Packet(off: nat, end: nat, first: Value, size: nat)

  const RECEIVED := Packet(0, 0, 0, 0)

  function Spans(pkts: seq<Packet>): (r: seq<Span>)
    ensures |r| == |pkts|
    ensures forall i :: 0 <= i < |pkts| ==> r[i] == Span(pkts[i].first, pkts[i].size)
  {
    seq(|pkts|, i requires 0 <= i < |pkts| => Span(pkts[i].first, pkts[i].size))
  }

  function AddEnd(a: nat, b: nat, size: nat): nat
    requires a <= size && b <= size
  {
    if a + b > size then a + b - size else a + b
  }

  function AddOffset(a: nat, b: nat, size: nat): nat {
    if a + b >= size then a + b - size else a + b
  }

  /** Packet `p` holds bytes `at` to `past` of the region that starts at `so`. */
  ghost predicate Holds(size: nat, so: nat, p: Packet, at: nat, past: nat) {
    && p.off <= size && 0 < p.end <= size
    && Canon(size, p.off) == Canon(size, so + at)
    && Canon(size, p.end) == Canon(size, so + past)
  }

  ghost predicate InPlace(size: nat, so: nat, pkts: seq<Packet>, i: nat)
    requires i < |pkts|
  {
    Holds(size, so, pkts[i], Start(Spans(pkts), i), Start(Spans(pkts), i + 1))
  }

  /** The sent region of `size`-byte buffer is exactly the packets, laid end to end. */
  ghost predicate Packed(size: nat, so: nat, se: nat, pkts: seq<Packet>)
    requires so <= size && se <= size
  {
    && (se == 0 <==> pkts == [])
    && (pkts != [] ==> pkts[0].off == so && pkts[|pkts| - 1].end == se)
    && (forall i :: 0 <= i < |pkts| ==> InPlace(size, so, pkts, i))
    && Total(Spans(pkts)) == Used(size, so, se)
  }

  /** The unsent region follows the sent one and both fit. */
  ghost predicate Adjacent(size: nat, so: nat, se: nat, uo: nat, ue: nat) {
    && 2 <= size < HALF
    && so <= size && se <= size && uo <= size && ue <= size
    && (se != 0 && ue == 0 ==> uo == se)
    && (se != 0 ==> Canon(size, uo) == Canon(size, se))
    && Used(size, so, se) + Used(size, uo, ue) <= size
  }

  /** How the four offsets and the packets lie in a buffer of `size` bytes. */
  ghost predicate Layout(size: nat, so: nat, se: nat, uo: nat, ue: nat, pkts: seq<Packet>) {
    Adjacent(size, so, se, uo, ue) && Packed(size, so, se, pkts)
  }

  /** The bytes of the region from `off` to `end` of buffer `b`. */
  function Region(b: seq<byte>, off: nat, end: nat): (r: seq<byte>)
    requires off <= |b| && end <= |b|
    ensures |r| == Used(|b|, off, end)
  {
    Turn(b, off)[..Used(|b|, off, end)]
  }

  /** The turn from `uo` is the turn from `so` with the sent bytes moved to its end. */
  lemma UnsentFollowsSent(b: seq<byte>, so: nat, se: nat, uo: nat)
    requires so <= |b| && 0 < se <= |b| && uo <= |b| && Canon(|b|, uo) == Canon(|b|, se)
    ensures Turn(b, uo) == Turn(b, so)[Used(|b|, so, se)..] + Turn(b, so)[..Used(|b|, so, se)]
  {
    TurnRotates(b, so, Used(|b|, so, se), uo);
  }

  /** With bytes in flight, room to write ends where the sent region starts. */
  lemma RoomBeforeSent(size: nat, so: nat, se: nat, uo: nat, ue: nat)
    requires Adjacent(size, so, se, uo, ue) && se != 0
    ensures RoomUpTo(size, uo, ue, so) == size - Used(size, so, se) - Used(size, uo, ue)
    ensures ue != 0 ==> ue != uo && !(ue == size && uo == 0)
  {
  }

  /** A write of `|d|` bytes within the room left extends the unsent region and spares the sent one. */
  lemma WriteEffect(b: seq<byte>, b': seq<byte>, so: nat, se: nat, uo: nat, ue: nat, ue': nat, d: seq<byte>)
    requires |b'| == |b| && Adjacent(|b|, so, se, uo, ue)
    requires 0 < |d| <= |b| - Used(|b|, so, se) - Used(|b|, uo, ue)
    requires ue' == EndAfter(|b|, uo, ue, |d|)
    requires var u := Used(|b|, uo, ue); Turn(b', uo) == Turn(b, uo)[..u] + d + Turn(b, uo)[u + |d|..]
    ensures Adjacent(|b|, so, se, uo, ue')
    ensures Region(b', uo, ue') == Region(b, uo, ue) + d
    ensures Region(b', so, se) == Region(b, so, se)
  {
    hide Canon, Turn, EndAfter, Used;
    var u := Used(|b|, uo, ue);
    UsedGrows(|b|, uo, ue, |d|);
    if se != 0 {
      UnsentFollowsSent(b, so, se, uo);
      UnsentFollowsSent(b', so, se, uo);
      var k := |b| - Used(|b|, so, se);
      assert Turn(b', uo)[k..] == Turn(b, uo)[k..];
    }
  }

  /** The write a queue makes through its unsent ring, kept off the sent region when there is one. */
  method Append(buf: array<byte>, off: nat, end: nat, b: seq<byte>, limited: bool, limit: nat)
      returns (e: RingError, end': nat)
    requires off <= buf.Length && end <= buf.Length && limit <= buf.Length
    requires limited && end != 0 ==> end != off && !(end == buf.Length && off == 0)
    modifies buf
    ensures e == if limited && |b| > buf.Length then ShortBuffer
                 else if limited && |b| > RoomUpTo(buf.Length, off, end, limit) then BufferFull
                 else if b == [] then NoData
                 else if |b| > buf.Length - Used(buf.Length, off, end) then BufferFull
                 else Ok
    ensures e != Ok ==> buf[..] == old(buf[..])
    ensures e == Ok ==> end' == EndAfter(buf.Length, off, end, |b|)
    ensures var t := old(Turn(buf[..], off));
            var u := Used(buf.Length, off, end);
            e == Ok ==> Turn(buf[..], off) == t[..u] + b + t[u + |b|..]
  {
    hide Used, Turn, RoomUpTo, EndAfter;
    var unsent := new Ring(buf, off, end);
    var n;
    if !limited {
      n, e := unsent.Write(b);
    } else {
      n, e := unsent.WriteLimited(b, limit);
    }
    end' := unsent.end;
  }

  /** What a region's offsets say about its length, whichever of 0 and `size` they use. */
  lemma UsedBetween(size: nat, p: nat, n: nat, off: nat, end: nat)
    requires 0 < n <= size && p + n <= 2 * size && off <= size && 0 < end <= size
    requires Canon(size, off) == Canon(size, p) && Canon(size, end) == Canon(size, p + n)
    ensures Used(size, off, end) == n
  {
  }

  lemma RotatedPrefix(t: seq<byte>, t': seq<byte>, k: nat, n: nat)
    requires k + n <= |t| && t' == t[k..] + t[..k]
    ensures t'[..n] == t[k..k + n]
  {
  }

  /** A packet's bytes are a slice of the sent region. */
  lemma PacketBytes(b: seq<byte>, so: nat, se: nat, pkts: seq<Packet>, i: nat)
    requires so <= |b| && se <= |b| && Packed(|b|, so, se, pkts) && i < |pkts| && 0 < pkts[i].size
    ensures InPlace(|b|, so, pkts, i)
    ensures Start(Spans(pkts), i + 1) <= Used(|b|, so, se)
    ensures Region(b, pkts[i].off, pkts[i].end)
            == Region(b, so, se)[Start(Spans(pkts), i)..Start(Spans(pkts), i + 1)]
  {
    hide Used, Canon, Turn, Spans, Start;
    var k := Start(Spans(pkts), i);
    assert InPlace(|b|, so, pkts, i);
    StartNext(Spans(pkts), i);
    StartMonotone(Spans(pkts), i + 1, |pkts|);
    UsedBetween(|b|, so + k, pkts[i].size, pkts[i].off, pkts[i].end);
    TurnRotates(b, so, k, pkts[i].off);
    RotatedPrefix(Turn(b, so), Turn(b, pkts[i].off), k, pkts[i].size);
    assert Turn(b, so)[..Used(|b|, so, se)][k..k + pkts[i].size] == Turn(b, so)[k..k + pkts[i].size];
  }

  /** Reading a packet again reads the sent bytes it carried. */
  lemma ResentBytes(b: seq<byte>, so: nat, se: nat, pkts: seq<Packet>, i: nat, n: nat)
    requires so <= |b| && se <= |b| && Packed(|b|, so, se, pkts) && i < |pkts| && 0 < pkts[i].size
    requires n <= pkts[i].size
    ensures pkts[i].off <= |b| && 0 < pkts[i].end <= |b|
    ensures Used(|b|, pkts[i].off, pkts[i].end) == pkts[i].size
    ensures var k := Start(Spans(pkts), i);
            k + n <= Used(|b|, so, se) && Region(b, pkts[i].off, pkts[i].end)[..n] == Region(b, so, se)[k..k + n]
  {
    PacketBytes(b, so, se, pkts, i);
    assert InPlace(|b|, so, pkts, i);
    UsedBetween(|b|, so + Start(Spans(pkts), i), pkts[i].size, pkts[i].off, pkts[i].end);
  }

  /** Offsets after a packet of `n` bytes is cut off the unsent region. */
  ghost predicate Cut(size: nat, uo: nat, ue: nat, n: nat, uo': nat, ue': nat)
    requires uo <= size && ue <= size && n <= size
  {
    && 0 < n <= Used(size, uo, ue)
    && ue' == (if n == Used(size, uo, ue) then 0 else ue)
    && uo' == (if ue' == 0 then AddEnd(uo, n, size) else AddOffset(uo, n, size))
  }

  lemma CutKeepsAdjacent(size: nat, so: nat, se: nat, uo: nat, ue: nat, n: nat, uo': nat, ue': nat)
    requires Adjacent(size, so, se, uo, ue) && n <= size && Cut(size, uo, ue, n, uo', ue')
    ensures var so', se' := if se == 0 then uo else so, AddEnd(uo, n, size);
            && Adjacent(size, so', se', uo', ue') && se' > 0
            && Used(size, so', se') == Used(size, so, se) + n
            && Used(size, uo', ue') == Used(size, uo, ue) - n
  {
  }

  lemma CutKeepsPacked(size: nat, so: nat, se: nat, uo: nat, n: nat, pkts: seq<Packet>, at: Value)
    requires so <= size && se <= size && uo <= size && 0 < n <= size && Packed(size, so, se, pkts)
    requires se != 0 ==> Canon(size, uo) == Canon(size, se)
    requires Used(size, if se == 0 then uo else so, AddEnd(uo, n, size)) == Used(size, so, se) + n
    requires AddEnd(uo, n, size) > 0
    ensures var p := Packet(uo, AddEnd(uo, n, size), at, n);
            Packed(size, if se == 0 then uo else so, p.end, pkts + [p])
    ensures Spans(pkts + [Packet(uo, AddEnd(uo, n, size), at, n)]) == Spans(pkts) + [Span(at, n)]
  {
    hide Used, AddEnd, Holds;
    var p := Packet(uo, AddEnd(uo, n, size), at, n);
    var so' := if se == 0 then uo else so;
    StartAppend(Spans(pkts), Span(at, n));
    assert Spans(pkts + [p]) == Spans(pkts) + [Span(at, n)];
    forall i | 0 <= i < |pkts + [p]|
      ensures InPlace(size, so', pkts + [p], i)
    {
      if i < |pkts| {
        assert InPlace(size, so, pkts, i);
      } else {
        NewestHolds(size, so, se, uo, n, p, Total(Spans(pkts)));
      }
    }
  }

  lemma NewestHolds(size: nat, so: nat, se: nat, uo: nat, n: nat, p: Packet, total: nat)
    requires so <= size && se <= size && uo <= size && 0 < n <= size && total == Used(size, so, se)
    requires p.off == uo && p.end == AddEnd(uo, n, size)
    requires se != 0 ==> Canon(size, uo) == Canon(size, se)
    requires Used(size, if se == 0 then uo else so, AddEnd(uo, n, size)) == Used(size, so, se) + n
    ensures p.end > 0 && Holds(size, if se == 0 then uo else so, p, total, total + n)
  {
  }

  /** A region extended by `n` bytes takes them from the place it ended at. */
  lemma RegionGrows(b: seq<byte>, off: nat, end: nat, p: nat, n: nat, end': nat)
    requires off <= |b| && 0 < end <= |b| && end' <= |b| && p <= |b| && Canon(|b|, p) == Canon(|b|, end)
    requires Used(|b|, off, end') == Used(|b|, off, end) + n
    ensures Region(b, off, end') == Region(b, off, end) + Turn(b, p)[..n]
  {
    var k := Used(|b|, off, end);
    UnsentFollowsSent(b, off, end, p);
    RotatedPrefix(Turn(b, off), Turn(b, p), k, n);
  }

  /** A region whose start moves past `n` of its bytes loses those. */
  lemma RegionShrinks(b: seq<byte>, off: nat, end: nat, n: nat, off': nat, end': nat)
    requires off <= |b| && end <= |b| && off' <= |b| && end' <= |b| && n <= Used(|b|, off, end)
    requires end' != 0 ==> Canon(|b|, off') == Canon(|b|, off + n)
    requires Used(|b|, off', end') == Used(|b|, off, end) - n
    ensures Region(b, off', end') == Region(b, off, end)[n..]
  {
    if end' != 0 {
      TurnRotates(b, off, n, off');
      RotatedPrefix(Turn(b, off), Turn(b, off'), n, Used(|b|, off', end'));
    }
  }

  lemma CutMovesBytes(b: seq<byte>, so: nat, se: nat, uo: nat, ue: nat, n: nat, uo': nat, ue': nat)
    requires Adjacent(|b|, so, se, uo, ue) && n <= |b| && Cut(|b|, uo, ue, n, uo', ue')
    ensures Adjacent(|b|, if se == 0 then uo else so, AddEnd(uo, n, |b|), uo', ue')
    ensures Region(b, if se == 0 then uo else so, AddEnd(uo, n, |b|)) == Region(b, so, se) + Region(b, uo, ue)[..n]
    ensures Region(b, uo', ue') == Region(b, uo, ue)[n..]
  {
    CutKeepsAdjacent(|b|, so, se, uo, ue, n, uo', ue');
    if se != 0 {
      RegionGrows(b, so, se, uo, n, AddEnd(uo, n, |b|));
    }
    RegionShrinks(b, uo, ue, n, uo', ue');
  }

  /** Cutting a packet of `n` bytes keeps the layout and moves the bytes from unsent to sent. */
  lemma CutEffect(b: seq<byte>, so: nat, se: nat, uo: nat, ue: nat, pkts: seq<Packet>, n: nat, at: Value,
                  uo': nat, ue': nat)
    requires Layout(|b|, so, se, uo, ue, pkts) && n <= |b| && Cut(|b|, uo, ue, n, uo', ue')
    ensures var p := Packet(uo, AddEnd(uo, n, |b|), at, n);
            var so' := if se == 0 then uo else so;
            && Layout(|b|, so', p.end, uo', ue', pkts + [p])
            && Spans(pkts + [p]) == Spans(pkts) + [Span(at, n)]
            && Region(b, so', p.end) == Region(b, so, se) + Region(b, uo, ue)[..n]
            && Region(b, uo', ue') == Region(b, uo, ue)[n..]
  {
    CutKeepsAdjacent(|b|, so, se, uo, ue, n, uo', ue');
    CutMovesBytes(b, so, se, uo, ue, n, uo', ue');
    CutKeepsPacked(|b|, so, se, uo, n, pkts, at);
  }

  /** The queue the offsets stand for after a cut, and when it is still a chain. */
  lemma CutView(b: seq<byte>, so: nat, se: nat, uo: nat, ue: nat, pkts: seq<Packet>, slots: nat, n: nat, at: Value,
                uo': nat, ue': nat)
    requires Layout(|b|, so, se, uo, ue, pkts) && Chained(Spans(pkts)) && |pkts| < slots && n <= |b|
             && Cut(|b|, uo, ue, n, uo', ue')
    ensures var p := Packet(uo, AddEnd(uo, n, |b|), at, n);
            var so' := if se == 0 then uo else so;
            && Layout(|b|, so', p.end, uo', ue', pkts + [p])
            && Spans(pkts + [p]) == Spans(pkts) + [Span(at, n)]
            && (Chained(Spans(pkts + [p])) <==> pkts == [] || at == EndSeq(Spans(pkts)))
            && n <= |Region(b, uo, ue)|
            && TxView(Region(b, so', p.end), Region(b, uo', ue'), Spans(pkts + [p]), slots, |b|)
               == TxMake(TxView(Region(b, so, se), Region(b, uo, ue), Spans(pkts), slots, |b|), n, at)
  {
    hide Region, Used, Chained, Wrap, AddEnd, AddOffset;
    CutEffect(b, so, se, uo, ue, pkts, n, at, uo', ue');
    MakeKeeps(TxView(Region(b, so, se), Region(b, uo, ue), Spans(pkts), slots, |b|), n, at);
  }

  /** An acknowledgement as a position, and when it lies past the end of a queue of `total` bytes. */
  lemma AckPosition(first: Value, ack: Value, total: nat)
    requires total < HALF
    ensures var d := Int32(Wrap(ack - first));
            && ack == Wrap(first + d)
            && (LessThan(Wrap(first + total), ack) <==> d > total || d <= total - HALF)
  {
    WrapIsMod(ack - first);
    WrapIsMod(first + Int32(Wrap(ack - first)));
    WrapIsMod(first + total);
    WrapIsMod(Wrap(first + total) - ack);
  }

  lemma SpanEnd(spans: seq<Span>, i: nat)
    requires Chained(spans) && i < |spans|
    ensures Wrap(spans[i].first + spans[i].size) == Wrap(spans[0].first + Start(spans, i + 1))
  {
    assert InChain(spans, i);
    WrapAdd(spans[0].first + Start(spans, i), spans[i].size);
  }

  /** A packet ends at or before the acknowledgement exactly when its bytes are among the first `d`. */
  lemma EndTest(spans: seq<Span>, i: nat, ack: Value, d: int)
    requires Chained(spans) && i < |spans| && Total(spans) < HALF
    requires ack == Wrap(spans[0].first + d) && Total(spans) - HALF < d <= Total(spans)
    ensures LessThanEq(Wrap(spans[i].first + spans[i].size), ack) <==> Start(spans, i + 1) <= d
  {
    SpanEnd(spans, i);
    StartMonotone(spans, i + 1, |spans|);
    OrderExact(spans[0].first, Start(spans, i + 1), d);
  }

  /** How many packets an acknowledgement of `d` bytes covers whole. */
  lemma AckCount(spans: seq<Span>, n: nat, d: int)
    requires Chained(spans) && n <= |spans| && spans != [] && d <= Total(spans)
    requires n > 0 ==> Start(spans, n) <= d
    requires n < |spans| ==> d < Start(spans, n + 1)
    ensures Start(spans, n) <= Total(spans)
    ensures d <= 0 ==> n == 0
    ensures n == |spans| <==> d == Total(spans)
  {
    StartMonotone(spans, n, |spans|);
    assert InChain(spans, 0);
    assert Start(spans, 1) == Start(spans, 0) + spans[0].size;
    if n > 0 {
      StartMonotone(spans, 1, n);
    }
    if n < |spans| {
      StartMonotone(spans, n + 1, |spans|);
    }
  }

  /** Bytes of packet `n` that are acknowledged. */
  lemma Remaining(spans: seq<Span>, n: nat, ack: Value, d: int)
    requires Chained(spans) && n < |spans| && Start(spans, n) <= Total(spans) < HALF
    requires ack == Wrap(spans[0].first + d) && Total(spans) - HALF < d <= Total(spans)
    ensures Int32(Wrap(ack - spans[n].first)) == d - Start(spans, n)
  {
    assert InChain(spans, n);
    WrapDiff(spans[0].first, d, Start(spans, n));
    assert -HALF < d - Start(spans, n) < HALF;
  }

  /** The packet left of `p` once its first `t` bytes are acknowledged. */
  function Trimmed(p: Packet, t: nat, size: nat): Packet
    requires t <= p.size
  {
    if t == 0 then p else p.(off := AddOffset(p.off, t, size), first := Wrap(p.first + t), size := p.size - t)
  }

  /** `pkts'` is what an acknowledgement of `d` bytes, ending in packet `j`, leaves of `pkts`. */
  ghost predicate AckedTo(size: nat, pkts: seq<Packet>, d: nat, j: nat, pkts': seq<Packet>) {
    && j < |pkts|
    && Start(Spans(pkts), j) <= d < Start(Spans(pkts), j + 1)
    && |pkts'| == |pkts| - j
    && pkts'[0] == Trimmed(pkts[j], d - Start(Spans(pkts), j), size)
    && (forall i :: 0 < i < |pkts'| ==> pkts'[i] == pkts[j + i])
  }

  /** Trimming the first packet not covered whole leaves what the acknowledgement should. */
  lemma TrimIsAcked(size: nat, pkts: seq<Packet>, d: nat, n: nat, rest: seq<Packet>)
    requires n < |pkts| && Start(Spans(pkts), n) <= d < Start(Spans(pkts), n + 1) && rest == pkts[n..]
    ensures var t := d - Start(Spans(pkts), n);
            && t < pkts[n].size
            && AckedTo(size, pkts, d, n, rest[0 := Trimmed(pkts[n], t, size)])
            && (t == 0 ==> AckedTo(size, pkts, d, n, rest))
  {
    assert rest == [pkts[n]] + pkts[n + 1..];
  }

  lemma AckedSpans(size: nat, pkts: seq<Packet>, d: nat, j: nat, pkts': seq<Packet>)
    requires Chained(Spans(pkts)) && AckedTo(size, pkts, d, j, pkts')
    ensures d <= Total(Spans(pkts)) && Spans(pkts') == DropSpans(Spans(pkts), d)
  {
    DropTo(Spans(pkts), d, j);
  }

  lemma AckedStarts(size: nat, pkts: seq<Packet>, d: nat, j: nat, pkts': seq<Packet>, i: nat)
    requires AckedTo(size, pkts, d, j, pkts') && i <= |pkts'|
    ensures Start(Spans(pkts'), i) == if i == 0 then 0 else Start(Spans(pkts), j + i) - d
  {
    if i > 0 {
      assert Spans(pkts')[1..] == Spans(pkts)[j + 1..];
      StartAfterDrop(Spans(pkts), Spans(pkts'), d, j, i);
    }
  }

  /** A packet past the acknowledged bytes holds the same bytes, counted from the new start. */
  lemma HoldsShifted(size: nat, so: nat, d: nat, so': nat, p: Packet, at: nat, past: nat)
    requires so <= size && so' <= size && d <= at <= past <= size && Canon(size, so') == Canon(size, so + d)
    requires Holds(size, so, p, at, past)
    ensures Holds(size, so', p, at - d, past - d)
  {
    CanonShift(size, so, d, so', at);
    CanonShift(size, so, d, so', past);
  }

  /** The packet the acknowledgement ends in holds the bytes past it. */
  lemma HoldsTrimmed(size: nat, so: nat, p: Packet, at: nat, past: nat, t: nat)
    requires so <= size && at + t < past <= size && past == at + p.size
    requires Holds(size, so, p, at, past)
    ensures Holds(size, Trimmed(p, t, size).off, Trimmed(p, t, size), 0, past - at - t)
    ensures Canon(size, Trimmed(p, t, size).off) == Canon(size, so + at + t)
  {
  }

  /** The packets after the one the acknowledgement ends in stay where they were. */
  lemma AckedLater(size: nat, so: nat, pkts: seq<Packet>, d: nat, j: nat, so': nat, i: nat)
    requires so <= size && so' <= size && j < |pkts| && d <= Start(Spans(pkts), j + 1) && Total(Spans(pkts)) <= size
    requires 0 < i < |pkts| - j
    requires Canon(size, so') == Canon(size, so + d)
    requires InPlace(size, so, pkts, j + i)
    ensures Start(Spans(pkts), j + i) >= d && Start(Spans(pkts), j + i + 1) >= d
    ensures Holds(size, so', pkts[j + i], Start(Spans(pkts), j + i) - d, Start(Spans(pkts), j + i + 1) - d)
  {
    hide Holds, Canon;
    StartMonotone(Spans(pkts), j + i + 1, |pkts|);
    StartMonotone(Spans(pkts), j + 1, j + i);
    HoldsShifted(size, so, d, so', pkts[j + i], Start(Spans(pkts), j + i), Start(Spans(pkts), j + i + 1));
  }

  /** The packet the acknowledgement ends in is the new start of the sent region. */
  lemma AckedFirst(size: nat, so: nat, pkts: seq<Packet>, d: nat, j: nat)
    requires so <= size && j < |pkts| && Start(Spans(pkts), j) <= d < Start(Spans(pkts), j + 1)
    requires Total(Spans(pkts)) <= size && InPlace(size, so, pkts, j)
    ensures d - Start(Spans(pkts), j) < pkts[j].size
    ensures var p := Trimmed(pkts[j], d - Start(Spans(pkts), j), size);
            && p.off <= size && Canon(size, p.off) == Canon(size, so + d)
            && Holds(size, p.off, p, 0, Start(Spans(pkts), j + 1) - d)
  {
    hide Trimmed, Canon;
    StartMonotone(Spans(pkts), j + 1, |pkts|);
    HoldsTrimmed(size, so, pkts[j], Start(Spans(pkts), j), Start(Spans(pkts), j + 1), d - Start(Spans(pkts), j));
  }

  lemma AckedInPlace(size: nat, so: nat, pkts: seq<Packet>, d: nat, j: nat, pkts': seq<Packet>, i: nat)
    requires so <= size && AckedTo(size, pkts, d, j, pkts') && i < |pkts'| && Total(Spans(pkts)) <= size
    requires InPlace(size, so, pkts, j) && InPlace(size, so, pkts, j + i)
    ensures InPlace(size, pkts'[0].off, pkts', i)
  {
    hide Holds, Canon, Trimmed, Start, Spans;
    AckedStarts(size, pkts, d, j, pkts', i);
    AckedStarts(size, pkts, d, j, pkts', i + 1);
    AckedFirst(size, so, pkts, d, j);
    if i > 0 {
      AckedLater(size, so, pkts, d, j, pkts'[0].off, i);
      assert pkts'[i] == pkts[j + i];
    }
  }

  lemma AckKeepsPacked(size: nat, so: nat, se: nat, pkts: seq<Packet>, d: nat, j: nat, pkts': seq<Packet>)
    requires so <= size && 0 < se <= size && Packed(size, so, se, pkts) && AckedTo(size, pkts, d, j, pkts')
    ensures pkts'[0].off <= size
    ensures d <= Used(size, so, se) && Used(size, pkts'[0].off, se) == Used(size, so, se) - d
    ensures Canon(size, pkts'[0].off) == Canon(size, so + d)
    ensures Packed(size, pkts'[0].off, se, pkts')
  {
    hide Holds, Canon, Trimmed, Used;
    forall i | 0 <= i < |pkts'|
      ensures InPlace(size, pkts'[0].off, pkts', i)
    {
      assert InPlace(size, so, pkts, j) && InPlace(size, so, pkts, j + i);
      AckedInPlace(size, so, pkts, d, j, pkts', i);
    }
    assert InPlace(size, so, pkts, j);
    AckedFirst(size, so, pkts, d, j);
    AckedStarts(size, pkts, d, j, pkts', |pkts'|);
    StartMonotone(Spans(pkts), j + 1, |pkts|);
    assert InPlace(size, so, pkts, |pkts| - 1);
    EndOfRegion(size, so, pkts[|pkts| - 1], Start(Spans(pkts), |pkts| - 1), Total(Spans(pkts)), d, pkts'[0].off);
    assert |pkts'| > 1 ==> pkts'[|pkts'| - 1] == pkts[j + (|pkts'| - 1)];
    TrimmedEnd(pkts[j], d - Start(Spans(pkts), j), size);
  }

  /** What an acknowledgement of `d` bytes does to the offsets and to the sent region. */
  lemma AckEffect(b: seq<byte>, so: nat, se: nat, uo: nat, ue: nat, pkts: seq<Packet>, d: int, pkts': seq<Packet>)
    requires Layout(|b|, so, se, uo, ue, pkts) && Chained(Spans(pkts)) && pkts != [] && d <= Used(|b|, so, se)
    requires d <= 0 ==> pkts' == pkts
    requires d == Used(|b|, so, se) ==> pkts' == []
    requires 0 < d < Used(|b|, so, se) ==> exists j: nat :: AckedTo(|b|, pkts, d, j, pkts')
    ensures d < Used(|b|, so, se) ==>
              && pkts' != [] && pkts'[0].off <= |b| && pkts'[|pkts'| - 1].end == se
              && Layout(|b|, pkts'[0].off, se, uo, ue, pkts')
              && Region(b, pkts'[0].off, se) == Region(b, so, se)[if d < 0 then 0 else d..]
              && Spans(pkts') == DropSpans(Spans(pkts), if d < 0 then 0 else d)
    ensures d == Used(|b|, so, se) ==>
              && Layout(|b|, so, 0, uo, ue, pkts') && Layout(|b|, 0, 0, if ue == 0 then 0 else uo, ue, pkts')
              && Spans(pkts') == DropSpans(Spans(pkts), d)
  {
    if 0 < d < Used(|b|, so, se) {
      var j: nat :| AckedTo(|b|, pkts, d, j, pkts');
      AckKeepsPacked(|b|, so, se, pkts, d, j, pkts');
      AckedSpans(|b|, pkts, d, j, pkts');
      RegionShrinks(b, so, se, d, pkts'[0].off, se);
    } else if d > 0 {
      DropChained(Spans(pkts), d);
    }
  }

  lemma TrimmedEnd(p: Packet, t: nat, size: nat)
    requires t <= p.size
    ensures Trimmed(p, t, size).end == p.end
  {
  }

  lemma EndOfRegion(size: nat, so: nat, last: Packet, at: nat, past: nat, d: nat, so': nat)
    requires so <= size && so' <= size && d < past <= size
    requires Holds(size, so, last, at, past) && Canon(size, so') == Canon(size, so + d)
    ensures Used(size, so', last.end) == past - d
  {
    UsedBetween(size, so + d, past - d, so', last.end);
  }

  lemma CanonShift(size: nat, so: nat, d: nat, so': nat, k: nat)
    requires so <= size && so' <= size && d <= k <= size && Canon(size, so') == Canon(size, so + d)
    ensures Canon(size, so' + (k - d)) == Canon(size, so + k)
  {
  }

  lemma StartOfPrefix(spans: seq<Span>, i: nat, j: nat)
    requires j <= i <= |spans|
    ensures Start(spans[..i], j) == Start(spans, j)
  {
    assert spans[..i][..j] == spans[..j];
    StartPrefix(spans[..i], spans, j);
  }

  lemma PrefixInPlace(size: nat, so: nat, pkts: seq<Packet>, i: nat, j: nat)
    requires j < i <= |pkts| && InPlace(size, so, pkts, j)
    ensures InPlace(size, so, pkts[..i], j)
  {
    assert Spans(pkts[..i]) == Spans(pkts)[..i];
    StartOfPrefix(Spans(pkts), i, j);
    StartOfPrefix(Spans(pkts), i, j + 1);
  }

  /** A packet that starts past index 0 starts where the one before it ends. */
  lemma EndsMeet(size: nat, so: nat, p: Packet, q: Packet, at: nat, mid: nat, past: nat)
    requires so <= size && 0 < mid <= size && q.off != 0
    requires Holds(size, so, p, at, mid) && Holds(size, so, q, mid, past)
    ensures q.off <= size && p.end == q.off && Used(size, so, q.off) == mid
  {
    UsedBetween(size, so, mid, so, q.off);
  }

  /** The packets before packet `i` fill the sent region up to its offset, unless that is the empty marker. */
  lemma PrefixPacked(size: nat, so: nat, se: nat, pkts: seq<Packet>, i: nat)
    requires so <= size && se <= size && Packed(size, so, se, pkts) && Chained(Spans(pkts)) && 0 < i < |pkts|
    requires pkts[i].off != 0
    ensures Spans(pkts[..i]) == Spans(pkts)[..i]
    ensures pkts[i].off <= size && Used(size, so, pkts[i].off) == Start(Spans(pkts), i)
    ensures Packed(size, so, pkts[i].off, pkts[..i])
  {
    hide Canon, Holds, Used, Start, Spans, Chained;
    var spans := Spans(pkts);
    assert Spans(pkts[..i]) == spans[..i];
    forall j | 0 <= j < i
      ensures InPlace(size, so, pkts[..i], j)
    {
      assert InPlace(size, so, pkts, j);
      PrefixInPlace(size, so, pkts, i, j);
    }
    StartOfPrefix(spans, i, i);
    assert InPlace(size, so, pkts, i) && InPlace(size, so, pkts, i - 1);
    ChainLink(spans, i - 1);
    StartNext(spans, i - 1);
    StartMonotone(spans, i, |pkts|);
    EndsMeet(size, so, pkts[i - 1], pkts[i], Start(spans, i - 1), Start(spans, i), Start(spans, i + 1));
  }

  /** Offsets once the unsent region reaches back to `p`, `k` bytes into the sent one. */
  lemma RewindKeepsAdjacent(size: nat, so: nat, se: nat, uo: nat, ue: nat, p: nat, k: nat)
    requires Adjacent(size, so, se, uo, ue) && se != 0 && p <= size && k < Used(size, so, se)
    requires Canon(size, p) == Canon(size, so + k)
    ensures var ue' := if ue == 0 then se else ue;
            && Used(size, p, ue') == Used(size, so, se) + Used(size, uo, ue) - k
            && Adjacent(size, 0, 0, p, ue')
            && (p != 0 && 0 < k && Used(size, so, p) == k ==> Adjacent(size, so, p, p, ue'))
  {
    UsedBoth(size, so, se, uo, ue);
    UsedBetween(size, so + k, Used(size, so, se) + Used(size, uo, ue) - k, p, if ue == 0 then se else ue);
  }

  lemma RewindMovesBytes(b: seq<byte>, so: nat, se: nat, uo: nat, ue: nat, k: nat, p: nat)
    requires Adjacent(|b|, so, se, uo, ue) && se != 0 && p <= |b| && k < Used(|b|, so, se)
    requires Canon(|b|, p) == Canon(|b|, so + k)
    requires Used(|b|, p, if ue == 0 then se else ue) == Used(|b|, so, se) + Used(|b|, uo, ue) - k
    ensures Region(b, p, if ue == 0 then se else ue) == Region(b, so, se)[k..] + Region(b, uo, ue)
  {
    var end := if ue == 0 then se else ue;
    UsedBoth(|b|, so, se, uo, ue);
    if ue != 0 {
      RegionGrows(b, so, se, uo, Used(|b|, uo, ue), ue);
    }
    RegionShrinks(b, so, end, k, p, end);
  }

  /** The region the two make together. */
  lemma UsedBoth(size: nat, so: nat, se: nat, uo: nat, ue: nat)
    requires Adjacent(size, so, se, uo, ue)
    ensures Used(size, if ue != 0 && se == 0 then uo else so, if ue == 0 then se else ue)
            == Used(size, so, se) + Used(size, uo, ue)
  {
  }

  /** A read of up to `want` bytes off a region, and the offsets it leaves. */
  method Take(buf: array<byte>, off: nat, end: nat, want: nat) returns (data: seq<byte>, off': nat, end': nat)
    requires off <= buf.Length && 0 < end <= buf.Length && 0 < want
    ensures data == Region(buf[..], off, end)[..Min(want, Used(buf.Length, off, end))]
    ensures 0 < |data| <= buf.Length
    ensures end' == if |data| == Used(buf.Length, off, end) then 0 else end
    ensures end' != 0 ==> off' == AddOffset(off, |data|, buf.Length)
  {
    var r := new Ring(buf, off, end);
    var err;
    data, err := r.Read(want);
    off', end' := r.off, r.end;
  }

  /** The offset of packet `i` can mark the end of the sent region. */
  predicate RewindSafe(pkts: seq<Packet>, i: nat)
    requires i < |pkts|
  {
    i == 0 || pkts[i].off != 0
  }

  /**
    A valid queue of two packets around the end of a 4-byte buffer, where rewinding to the newer one
    (it starts at index 0) makes three bytes look free while only one is.
  */
  lemma RewindToIndexZero(pkts: seq<Packet>)
    requires pkts == [Packet(2, 4, 7, 2), Packet(0, 1, 9, 1)]
    ensures Layout(4, 2, 1, 1, 0, pkts) && Chained(Spans(pkts)) && !RewindSafe(pkts, 1)
    ensures var so', se', uo', ue' := 2, pkts[1].off, pkts[1].off, 1;
            && !Packed(4, so', se', pkts[..1])
            && 4 - Used(4, uo', ue') == 3 && 4 - Total(Spans(pkts[..1])) - Used(4, uo', ue') == 1
  {
    var spans := Spans(pkts);
    assert Start(spans, 0) == 0 && Start(spans, 1) == 2 && Start(spans, 2) == 3;
    assert Start(Spans(pkts[..1]), 1) == Start(Spans(pkts[..1]), 0) + 2;
    assert InChain(spans, 0) && InChain(spans, 1);
    assert InPlace(4, 2, pkts, 0) && InPlace(4, 2, pkts, 1);
  }

  lemma ChainLink(spans: seq<Span>, i: nat)
    requires Chained(spans) && i < |spans|
    ensures InChain(spans, i)
  {
  }

  lemma StartsApart(spans: seq<Span>, j: nat, i: nat)
    requires Chained(spans) && j < i < |spans|
    ensures Start(spans, j) < Start(spans, i) < Total(spans)
    ensures spans[i].first == Wrap(spans[0].first + Start(spans, i))
    ensures spans[j].first == Wrap(spans[0].first + Start(spans, j))
  {
    hide Chained, Wrap, Start;
    ChainLink(spans, j);
    ChainLink(spans, i);
    StartNext(spans, j);
    StartNext(spans, i);
    StartMonotone(spans, j + 1, i);
    StartMonotone(spans, i + 1, |spans|);
  }

  /** What a rewind to packet `i` does to the offsets and to the two regions. */
  lemma RewindEffect(b: seq<byte>, so: nat, se: nat, uo: nat, ue: nat, pkts: seq<Packet>, i: nat)
    requires Layout(|b|, so, se, uo, ue, pkts) && Chained(Spans(pkts)) && i < |pkts| && RewindSafe(pkts, i)
    ensures pkts[i].off <= |b| && Start(Spans(pkts), i) <= Used(|b|, so, se)
    ensures var so', se' := if i == 0 then 0 else so, if i == 0 then 0 else pkts[i].off;
            var uo', ue' := pkts[i].off, if ue == 0 then se else ue;
            && Layout(|b|, so', se', uo', ue', pkts[..i])
            && Spans(pkts[..i]) == Spans(pkts)[..i]
            && Region(b, so', se') == Region(b, so, se)[..Start(Spans(pkts), i)]
            && Region(b, uo', ue') == Region(b, so, se)[Start(Spans(pkts), i)..] + Region(b, uo, ue)
  {
    hide Canon, Used, Region, Spans, Start;
    var k, p := Start(Spans(pkts), i), pkts[i].off;
    assert InPlace(|b|, so, pkts, i) && InChain(Spans(pkts), i);
    StartNext(Spans(pkts), i);
    StartMonotone(Spans(pkts), i + 1, |pkts|);
    RewindKeepsAdjacent(|b|, so, se, uo, ue, p, k);
    RewindMovesBytes(b, so, se, uo, ue, k, p);
    if i > 0 {
      PrefixPacked(|b|, so, se, pkts, i);
      RegionPrefix(b, so, se, p);
    } else {
      NoPackets(b, so, se, Spans(pkts));
    }
  }

  lemma RegionPrefix(b: seq<byte>, so: nat, se: nat, p: nat)
    requires so <= |b| && se <= |b| && p <= |b| && Used(|b|, so, p) <= Used(|b|, so, se)
    ensures Region(b, so, p) == Region(b, so, se)[..Used(|b|, so, p)]
  {
  }

  lemma NoPackets(b: seq<byte>, so: nat, se: nat, spans: seq<Span>)
    requires so <= |b| && se <= |b|
    ensures Start(spans, 0) == 0
    ensures Packed(|b|, 0, 0, []) && Region(b, 0, 0) == Region(b, so, se)[..0]
  {
  }

  /** The offsets and packets after the first `n` unsent bytes became a packet numbered `at`. */
  ghost predicate CutTo(size: nat, so: nat, se: nat, uo: nat, ue: nat, pkts: seq<Packet>, n: nat, at: Value,
                        so': nat, se': nat, uo': nat, ue': nat, pkts': seq<Packet>)
  {
    && uo <= size && ue <= size && n <= size && Cut(size, uo, ue, n, uo', ue')
    && so' == (if se == 0 then uo else so) && se' == AddEnd(uo, n, size)
    && pkts' == pkts + [Packet(uo, se', at, n)]
  }

  class RingTx {
    var rawbuf: array<byte>
    var unsentoff: nat
    var unsentend: nat
    var sentoff: nat
    var sentend: nat
    var pkts: seq<Packet>
    var slots: nat      // capacity of pkts
    var ssn: Value
    var iss: Value

    ghost predicate Valid()
      reads this
    {
      && Layout(rawbuf.Length, sentoff, sentend, unsentoff, unsentend, pkts)
      && |pkts| <= slots
      && Chained(Spans(pkts))
    }

    ghost function Sent(): seq<byte>
      requires sentoff <= rawbuf.Length && sentend <= rawbuf.Length
      reads this, rawbuf
    {
      Region(rawbuf[..], sentoff, sentend)
    }

    ghost function Unsent(): seq<byte>
      requires unsentoff <= rawbuf.Length && unsentend <= rawbuf.Length
      reads this, rawbuf
    {
      Region(rawbuf[..], unsentoff, unsentend)
    }

    ghost function View(): (v: TxView)
      requires Valid()
      reads this, rawbuf
    {
      TxView(Sent(), Unsent(), Spans(pkts), slots, rawbuf.Length)
    }

    lemma ViewIsCoherent()
      requires Valid()
      ensures Coherent(View())
    {
    }

    /** `ResetOrReuse` with the memory in place: empties the queue. */
    method Reset(iss: Value)
      requires Valid()
      modifies this`unsentoff, this`unsentend, this`sentoff, this`sentend, this`pkts, this`ssn, this`iss
      ensures Valid()
      ensures View() == old(View()).(sent := [], unsent := [], spans := []) && this.iss == iss
    {
      unsentoff, unsentend, sentoff, sentend := 0, 0, 0, 0;
      pkts, ssn := [], iss;
      this.iss := iss;
    }

    /** `Reset` on a fresh queue: empty, over `buf`. */
    constructor (buf: array<byte>, maxQueuedPackets: nat, iss: Value)
      requires 2 <= buf.Length < HALF && 0 < maxQueuedPackets <= buf.Length
      ensures Valid() && rawbuf == buf
      ensures View() == TxView([], [], [], maxQueuedPackets, buf.Length) && this.iss == iss
      ensures unsentoff == unsentend == sentoff == sentend == 0
    {
      rawbuf := buf;
      unsentoff, unsentend, sentoff, sentend := 0, 0, 0, 0;
      pkts, slots, ssn := [], maxQueuedPackets, iss;
      this.iss := iss;
    }

    method Write(b: seq<byte>) returns (n: nat, err: TxError)
      requires Valid()
      modifies this`unsentend, rawbuf
      ensures Valid()
      ensures err == TxWriteError(old(View()), b)
      ensures n == if err == TxOk then |b| else 0
      ensures View() == if err == TxOk then TxWrite(old(View()), b) else old(View())
      ensures err == TxOk ==> unsentend == EndAfter(rawbuf.Length, unsentoff, old(unsentend), |b|)
    {
      hide Packed, Region, Canon, Used, Spans, Chained, Total, AddEnd, RoomUpTo;
      if sentend != 0 {
        RoomBeforeSent(rawbuf.Length, sentoff, sentend, unsentoff, unsentend);
      }
      hide Adjacent;
      var e, end := Append(rawbuf, unsentoff, unsentend, b, sentend != 0, sentoff);
      if e != Ok {
        return 0, match e case NoData => TxNoData case ShortBuffer => TxShortBuffer case _ => TxBufferFull;
      }
      WriteEffect(old(rawbuf[..]), rawbuf[..], sentoff, sentend, unsentoff, unsentend, end, b);
      unsentend := end;
      return |b|, TxOk;
    }

    method BufferedUnsent() returns (n: nat)
      requires Valid()
      ensures n == |View().unsent|
    {
      var r := new Ring(rawbuf, unsentoff, unsentend);
      n := r.Buffered();
    }

    method BufferedSent() returns (n: nat)
      requires Valid()
      ensures n == |View().sent|
    {
      var r := new Ring(rawbuf, sentoff, sentend);
      n := r.Buffered();
    }

    /** Room for writes: sent, unsent and free bytes make up the whole buffer. */
    method Free() returns (n: nat)
      requires Valid()
      ensures n + |View().sent| + |View().unsent| == View().size
    {
      var off, end := sentoff, unsentend;
      if end == 0 {
        end := sentend;
      } else if sentend == 0 {
        off := unsentoff;
      }
      hide Packed, Region;
      UsedBoth(rawbuf.Length, sentoff, sentend, unsentoff, unsentend);
      var r := new Ring(rawbuf, off, end);
      n := r.Free();
    }

    /**
      A packet for `at`: bytes queued there before, or the next unsent ones as a new packet. The queue stays
      consistent exactly when no new packet is made or it continues the others.
    */
    method MakePacket(want: nat, at: Value) returns (data: seq<byte>, err: TxError)
      requires Valid() && 0 < want
      modifies this`unsentoff, this`unsentend, this`sentoff, this`sentend, this`pkts
      ensures (data, err) == (TxSend(old(View()), want, at).1, TxSend(old(View()), want, at).2)
      ensures Valid() <==> |old(pkts)| >= slots || old(unsentend) == 0 || old(pkts) == []
                           || at == EndSeq(Spans(old(pkts))) || LessThan(at, EndSeq(Spans(old(pkts))))
      ensures Valid() ==> View() == TxSend(old(View()), want, at).0
      ensures !Valid() ==> Spans(pkts) == Spans(old(pkts)) + [Span(at, |data|)]
      ensures |old(pkts)| < slots && old(unsentend) != 0
              && (old(pkts) == [] || !LessThan(at, EndSeq(Spans(old(pkts))))) ==>
                CutTo(rawbuf.Length, old(sentoff), old(sentend), old(unsentoff), old(unsentend), old(pkts), |data|, at,
                      sentoff, sentend, unsentoff, unsentend, pkts)
    {
      if |pkts| >= slots {
        return [], TxBufferFull;
      }
      if pkts != [] && LessThan(at, Wrap(pkts[|pkts| - 1].first + pkts[|pkts| - 1].size)) {
        data, err := Resend(want, at);
        return;
      }
      if unsentend == 0 {
        return [], TxOk;
      }
      data := CutPacket(want, at);
      return data, TxOk;
    }

    /** Reads unsent bytes into a new packet, which makes them sent. */
    method CutPacket(want: nat, at: Value) returns (data: seq<byte>)
      requires Valid() && 0 < want && |pkts| < slots && unsentend != 0
      modifies this`unsentoff, this`unsentend, this`sentoff, this`sentend, this`pkts
      ensures Valid() <==> old(pkts) == [] || at == EndSeq(Spans(old(pkts)))
      ensures data == old(View()).unsent[..Min(want, |old(View()).unsent|)]
      ensures Spans(pkts) == Spans(old(pkts)) + [Span(at, |data|)]
      ensures Valid() ==> View() == TxMake(old(View()), |data|, at)
      ensures CutTo(rawbuf.Length, old(sentoff), old(sentend), old(unsentoff), old(unsentend), old(pkts), |data|, at,
                    sentoff, sentend, unsentoff, unsentend, pkts)
    {
      hide Packed, Region, Chained, Spans, Used, AddEnd, AddOffset, EndSeq, Wrap;
      var uo, ue;
      data, uo, ue := Take(rawbuf, unsentoff, unsentend, want);
      var n := |data|;
      var end := AddEnd(unsentoff, n, rawbuf.Length);
      uo := if ue == 0 then end else uo;
      CutView(rawbuf[..], sentoff, sentend, unsentoff, unsentend, pkts, slots, n, at, uo, ue);
      AddPacket(n, unsentoff, at);
      var so := if sentend == 0 then unsentoff else sentoff;
      sentoff, unsentoff, sentend, unsentend := so, uo, end, ue;
    }

    /** Appends a packet to the list; its offset must be where the newest one ends. */
    method AddPacket(n: nat, off: nat, at: Value)
      requires Valid() && |pkts| < slots && 0 < n <= rawbuf.Length && off == unsentoff
      modifies this`pkts
      ensures pkts == old(pkts) + [Packet(off, AddEnd(off, n, rawbuf.Length), at, n)]
    {
      assert pkts != [] ==>
          var last := pkts[|pkts| - 1].end;
          !((off != 0 && off != last) || (off == 0 && last != rawbuf.Length));
      pkts := pkts + [Packet(off, AddEnd(off, n, rawbuf.Length), at, n)];
    }

    /** The packet queued at exactly `at`, read again. */
    method Resend(want: nat, at: Value) returns (data: seq<byte>, err: TxError)
      requires Valid() && 0 < want && |pkts| < slots && pkts != [] && LessThan(at, EndSeq(Spans(pkts)))
      ensures (View(), data, err) == TxSend(View(), want, at)
    {
      hide Packed, Region, Used;
      var i := 0;
      while i < |pkts|
        invariant i <= |pkts|
        invariant forall j :: 0 <= j < i ==> pkts[j].first != at
      {
        if pkts[i].first == at {
          assert StartingAt(Spans(pkts), at) == i;
          assert InChain(Spans(pkts), i);
          ResentBytes(rawbuf[..], sentoff, sentend, pkts, i, Min(want, pkts[i].size));
          var off, end;
          data, off, end := Take(rawbuf, pkts[i].off, pkts[i].end, want);
          return data, TxOk;
        }
        i := i + 1;
      }
      assert StartingAt(Spans(pkts), at) == |pkts|;
      return [], TxBug;
    }

    /** Drops the first `n` packets, which are those marked received. */
    method RemoveReceived(ghost n: nat)
      requires n <= |pkts|
      requires forall k :: 0 <= k < |pkts| ==> (pkts[k].size == 0 <==> k < n)
      modifies this`pkts
      ensures pkts == old(pkts)[n..]
    {
      if pkts == [] || pkts[0].size != 0 {
        return;
      }
      var off, i := 0, 0;
      while i < |pkts|
        invariant i <= |pkts| == |old(pkts)|
        invariant off == if i <= n then 0 else i - n
        invariant forall k :: 0 <= k < off ==> pkts[k] == old(pkts)[n + k]
        invariant forall k :: i <= k < |pkts| ==> pkts[k] == old(pkts)[k]
      {
        if pkts[i].size != 0 {
          pkts := pkts[off := pkts[i]];
          off := off + 1;
        }
        i := i + 1;
      }
      pkts := pkts[..off];
    }

    /** Marks the packets `ack`, `d` bytes past the oldest, covers whole and drops them; `n` is how many there are. */
    method DropAcked(ack: Value, ghost d: int) returns (ghost n: nat)
      requires pkts != [] && Chained(Spans(pkts)) && Total(Spans(pkts)) < HALF
      requires ack == Wrap(pkts[0].first + d) && Total(Spans(pkts)) - HALF < d <= Total(Spans(pkts))
      modifies this`pkts, this`ssn
      ensures n <= |old(pkts)| && pkts == old(pkts)[n..]
      ensures n > 0 ==> Start(Spans(old(pkts)), n) <= d
      ensures n < |old(pkts)| ==> d < Start(Spans(old(pkts)), n + 1)
    {
      ghost var spans := Spans(pkts);
      forall k | 0 <= k < |spans|
        ensures spans[k].size > 0
      {
        assert InChain(spans, k);
      }
      var i := 0;
      hide Chained;
      while i < |pkts|
        invariant i <= |pkts| == |spans|
        invariant forall k :: 0 <= k < i ==> pkts[k] == RECEIVED
        invariant forall k :: i <= k < |pkts| ==> pkts[k] == old(pkts)[k]
        invariant i > 0 ==> Start(spans, i) <= d
      {
        var endseq := Wrap(pkts[i].first + pkts[i].size);
        EndTest(spans, i, ack, d);
        if !LessThanEq(endseq, ack) {
          break;
        }
        ssn := endseq;
        pkts := pkts[i := RECEIVED];
        i := i + 1;
      }
      n := i;
      RemoveReceived(n);
    }

    /** Forgets acknowledged packets and trims the one `ack` falls into (`sentlist.RecvAck`). */
    method AckPackets(ack: Value, size: nat) returns (err: TxError)
      requires Chained(Spans(pkts)) && Total(Spans(pkts)) < HALF
      modifies this`pkts, this`ssn
      ensures old(pkts) == [] ==> err == TxDrop && pkts == []
      ensures old(pkts) != [] ==>
                var d, total := Int32(Wrap(ack - old(pkts)[0].first)), Total(Spans(old(pkts)));
                && err == (if total - HALF < d <= total then TxOk else TxDrop)
                && (err != TxOk || d <= 0 ==> pkts == old(pkts))
                && (err == TxOk && d == total ==> pkts == [])
                && (err == TxOk && 0 < d < total ==> exists j: nat :: AckedTo(size, old(pkts), d, j, pkts))
    {
      hide Start, Spans, Chained, Wrap, Int32, LessThan, AddOffset, AckedTo;
      if pkts == [] {
        return TxDrop;
      }
      ghost var spans, d := Spans(pkts), Int32(Wrap(ack - pkts[0].first));
      EndOfChain(spans);
      AckPosition(spans[0].first, ack, Total(spans));
      if LessThan(Wrap(pkts[|pkts| - 1].first + pkts[|pkts| - 1].size), ack) {
        return TxDrop;
      }
      ghost var n := DropAcked(ack, d);
      AckCount(spans, n, d);
      if pkts == [] {
        return TxOk;
      }
      Remaining(spans, n, ack, d);
      var acked := Int32(Wrap(ack - pkts[0].first));
      if d > 0 {
        TrimIsAcked(size, old(pkts), d, n, pkts);
      }
      if acked <= 0 {
        return TxOk;
      }
      pkts := pkts[0 := Packet(AddOffset(pkts[0].off, acked, size), pkts[0].end,
                               Wrap(pkts[0].first + acked), pkts[0].size - acked)];
      return TxOk;
    }

    /** Takes an acknowledgement: the bytes it covers leave the queue, even part of a packet. */
    method RecvACK(ack: Value) returns (err: TxError)
      requires Valid()
      modifies this`pkts, this`ssn, this`sentoff, this`sentend, this`unsentoff
      ensures Valid()
      ensures err == if AckTaken(old(View()), ack) then TxOk else TxDrop
      ensures View() == TxAck(old(View()), ack)
      ensures unsentoff == if err == TxOk && pkts == [] && unsentend == 0 then 0 else old(unsentoff)
    {
      hide Start, Chained, Wrap, Int32, Region, Used, Canon, Packed, Adjacent, AckedTo, DropSpans, Spans;
      ViewIsCoherent();
      AckKeeps(View(), ack);
      LayoutFacts();
      err := AckPackets(ack, rawbuf.Length);
      if err != TxOk {
        return;
      }
      ghost var d := AckOffset(old(View()), ack);
      AckEffect(rawbuf[..], sentoff, sentend, unsentoff, unsentend, old(pkts), d, pkts);
      if pkts == [] {
        sentend := 0;
      } else {
        sentoff, sentend := pkts[0].off, pkts[|pkts| - 1].end;
      }
      if unsentend == 0 && sentend == 0 {
        sentoff, unsentoff := 0, 0;
      }
    }

    lemma LayoutFacts()
      requires Valid()
      ensures 2 <= rawbuf.Length < HALF
      ensures sentoff <= rawbuf.Length && sentend <= rawbuf.Length
      ensures unsentoff <= rawbuf.Length && unsentend <= rawbuf.Length
      ensures sentend == 0 <==> pkts == []
      ensures Total(Spans(pkts)) == |Sent()|
    {
    }

    /** First queued packet whose sequence numbers include `at`. */
    method PacketContaining(at: Value) returns (i: nat)
      requires Valid()
      ensures i == Holding(Spans(pkts), at)
    {
      hide Layout, Chained, Sizeof, Wrap, LessThan, LessThanEq, Start, Spans;
      i := 0;
      while i < |pkts|
        invariant i <= |pkts|
        invariant forall j :: 0 <= j < i ==> Sizeof(pkts[j].first, at) >= pkts[j].size
      {
        PacketSize(i);
        InSpan(pkts[i].first, pkts[i].size, at);
        if LessThanEq(pkts[i].first, at) && LessThan(at, Wrap(pkts[i].first + pkts[i].size)) {
          return;
        }
        i := i + 1;
      }
    }

    lemma PacketSize(i: nat)
      requires Valid() && i < |pkts|
      ensures 0 < pkts[i].size < HALF
    {
      assert InChain(Spans(pkts), i);
      StartMonotone(Spans(pkts), i + 1, |pkts|);
    }

    /** Drops packet `i`, the one starting at `at`, and every packet after it. */
    method TruncateFrom(at: Value, ghost i: nat)
      requires i < |pkts| && pkts[i].first == at
      requires forall j :: 0 <= j < i ==> pkts[j].first != at
      modifies this`pkts, this`ssn
      ensures pkts == old(pkts)[..i]
    {
      var k := 0;
      while k < |pkts|
        invariant k <= i && pkts == old(pkts)
      {
        if pkts[k].first == at {
          pkts := pkts[..k];
          if k == 0 {
            ssn := at;
          }
          return;
        }
        k := k + 1;
      }
    }

    /**
      Rewinds to the packet holding `at`. The sent region is then said to end at that packet's
      offset, which marks it empty when the offset is 0: the queue stays consistent exactly when
      the packet is the oldest one or does not begin at buffer index 0.
    */
    method RetransmitFrom(at: Value)
      requires Valid()
      modifies this`pkts, this`ssn, this`sentoff, this`sentend, this`unsentoff, this`unsentend
      ensures var i := Holding(Spans(old(pkts)), at);
              if i == |old(pkts)| then Valid() && View() == old(View())
              else
                && (Valid() <==> RewindSafe(old(pkts), i))
                && (Valid() ==> View() == TxRewind(old(View()), i))
                && (!Valid() ==> sentend == 0 && pkts == old(pkts)[..i] && pkts != [])
    {
      hide Start, Chained, Wrap, Region, Used, Canon, Adjacent, Spans, Sizeof;
      var i := PacketContaining(at);
      if i == |pkts| {
        return;
      }
      ViewIsCoherent();
      RewindKeeps(View(), i);
      if RewindSafe(pkts, i) {
        RewindEffect(rawbuf[..], sentoff, sentend, unsentoff, unsentend, pkts, i);
      }
      PacketsDistinct(i);
      var rewindOff, rewindSeq := pkts[i].off, pkts[i].first;
      var writeEnd := unsentend;
      if writeEnd == 0 {
        writeEnd := sentend;
      }
      if rewindOff == sentoff {
        sentoff := 0;
        sentend := 0;
      } else {
        sentend := rewindOff;
      }
      unsentoff := rewindOff;
      unsentend := writeEnd;
      TruncateFrom(rewindSeq, i);
    }

    /** Packet `i` shares neither its sequence number nor its offset with an older one. */
    lemma PacketsDistinct(i: nat)
      requires Valid() && i < |pkts|
      ensures forall j :: 0 <= j < i ==> pkts[j].first != pkts[i].first
      ensures pkts[i].off == sentoff <==> i == 0
    {
      var spans := Spans(pkts);
      forall j | 0 <= j < i
        ensures pkts[j].first != pkts[i].first
      {
        StartsApart(spans, j, i);
        OrderExact(spans[0].first, Start(spans, j), Start(spans, i));
      }
      if i > 0 {
        StartsApart(spans, 0, i);
        assert InPlace(rawbuf.Length, sentoff, pkts, i);
      }
    }

    method RetransmitFromUNA()
      requires Valid()
      modifies this`pkts, this`ssn, this`sentoff, this`sentend, this`unsentoff, this`unsentend
      ensures Valid()
      ensures View() == if old(pkts) == [] then old(View()) else TxRewind(old(View()), 0)
    {
      if pkts == [] {
        return;
      }
      PacketSize(0);
      assert Holding(Spans(pkts), pkts[0].first) == 0;
      RetransmitFrom(pkts[0].first);
    }
  }

  /** The queue `RewindToIndexZero` is about, reached by the queue's own calls, and what the rewind then leaves. */
  method RewindToIndexZeroReached() returns (q: RingTx)
    ensures !q.Valid() && q.sentend == 0 && q.pkts == [Packet(2, 4, 7, 2)]
  {
    q := FirstAcked();
    var _, _ := q.Write([4, 5]);
    var _, _ := q.MakePacket(2, 7);
    var _, _ := q.MakePacket(1, 9);
    assert q.pkts == [Packet(2, 4, 7, 2), Packet(0, 1, 9, 1)];
    q.RetransmitFrom(9);
  }

  method FirstAcked() returns (q: RingTx)
    ensures fresh(q) && fresh(q.rawbuf) && q.Valid() && q.rawbuf.Length == 4 && q.slots == 2
    ensures q.pkts == [] && q.sentend == 0 && q.unsentoff == 2 && q.unsentend == 3
    ensures q.View() == TxView([], [3], [], 2, 4)
  {
    var buf := new byte[4](_ => 0);
    q := new RingTx(buf, 2, 5);
    var _, _ := q.Write([1, 2, 3]);
    var _, _ := q.MakePacket(2, 5);
    var _ := q.RecvACK(7);
  }
}
