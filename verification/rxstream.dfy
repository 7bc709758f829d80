/**
  The receive side as a stream: why reassembly may keep no buffer offsets.

  `S` is the byte stream the peer writes and `r` the position in it of rcv.NXT. A held segment is in
  lockstep when its payload lies in the free region of the ring exactly as far past the write
  position as its sequence number lies past rcv.NXT, and equals the stream there.
*/
module RxStream {
  import opened Bytes
  import opened SeqNum
  import opened Reassembling

  /** What the receive ring, the reassembly list and rcv.NXT stand for. */
  datatype RxView = RxView(contents: seq<byte>, ahead: seq<byte>, held: seq<Held>, slots: nat, nxt: Value)

  /** Delivery of what has become contiguous with rcv.NXT. */
  function RxDeliver(v: RxView): RxView {
    var (d, rest) := Deliver(v.held, v.nxt, |v.ahead|);
    v.(contents := v.contents + v.ahead[..d], ahead := v.ahead[d..], held := rest, nxt := Wrap(v.nxt + d))
  }

  /** The next expected payload written to the ring. */
  function RxWrite(v: RxView, payload: seq<byte>): RxView
    requires |payload| <= |v.ahead|
  {
    v.(contents := v.contents + payload, ahead := v.ahead[|payload|..], nxt := Wrap(v.nxt + |payload|))
  }

  /** A payload staged ahead of its turn. */
  function RxStore(v: RxView, at: Value, payload: seq<byte>): RxView
    requires |payload| < MOD
  {
    match Place(v.held, v.slots, |v.ahead|, v.nxt, at, |payload|)
    case Insert(i) =>
      v.(held := v.held[..i] + [Held(at, |payload|)] + v.held[i..],
         ahead := Splice(v.ahead, Sizeof(v.nxt, at), payload))
    case _ => v
  }

  /** `n` bytes read off the front. */
  function RxRead(v: RxView, n: nat): RxView
    requires n <= |v.contents|
  {
    v.(contents := v.contents[n..], ahead := v.ahead + v.contents[..n])
  }

  /** Stream position of a held segment. */
  function Pos(h: Held, nxt: Value, r: int): int {
    r + Int32(Wrap(h.first - nxt))
  }

  /**
    Segment `h` lies within the free region, and holds the stream bytes at its position unless that is already
    past.
  */
  ghost predicate InStep(h: Held, nxt: Value, r: int, ahead: seq<byte>, S: seq<byte>) {
    var q := Pos(h, nxt, r);
    && 0 < h.n && q + h.n <= r + |ahead| && r - HALF < q
    && (r <= q ==> 0 <= q && q + h.n <= |S| && ahead[q - r..q - r + h.n] == S[q..q + h.n])
  }

  /** Every held segment is in step. */
  ghost predicate AllInStep(held: seq<Held>, nxt: Value, r: int, ahead: seq<byte>, S: seq<byte>) {
    forall i :: 0 <= i < |held| ==> InStep(held[i], nxt, r, ahead, S)
  }

  ghost predicate Before(a: Held, b: Held, nxt: Value, r: int) {
    Pos(a, nxt, r) + a.n <= Pos(b, nxt, r)
  }

  /** Held segments are sorted and disjoint. */
  ghost predicate Sorted(held: seq<Held>, nxt: Value, r: int) {
    forall i, j :: 0 <= i < j < |held| ==> Before(held[i], held[j], nxt, r)
  }

  /** The receive side in lockstep with stream `S` at position `r`, all held segments still ahead. */
  ghost predicate Lockstep(v: RxView, S: seq<byte>, base: int, r: nat) {
    && |v.contents| + |v.ahead| < HALF && |v.held| <= v.slots
    && r <= |S| && v.nxt == Wrap(base + r)
    && AllInStep(v.held, v.nxt, r, v.ahead, S)
    && Sorted(v.held, v.nxt, r)
    && (v.held != [] ==> Pos(v.held[0], v.nxt, r) > r)
  }

  /** Positions do not depend on how far rcv.NXT has moved, up to half a turn. */
  lemma PosShift(h: Held, nxt: Value, r: int, k: nat)
    requires r + k - HALF < Pos(h, nxt, r)
    ensures Pos(h, Wrap(nxt + k), r + k) == Pos(h, nxt, r)
  {
    var d := Int32(Wrap(h.first - nxt));
    WrapIsMod(h.first - nxt);
    WrapIsMod(nxt + k);
    WrapIsMod(h.first - Wrap(nxt + k));
  }

  /** Equality with rcv.NXT and modular order read off positions. */
  lemma PosOrder(h: Held, nxt: Value, r: int)
    requires r - HALF < Pos(h, nxt, r)
    ensures h.first == nxt <==> Pos(h, nxt, r) == r
    ensures LessThan(h.first, nxt) <==> Pos(h, nxt, r) < r
  {
    WrapIsMod(h.first - nxt);
  }

  /** Advancing rcv.NXT by `k` written bytes keeps a segment in step; it may have become stale. */
  lemma InStepAdvance(h: Held, nxt: Value, r: int, ahead: seq<byte>, S: seq<byte>, k: nat)
    requires InStep(h, nxt, r, ahead, S) && k <= |ahead| && r + k - HALF < Pos(h, nxt, r)
    ensures InStep(h, Wrap(nxt + k), r + k, ahead[k..], S)
    ensures Pos(h, Wrap(nxt + k), r + k) == Pos(h, nxt, r)
  {
    PosShift(h, nxt, r, k);
    var q := Pos(h, nxt, r);
    if r + k <= q {
      assert ahead[k..][q - r - k..q - r - k + h.n] == ahead[q - r..q - r + h.n];
    }
  }

  lemma AdvanceAll(held: seq<Held>, nxt: Value, r: int, ahead: seq<byte>, S: seq<byte>, k: nat)
    requires AllInStep(held, nxt, r, ahead, S) && Sorted(held, nxt, r) && k <= |ahead|
    requires forall i :: 0 <= i < |held| ==> r + k - HALF < Pos(held[i], nxt, r)
    ensures AllInStep(held, Wrap(nxt + k), r + k, ahead[k..], S) && Sorted(held, Wrap(nxt + k), r + k)
  {
    hide Pos, Wrap, InStep;
    forall i | 0 <= i < |held|
      ensures InStep(held[i], Wrap(nxt + k), r + k, ahead[k..], S)
      ensures Pos(held[i], Wrap(nxt + k), r + k) == Pos(held[i], nxt, r)
    {
      InStepAdvance(held[i], nxt, r, ahead, S, k);
    }
    forall i, j | 0 <= i < j < |held|
      ensures Before(held[i], held[j], Wrap(nxt + k), r + k)
    {
      assert Before(held[i], held[j], nxt, r);
    }
  }

  lemma TailInStep(held: seq<Held>, nxt: Value, r: int, ahead: seq<byte>, S: seq<byte>)
    requires held != [] && AllInStep(held, nxt, r, ahead, S) && Sorted(held, nxt, r)
    ensures AllInStep(held[1..], nxt, r, ahead, S) && Sorted(held[1..], nxt, r)
    ensures forall i :: 0 <= i < |held| - 1 ==> Before(held[0], held[1..][i], nxt, r)
  {
    hide Pos, InStep, Before;
    forall i, j | 0 <= i < j < |held| - 1
      ensures Before(held[1..][i], held[1..][j], nxt, r)
    {
      assert Before(held[i + 1], held[j + 1], nxt, r);
    }
    forall i | 0 <= i < |held| - 1
      ensures Before(held[0], held[1..][i], nxt, r)
    {
      assert Before(held[0], held[i + 1], nxt, r);
    }
  }

  /** What delivery must give: the stream's next `d` bytes, and segments in step that are all still ahead. */
  ghost predicate Delivered(held: seq<Held>, nxt: Value, r: nat, ahead: seq<byte>, S: seq<byte>)
    requires r <= |S|
  {
    var (d, rest) := Deliver(held, nxt, |ahead|);
    && r + d <= |S| && ahead[..d] == S[r..r + d]
    && AllInStep(rest, Wrap(nxt + d), r + d, ahead[d..], S) && Sorted(rest, Wrap(nxt + d), r + d)
    && (rest != [] ==> Pos(rest[0], Wrap(nxt + d), r + d) > r + d)
  }

  /**
    Delivery commits exactly the stream bytes that follow, and stops only at a gap: the commit of a
    contiguous segment never fails.
  */
  lemma {:induction false} DeliverKeeps(held: seq<Held>, nxt: Value, r: nat, ahead: seq<byte>, S: seq<byte>)
    requires AllInStep(held, nxt, r, ahead, S) && Sorted(held, nxt, r) && |ahead| < HALF && r <= |S|
    ensures Delivered(held, nxt, r, ahead, S)
    decreases |held|
  {
    hide Pos, InStep, Before, Wrap;
    if held == [] {
      NothingHeld(nxt, r, ahead, S);
    } else {
      var h := held[0];
      assert InStep(h, nxt, r, ahead, S);
      HeadPosition(h, nxt, r, ahead, S);
      TailInStep(held, nxt, r, ahead, S);
      if h.first == nxt {
        AfterHead(held, nxt, r, ahead, S);
        AdvanceAll(held[1..], nxt, r, ahead, S, h.n);
        DeliverKeeps(held[1..], Wrap(nxt + h.n), r + h.n, ahead[h.n..], S);
        DeliveredMore(held, nxt, r, ahead, S);
      } else if LessThan(h.first, nxt) {
        DeliverKeeps(held[1..], nxt, r, ahead, S);
      } else {
        StopsAtGap(held, nxt, r, ahead, S);
      }
    }
  }

  lemma NothingHeld(nxt: Value, r: nat, ahead: seq<byte>, S: seq<byte>)
    requires r <= |S|
    ensures Delivered([], nxt, r, ahead, S)
  {
  }

  lemma HeadPosition(h: Held, nxt: Value, r: nat, ahead: seq<byte>, S: seq<byte>)
    requires InStep(h, nxt, r, ahead, S)
    ensures h.first == nxt ==>
            0 < h.n <= |ahead| && r + h.n <= |S| && ahead[..h.n] == S[r..r + h.n] && Pos(h, nxt, r) == r
    ensures h.first != nxt && !LessThan(h.first, nxt) ==> Pos(h, nxt, r) > r
  {
    hide Pos, Wrap, LessThan;
    var q := Pos(h, nxt, r);
    PosOrder(h, nxt, r);
    if q == r {
      assert ahead[0..h.n] == ahead[..h.n];
    }
  }

  lemma AfterHead(held: seq<Held>, nxt: Value, r: nat, ahead: seq<byte>, S: seq<byte>)
    requires held != [] && Pos(held[0], nxt, r) == r && held[0].n <= |ahead| < HALF
    requires forall i :: 0 <= i < |held| - 1 ==> Before(held[0], held[1..][i], nxt, r)
    ensures forall i :: 0 <= i < |held| - 1 ==> r + held[0].n - HALF < Pos(held[1..][i], nxt, r)
  {
    hide Pos, Wrap;
    forall i | 0 <= i < |held| - 1
      ensures r + held[0].n - HALF < Pos(held[1..][i], nxt, r)
    {
      assert Before(held[0], held[1..][i], nxt, r);
    }
  }

  /** The head's bytes and then those delivered after it. */
  lemma DeliveredMore(held: seq<Held>, nxt: Value, r: nat, ahead: seq<byte>, S: seq<byte>)
    requires held != [] && held[0].first == nxt && 0 < held[0].n <= |ahead| && r + held[0].n <= |S|
    requires ahead[..held[0].n] == S[r..r + held[0].n]
    requires Delivered(held[1..], Wrap(nxt + held[0].n), r + held[0].n, ahead[held[0].n..], S)
    ensures Delivered(held, nxt, r, ahead, S)
  {
    hide Pos, InStep, Before, Wrap, AllInStep, Sorted;
    var n := held[0].n;
    var (d, rest) := Deliver(held[1..], Wrap(nxt + n), |ahead| - n);
    WrapAdd(nxt + n, d);
    assert ahead[n..][d..] == ahead[n + d..];
    assert ahead[..n + d] == ahead[..n] + ahead[n..][..d];
    assert S[r..r + n + d] == S[r..r + n] + S[r + n..r + n + d];
    assert r + n + d == r + (n + d);
  }

  lemma StopsAtGap(held: seq<Held>, nxt: Value, r: nat, ahead: seq<byte>, S: seq<byte>)
    requires AllInStep(held, nxt, r, ahead, S) && Sorted(held, nxt, r) && r <= |S|
    requires held != [] && held[0].first != nxt && !LessThan(held[0].first, nxt) && Pos(held[0], nxt, r) > r
    ensures Delivered(held, nxt, r, ahead, S)
  {
    hide Pos, InStep, Before;
    assert ahead[0..] == ahead && Wrap(nxt + 0) == nxt;
  }

  /** Bytes `RxDeliver` makes readable. */
  function Due(v: RxView): nat {
    Deliver(v.held, v.nxt, |v.ahead|).0
  }

  /** Accepting the next payload of the stream, and delivering what it uncovers, yields the stream's next bytes. */
  lemma InOrderKeeps(v: RxView, S: seq<byte>, base: int, r: nat, payload: seq<byte>)
    requires Lockstep(v, S, base, r) && |payload| <= |v.ahead|
    requires r + |payload| <= |S| && payload == S[r..r + |payload|]
    ensures var v1 := RxWrite(v, payload);
            var r' := r + |payload| + Due(v1);
            && r' <= |S|
            && Lockstep(RxDeliver(v1), S, base, r')
            && RxDeliver(v1).contents == v.contents + S[r..r']
  {
    hide Pos, Wrap, InStep, Before, AllInStep, Sorted;
    var k := |payload|;
    AllAhead(v.held, v.nxt, r);
    AdvanceAll(v.held, v.nxt, r, v.ahead, S, k);
    var v1 := RxWrite(v, payload);
    DeliverKeeps(v1.held, v1.nxt, r + k, v1.ahead, S);
    var d := Due(v1);
    WrapAdd(base + r, k);
    WrapAdd(base + r + k, d);
    assert S[r..r + k] + S[r + k..r + k + d] == S[r..r + k + d];
  }

  /** All held segments are ahead when the first one is. */
  lemma AllAhead(held: seq<Held>, nxt: Value, r: int)
    requires Sorted(held, nxt, r) && (held != [] ==> Pos(held[0], nxt, r) > r)
    ensures forall i :: 0 <= i < |held| ==> r < Pos(held[i], nxt, r)
  {
    hide Pos;
    forall i | 0 <= i < |held|
      ensures r < Pos(held[i], nxt, r)
    {
      if i > 0 {
        assert Before(held[0], held[i], nxt, r);
      }
    }
  }

  /** Reading frees ring space behind the staged bytes and leaves them in step; nothing was waiting for room. */
  lemma ReadKeeps(v: RxView, S: seq<byte>, base: int, r: nat, n: nat)
    requires Lockstep(v, S, base, r) && n <= |v.contents|
    ensures Lockstep(RxRead(v, n), S, base, r)
    ensures RxDeliver(RxRead(v, n)) == RxRead(v, n) && Due(RxRead(v, n)) == 0
  {
    hide Pos, Wrap, Before;
    var v1 := RxRead(v, n);
    forall i | 0 <= i < |v.held|
      ensures InStep(v.held[i], v1.nxt, r, v1.ahead, S)
    {
      assert InStep(v.held[i], v.nxt, r, v.ahead, S);
      var q := Pos(v.held[i], v.nxt, r);
      if r <= q {
        assert v1.ahead[q - r..q - r + v.held[i].n] == v.ahead[q - r..q - r + v.held[i].n];
      }
    }
    if v.held != [] {
      assert InStep(v.held[0], v.nxt, r, v.ahead, S);
      PosOrder(v.held[0], v.nxt, r);
    }
    WrapOfValue(v.nxt);
    assert v1.ahead[0..] == v1.ahead;
  }

  lemma WrapOfValue(x: Value)
    ensures Wrap(x + 0) == x
  {
  }

  /** The peer writing more does not disturb what was received. */
  lemma StreamGrows(v: RxView, S: seq<byte>, S': seq<byte>, base: int, r: nat)
    requires Lockstep(v, S, base, r) && S <= S'
    ensures Lockstep(v, S', base, r)
  {
    hide Pos, Wrap, Before;
    forall i | 0 <= i < |v.held|
      ensures InStep(v.held[i], v.nxt, r, v.ahead, S')
    {
      assert InStep(v.held[i], v.nxt, r, v.ahead, S);
    }
  }

  lemma PosFirst(h: Held, nxt: Value, base: int, r: int)
    requires nxt == Wrap(base + r)
    ensures h.first == Wrap(base + Pos(h, nxt, r))
  {
    hide Wrap;
    var x := Wrap(h.first - nxt);
    WrapCancel(h.first, base + r);
    WrapAdd(h.first - nxt, base + r);
    WrapTurn(x + (base + r));
  }

  /** Where an insertion leaves a segment relative to the others. */
  lemma PlacedBetween(v: RxView, S: seq<byte>, base: int, r: nat, at: Value, n: nat, i: nat)
    requires Lockstep(v, S, base, r) && n < MOD
    requires Place(v.held, v.slots, |v.ahead|, v.nxt, at, n) == Insert(i)
    ensures var q := r + Sizeof(v.nxt, at);
            && (i > 0 ==> Pos(v.held[i - 1], v.nxt, r) + v.held[i - 1].n <= q)
            && (i < |v.held| ==> q + n <= Pos(v.held[i], v.nxt, r))
  {
    hide Pos, Wrap, Before, LessThan, Sorted;
    var q := r + Sizeof(v.nxt, at);
    AtPosition(v.nxt, at, base, r);
    if i > 0 {
      var h := v.held[i - 1];
      assert InStep(h, v.nxt, r, v.ahead, S);
      EndPosition(h, v.nxt, base, r);
      PosAheadBound(v, S, base, r, i - 1);
      OrderExact(base, q, Pos(h, v.nxt, r) + h.n);
    }
    if i < |v.held| {
      var h := v.held[i];
      assert InStep(h, v.nxt, r, v.ahead, S);
      PosFirst(h, v.nxt, base, r);
      PosAheadBound(v, S, base, r, i);
      OrderExact(base, Pos(h, v.nxt, r), q);
      OrderExact(base, Pos(h, v.nxt, r), q + n);
      WrapAdd(base + q, n);
    }
  }

  lemma PosAheadBound(v: RxView, S: seq<byte>, base: int, r: nat, i: nat)
    requires Lockstep(v, S, base, r) && i < |v.held|
    ensures r < Pos(v.held[i], v.nxt, r) && Pos(v.held[i], v.nxt, r) + v.held[i].n < r + HALF && 0 < v.held[i].n
  {
    hide Pos, Wrap;
    assert InStep(v.held[i], v.nxt, r, v.ahead, S);
    AllAhead(v.held, v.nxt, r);
  }

  lemma AtPosition(nxt: Value, at: Value, base: int, r: nat)
    requires nxt == Wrap(base + r)
    ensures at == Wrap(base + (r + Sizeof(nxt, at)))
  {
    hide Wrap;
    WrapCancel(at, base + r);
    WrapAdd(at - nxt, base + r);
  }

  lemma EndPosition(h: Held, nxt: Value, base: int, r: int)
    requires nxt == Wrap(base + r)
    ensures Wrap(h.first + h.n) == Wrap(base + (Pos(h, nxt, r) + h.n))
  {
    hide Wrap, Pos;
    PosFirst(h, nxt, base, r);
    WrapAdd(base + Pos(h, nxt, r), h.n);
  }

  lemma InsertSorted(held: seq<Held>, h: Held, i: nat, nxt: Value, r: int)
    requires Sorted(held, nxt, r) && i <= |held|
    requires forall j :: 0 <= j < i ==> Before(held[j], h, nxt, r)
    requires forall j :: i <= j < |held| ==> Before(h, held[j], nxt, r)
    ensures Sorted(held[..i] + [h] + held[i..], nxt, r)
  {
    hide Before;
    var t := held[..i] + [h] + held[i..];
    forall a, b | 0 <= a < b < |t|
      ensures Before(t[a], t[b], nxt, r)
    {
      var a', b' := if a < i then a else a - 1, if b < i then b else b - 1;
      if a != i && b != i {
        assert Before(held[a'], held[b'], nxt, r);
      }
    }
  }

  /** Order against a neighbour extends to everything on its side. */
  lemma BetweenAll(held: seq<Held>, h: Held, i: nat, nxt: Value, r: int)
    requires Sorted(held, nxt, r) && i <= |held| && forall j :: 0 <= j < |held| ==> 0 < held[j].n
    requires i > 0 ==> Before(held[i - 1], h, nxt, r)
    requires i < |held| ==> Before(h, held[i], nxt, r)
    ensures forall j :: 0 <= j < i ==> Before(held[j], h, nxt, r)
    ensures forall j :: i <= j < |held| ==> Before(h, held[j], nxt, r)
  {
    hide Pos;
    forall j | 0 <= j < i
      ensures Before(held[j], h, nxt, r)
    {
      assert j < i - 1 ==> Before(held[j], held[i - 1], nxt, r);
    }
    forall j | i <= j < |held|
      ensures Before(h, held[j], nxt, r)
    {
      assert i < j ==> Before(held[i], held[j], nxt, r);
    }
  }

  /** A staged payload leaves the bytes of segments on either side of it alone. */
  lemma SpliceSpares(h: Held, new_: Held, nxt: Value, r: nat, ahead: seq<byte>, S: seq<byte>, payload: seq<byte>)
    requires InStep(h, nxt, r, ahead, S) && r <= Pos(new_, nxt, r) && new_.n == |payload|
    requires Pos(new_, nxt, r) - r + |payload| <= |ahead|
    requires Before(h, new_, nxt, r) || Before(new_, h, nxt, r)
    ensures InStep(h, nxt, r, Splice(ahead, Pos(new_, nxt, r) - r, payload), S)
  {
    hide Pos;
    var g := Pos(new_, nxt, r) - r;
    var ahead' := Splice(ahead, g, payload);
    var q := Pos(h, nxt, r);
    if r <= q {
      assert ahead'[q - r..q - r + h.n] == ahead[q - r..q - r + h.n];
    }
  }

  lemma StagedInStep(h: Held, nxt: Value, r: nat, ahead: seq<byte>, S: seq<byte>, payload: seq<byte>)
    requires r <= Pos(h, nxt, r) && h.n == |payload| > 0 && Pos(h, nxt, r) - r + |payload| <= |ahead|
    requires Pos(h, nxt, r) + |payload| <= |S| && payload == S[Pos(h, nxt, r)..Pos(h, nxt, r) + |payload|]
    ensures InStep(h, nxt, r, Splice(ahead, Pos(h, nxt, r) - r, payload), S)
  {
  }

  /** Staging an out-of-order payload of the stream keeps the lockstep, whatever is already held. */
  lemma StoreKeeps(v: RxView, S: seq<byte>, base: int, r: nat, at: Value, payload: seq<byte>)
    requires Lockstep(v, S, base, r) && at != v.nxt && |payload| < MOD
    requires var q := r + Sizeof(v.nxt, at); q + |payload| <= |S| && payload == S[q..q + |payload|]
    ensures Lockstep(RxStore(v, at, payload), S, base, r)
    ensures RxStore(v, at, payload).contents == v.contents && RxStore(v, at, payload).nxt == v.nxt
  {
    hide Pos, Wrap, Before, InStep, Rank;
    var p := Place(v.held, v.slots, |v.ahead|, v.nxt, at, |payload|);
    if p.Insert? {
      var i, h, g := p.i, Held(at, |payload|), Sizeof(v.nxt, at);
      NewPosition(v.nxt, at, |payload|, r);
      PlacedBetween(v, S, base, r, at, |payload|, i);
      SizesPositive(v, S, base, r);
      NeighboursBefore(v.held, h, i, v.nxt, r);
      BetweenAll(v.held, h, i, v.nxt, r);
      InsertSorted(v.held, h, i, v.nxt, r);
      var v' := RxStore(v, at, payload);
      forall j | 0 <= j < |v'.held|
        ensures InStep(v'.held[j], v.nxt, r, v'.ahead, S)
      {
        if j == i {
          StagedInStep(h, v.nxt, r, v.ahead, S, payload);
        } else {
          var j' := if j < i then j else j - 1;
          assert v'.held[j] == v.held[j'];
          assert InStep(v.held[j'], v.nxt, r, v.ahead, S);
          SpliceSpares(v.held[j'], h, v.nxt, r, v.ahead, S, payload);
        }
      }
    }
  }

  lemma NeighboursBefore(held: seq<Held>, h: Held, i: nat, nxt: Value, r: int)
    requires i <= |held|
    requires i > 0 ==> Pos(held[i - 1], nxt, r) + held[i - 1].n <= Pos(h, nxt, r)
    requires i < |held| ==> Pos(h, nxt, r) + h.n <= Pos(held[i], nxt, r)
    ensures i > 0 ==> Before(held[i - 1], h, nxt, r)
    ensures i < |held| ==> Before(h, held[i], nxt, r)
  {
  }

  lemma NewPosition(nxt: Value, at: Value, n: nat, r: nat)
    requires Sizeof(nxt, at) < HALF && at != nxt
    ensures Pos(Held(at, n), nxt, r) == r + Sizeof(nxt, at) > r
  {
    WrapIsMod(at - nxt);
  }

  lemma SizesPositive(v: RxView, S: seq<byte>, base: int, r: nat)
    requires Lockstep(v, S, base, r)
    ensures forall j :: 0 <= j < |v.held| ==> 0 < v.held[j].n
  {
    hide Pos, Wrap;
    forall j | 0 <= j < |v.held|
      ensures 0 < v.held[j].n
    {
      assert InStep(v.held[j], v.nxt, r, v.ahead, S);
    }
  }

  // ---- what is held, and that it comes out

  /** Segment `h` shares no position with the `n` from `q` on. */
  ghost predicate Apart(h: Held, nxt: Value, r: int, q: int, n: nat) {
    q + n <= Pos(h, nxt, r) || Pos(h, nxt, r) + h.n <= q
  }

  /** The list has a slot and the ring the space up to the end of the payload. */
  predicate HasRoom(v: RxView, at: Value, n: nat) {
    0 < n && |v.held| < v.slots && Sizeof(v.nxt, at) + n <= |v.ahead|
  }

  /**
    A payload is held if and only if there is room and it overlaps nothing held, next to or not; it counts as held
    already if and only if a held segment starts where it does.
  */
  lemma PlaceExactly(v: RxView, S: seq<byte>, base: int, r: nat, at: Value, n: nat)
    requires Lockstep(v, S, base, r) && n < MOD
    ensures var p, q := Place(v.held, v.slots, |v.ahead|, v.nxt, at, n), r + Sizeof(v.nxt, at);
            && (p.Insert? <==>
                HasRoom(v, at, n) && forall i :: 0 <= i < |v.held| ==> Apart(v.held[i], v.nxt, r, q, n))
            && (p.Already? <==> HasRoom(v, at, n) && exists i :: 0 <= i < |v.held| && Pos(v.held[i], v.nxt, r) == q)
  {
    hide Pos, Wrap, Before, LessThan, Rank, Lockstep, Apart;
    if HasRoom(v, at, n) {
      var i, q := Rank(v.held, at), r + Sizeof(v.nxt, at);
      RanksByPosition(v, S, base, r, at, n);
      if i > 0 {
        EndsByPosition(v, S, base, r, at, n, i - 1);
      }
      NeighboursDecide(v, S, base, r, q, n, i);
    }
  }

  /** The segments before the rank start before the payload, the others do not; and the next one's start. */
  lemma RanksByPosition(v: RxView, S: seq<byte>, base: int, r: nat, at: Value, n: nat)
    requires Lockstep(v, S, base, r) && HasRoom(v, at, n)
    ensures var i, q := Rank(v.held, at), r + Sizeof(v.nxt, at);
            && (forall j :: 0 <= j < i ==> Pos(v.held[j], v.nxt, r) < q)
            && (i < |v.held| ==>
                  && q <= Pos(v.held[i], v.nxt, r) && (v.held[i].first == at <==> Pos(v.held[i], v.nxt, r) == q)
                  && (LessThan(v.held[i].first, Wrap(at + n)) <==> Pos(v.held[i], v.nxt, r) < q + n))
  {
    hide Pos, Wrap, Before, LessThan, Sorted;
    var q := r + Sizeof(v.nxt, at);
    AtPosition(v.nxt, at, base, r);
    WrapAdd(base + q, n);
    forall j | 0 <= j < |v.held|
      ensures LessThan(v.held[j].first, at) <==> Pos(v.held[j], v.nxt, r) < q
      ensures v.held[j].first == at <==> Pos(v.held[j], v.nxt, r) == q
      ensures LessThan(v.held[j].first, Wrap(at + n)) <==> Pos(v.held[j], v.nxt, r) < q + n
    {
      PosFirst(v.held[j], v.nxt, base, r);
      PosAheadBound(v, S, base, r, j);
      OrderExact(base, Pos(v.held[j], v.nxt, r), q);
      OrderExact(base, Pos(v.held[j], v.nxt, r), q + n);
    }
  }

  lemma EndsByPosition(v: RxView, S: seq<byte>, base: int, r: nat, at: Value, n: nat, j: nat)
    requires Lockstep(v, S, base, r) && HasRoom(v, at, n) && j < |v.held|
    ensures var q := r + Sizeof(v.nxt, at);
            LessThan(at, Wrap(v.held[j].first + v.held[j].n)) <==> q < Pos(v.held[j], v.nxt, r) + v.held[j].n
  {
    hide Pos, Wrap, LessThan, Sorted;
    var q := r + Sizeof(v.nxt, at);
    AtPosition(v.nxt, at, base, r);
    EndPosition(v.held[j], v.nxt, base, r);
    PosAheadBound(v, S, base, r, j);
    OrderExact(base, q, Pos(v.held[j], v.nxt, r) + v.held[j].n);
  }

  /** Held segments are sorted, so the two neighbours decide for all. */
  lemma NeighboursDecide(v: RxView, S: seq<byte>, base: int, r: nat, q: int, n: nat, i: nat)
    requires Lockstep(v, S, base, r) && 0 < n && i <= |v.held|
    requires forall j :: 0 <= j < i ==> Pos(v.held[j], v.nxt, r) < q
    requires i < |v.held| ==> q <= Pos(v.held[i], v.nxt, r)
    ensures (forall j :: 0 <= j < |v.held| ==> Apart(v.held[j], v.nxt, r, q, n)) <==>
            && (i > 0 ==> Pos(v.held[i - 1], v.nxt, r) + v.held[i - 1].n <= q)
            && (i < |v.held| ==> q + n <= Pos(v.held[i], v.nxt, r))
    ensures (exists j :: 0 <= j < |v.held| && Pos(v.held[j], v.nxt, r) == q) <==>
            i < |v.held| && Pos(v.held[i], v.nxt, r) == q
    ensures i > 0 && i < |v.held| ==>
              Pos(v.held[i - 1], v.nxt, r) + v.held[i - 1].n <= Pos(v.held[i], v.nxt, r)
  {
    hide Pos, Wrap;
    SizesPositive(v, S, base, r);
    forall j | 0 <= j < |v.held|
      ensures j < i - 1 ==> Pos(v.held[j], v.nxt, r) + v.held[j].n <= Pos(v.held[i - 1], v.nxt, r)
      ensures i < j ==> Pos(v.held[i], v.nxt, r) + v.held[i].n <= Pos(v.held[j], v.nxt, r)
    {
      assert j < i - 1 ==> Before(v.held[j], v.held[i - 1], v.nxt, r);
      assert i < j ==> Before(v.held[i], v.held[j], v.nxt, r);
    }
    assert i > 0 && i < |v.held| ==> Before(v.held[i - 1], v.held[i], v.nxt, r);
    assert i > 0 ==> (Apart(v.held[i - 1], v.nxt, r, q, n) <==> Pos(v.held[i - 1], v.nxt, r) + v.held[i - 1].n <= q);
    assert i < |v.held| ==> (Apart(v.held[i], v.nxt, r, q, n) <==> q + n <= Pos(v.held[i], v.nxt, r));
  }

  /** The held segment that starts at rcv.NXT is delivered, whatever stale ones precede it. */
  lemma {:induction false} DeliverReaches(held: seq<Held>, nxt: Value, r: nat, ahead: seq<byte>, S: seq<byte>, i: nat)
    requires AllInStep(held, nxt, r, ahead, S) && Sorted(held, nxt, r) && r <= |S|
    requires i < |held| && Pos(held[i], nxt, r) == r
    ensures Deliver(held, nxt, |ahead|).0 >= held[i].n
    decreases |held|
  {
    hide Pos, InStep, Wrap;
    var h := held[0];
    assert InStep(h, nxt, r, ahead, S);
    HeadPosition(h, nxt, r, ahead, S);
    HeadOrder(h, nxt, r, ahead, S);
    if i > 0 {
      assert Before(h, held[i], nxt, r);
      TailInStep(held, nxt, r, ahead, S);
      DeliverReaches(held[1..], nxt, r, ahead, S, i - 1);
    }
  }

  lemma HeadOrder(h: Held, nxt: Value, r: nat, ahead: seq<byte>, S: seq<byte>)
    requires InStep(h, nxt, r, ahead, S)
    ensures h.first == nxt <==> Pos(h, nxt, r) == r
    ensures LessThan(h.first, nxt) <==> Pos(h, nxt, r) < r
    ensures 0 < h.n
  {
    PosOrder(h, nxt, r);
  }

  /** A payload held past a gap is readable, with all before it, as soon as the gap is filled. */
  lemma StoredIsDelivered(v: RxView, S: seq<byte>, base: int, r: nat, at: Value, payload: seq<byte>)
    requires Lockstep(v, S, base, r) && at != v.nxt && |payload| < MOD
    requires var q := r + Sizeof(v.nxt, at); q + |payload| <= |S| && payload == S[q..q + |payload|]
    requires Place(v.held, v.slots, |v.ahead|, v.nxt, at, |payload|).Insert?
    ensures var q, v1 := r + Sizeof(v.nxt, at), RxStore(v, at, payload);
            && q - r <= |v1.ahead|
            && var v2 := RxDeliver(RxWrite(v1, S[r..q]));
               var r' := r + |v2.contents| - |v.contents|;
               q + |payload| <= r' <= |S| && v2.contents == v.contents + S[r..r'] && Lockstep(v2, S, base, r')
  {
    hide Pos, Wrap, Before, InStep, Rank, AllInStep, Sorted;
    var g, q := Sizeof(v.nxt, at), r + Sizeof(v.nxt, at);
    var v1 := RxStore(v, at, payload);
    var i := Place(v.held, v.slots, |v.ahead|, v.nxt, at, |payload|).i;
    StoreKeeps(v, S, base, r, at, payload);
    InOrderKeeps(v1, S, base, r, S[r..q]);
    NewPosition(v.nxt, at, |payload|, r);
    AllAhead(v1.held, v1.nxt, r);
    AdvanceAll(v1.held, v1.nxt, r, v1.ahead, S, g);
    assert v1.held[i] == Held(at, |payload|);
    PosShift(v1.held[i], v1.nxt, r, g);
    var w := RxWrite(v1, S[r..q]);
    DeliverReaches(w.held, w.nxt, q, w.ahead, S, i);
  }
}
