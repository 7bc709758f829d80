/**
  Out-of-order reassembly, tcp/reassembly.go. Held payloads lie in the free region of the receive
  ring; only their sequence numbers and lengths are kept.
*/
module Reassembling {
  import opened Bytes
  import opened SeqNum
  import opened Rings

  const MAX_REASM_SEGMENTS: nat := 8

  datatype Held = Held(first: Value, n: nat)

  /** Number of leading segments before `at`: where a segment starting there belongs. */
  function Rank(held: seq<Held>, at: Value): (i: nat)
    ensures i <= |held|
    ensures forall j :: 0 <= j < i ==> LessThan(held[j].first, at)
    ensures i < |held| ==> !LessThan(held[i].first, at)
  {
    if held == [] || !LessThan(held[0].first, at) then 0 else 1 + Rank(held[1..], at)
  }

  datatype Placement = Refused | Already | Insert(i: nat)

  /** What becomes of a payload of `n` bytes at `at`, with `free` bytes of ring left past `nxt`. */
  function Place(held: seq<Held>, slots: nat, free: nat, nxt: Value, at: Value, n: nat): (p: Placement)
    requires n < MOD
    ensures p.Insert? ==> p.i <= |held| && n > 0 && Sizeof(nxt, at) + n <= free && |held| < slots
  {
    if slots == 0 || n == 0 || |held| >= slots || Sizeof(nxt, at) + n > free then Refused
    else
      var i := Rank(held, at);
      if i > 0 && LessThan(at, Wrap(held[i - 1].first + held[i - 1].n)) then Refused
      else if i < |held| && held[i].first == at then Already
      else if i < |held| && LessThan(held[i].first, Wrap(at + n)) then Refused
      else Insert(i)
  }

  /** Bytes that become deliverable at `nxt`, and the segments still held, when `free` bytes are left. */
  function Deliver(held: seq<Held>, nxt: Value, free: nat): (r: (nat, seq<Held>))
    ensures r.0 <= free && |r.1| <= |held|
  {
    if held == [] then (0, [])
    else if held[0].first == nxt then
      if held[0].n == 0 || held[0].n > free then (0, held)
      else
        var r := Deliver(held[1..], Wrap(nxt + held[0].n), free - held[0].n);
        (held[0].n + r.0, r.1)
    else if LessThan(held[0].first, nxt) then Deliver(held[1..], nxt, free)
    else (0, held)
  }

  function HeldBytes(held: seq<Held>): nat {
    if held == [] then 0 else held[0].n + HeldBytes(held[1..])
  }

  /** Delivery from segment `i` on, one segment at a time. */
  lemma DeliverStep(held: seq<Held>, i: nat, nxt: Value, free: nat)
    requires i < |held|
    ensures var seg, rest := held[i], Deliver(held[i..], nxt, free);
            if seg.first == nxt then
              if seg.n == 0 || seg.n > free then rest == (0, held[i..])
              else
                var r := Deliver(held[i + 1..], Wrap(nxt + seg.n), free - seg.n);
                rest == (seg.n + r.0, r.1)
            else if LessThan(seg.first, nxt) then rest == Deliver(held[i + 1..], nxt, free)
            else rest == (0, held[i..])
  {
    assert held[i..][1..] == held[i + 1..];
  }

  lemma DeliverEnds(held: seq<Held>, nxt: Value, free: nat)
    ensures held[0..] == held
    ensures Deliver(held[|held|..], nxt, free) == (0, [])
  {
  }

  class Reassembly {
    var held: seq<Held>
    var slots: nat      // capacity of held, 0 when disabled

    constructor (maxSegs: nat)
      ensures held == [] && slots == maxSegs
    {
      held, slots := [], maxSegs;
    }

    method Clear()
      modifies this`held
      ensures held == []
    {
      held := [];
    }

    method BufferedBytes() returns (n: nat)
      ensures n == HeldBytes(held)
    {
      n := 0;
      var i := 0;
      while i < |held|
        invariant i <= |held| && n + HeldBytes(held[i..]) == HeldBytes(held)
      {
        n := n + held[i].n;
        i := i + 1;
      }
    }

    method Store(rx: Ring, nxt: Value, at: Value, payload: seq<byte>) returns (ok: bool)
      requires rx.Valid() && |payload| < MOD
      modifies this`held, rx.buf
      ensures rx.Valid() && rx.Contents() == old(rx.Contents())
      ensures var p := Place(old(held), slots, |old(rx.Ahead())|, nxt, at, |payload|);
              && (ok <==> !p.Refused?)
              && held == (if p.Insert? then old(held)[..p.i] + [Held(at, |payload|)] + old(held)[p.i..] else old(held))
              && rx.Ahead() ==
                 (if p.Insert? then Splice(old(rx.Ahead()), Sizeof(nxt, at), payload) else old(rx.Ahead()))
    {
      hide Used, Turn, LessThan, Wrap;
      if slots == 0 || payload == [] || |held| >= slots {
        return false;
      }
      var gap := Sizeof(nxt, at);
      if gap + |payload| > rx.Free() {
        return false;
      }
      var end := Wrap(at + |payload|);
      var i := FindRank(at);
      if i > 0 && LessThan(at, Wrap(held[i - 1].first + held[i - 1].n)) {
        return false;
      }
      if i < |held| {
        if held[i].first == at {
          return true;
        } else if LessThan(held[i].first, end) {
          return false;
        }
      }
      var staged := rx.PeekWrite(payload, gap);
      if !staged {
        return false;
      }
      held := held[..i] + [Held(at, |payload|)] + held[i..];
      return true;
    }

    method FindRank(at: Value) returns (i: nat)
      ensures i == Rank(held, at)
    {
      i := 0;
      while i < |held| && LessThan(held[i].first, at)
        invariant i <= |held|
        invariant forall j :: 0 <= j < i ==> LessThan(held[j].first, at)
      {
        i := i + 1;
      }
    }

    method Reassemble(rx: Ring, nxt: Value) returns (delivered: nat)
      requires rx.Valid()
      modifies this`held, rx`end
      ensures rx.Valid()
      ensures (delivered, held) == Deliver(old(held), nxt, |old(rx.Ahead())|)
      ensures rx.Contents() == old(rx.Contents()) + old(rx.Ahead())[..delivered]
      ensures rx.Ahead() == old(rx.Ahead())[delivered..]
    {
      hide Used, Turn, LessThan, Wrap, EndAfter, Deliver, Ring.Contents, Ring.Ahead;
      ghost var free := |rx.Ahead()|;
      rx.Halves(|rx.Contents()|, 0);
      DeliverEnds(held, nxt, free);
      var cur: Value := nxt;
      delivered := 0;
      var i := 0;
      while i < |held|
        invariant i <= |held| && held == old(held) && rx.Valid()
        invariant delivered <= free
        invariant |rx.Contents()| == |old(rx.Contents())| + delivered
        invariant |rx.Ahead()| == free - delivered
        invariant Deliver(held, nxt, free).0 == delivered + Deliver(held[i..], cur, free - delivered).0
        invariant Deliver(held, nxt, free).1 == Deliver(held[i..], cur, free - delivered).1
      {
        var seg := held[i];
        DeliverStep(held, i, cur, free - delivered);
        if seg.first == cur {
          var err := rx.Commit(seg.n);
          if err != Ok {
            break;
          }
          cur := Wrap(cur + seg.n);
          delivered := delivered + seg.n;
          i := i + 1;
        } else if LessThan(seg.first, cur) {
          i := i + 1;
        } else {
          break;
        }
      }
      DeliverEnds(held, cur, free - delivered);
      rx.Halves(|old(rx.Contents())|, delivered);
      held := held[i..];
    }
  }
}
