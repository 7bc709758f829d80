/** `Handler` of udp/handler.go: two rings and the lengths of the datagrams in them, as queues of datagrams. */
module UdpHandlers {
  import opened Bytes
  import opened Rings

  const SIZE_HEADER := 8
  const MAX_DATAGRAM := 0xffff - SIZE_HEADER

  datatype UErr =
    | UOk | UClosed | UShortFrame | UMismatch | UBadLength | UTruncated | UExhausted | UShortBuffer | UPanic
    | URing(err: RingError)

  function Sum(lens: seq<nat>): nat {
    if lens == [] then 0 else lens[0] + Sum(lens[1..])
  }

  /** The bytes of a ring cut into datagrams. */
  function Datagrams(c: seq<byte>, lens: seq<nat>): (r: seq<seq<byte>>)
    requires Sum(lens) == |c|
    ensures |r| == |lens| && forall i :: 0 <= i < |r| ==> |r[i]| == lens[i]
  {
    if lens == [] then [] else [c[..lens[0]]] + Datagrams(c[lens[0]..], lens[1..])
  }

  lemma {:induction false} SumAppend(lens: seq<nat>, n: nat)
    ensures Sum(lens + [n]) == Sum(lens) + n
  {
    if lens == [] {
      assert [] + [n] == [n] && [n][1..] == [];
    } else {
      SumAppend(lens[1..], n);
      assert (lens + [n])[1..] == lens[1..] + [n];
    }
  }

  /** Bytes added with their length are a datagram added. */
  lemma {:induction false} DatagramsAppend(c: seq<byte>, lens: seq<nat>, b: seq<byte>)
    requires Sum(lens) == |c|
    ensures Sum(lens + [|b|]) == |c + b|
    ensures Datagrams(c + b, lens + [|b|]) == Datagrams(c, lens) + [b]
    decreases |lens|
  {
    hide Sum;
    SumAppend(lens, |b|);
    if lens == [] {
      SumNone();
      assert [] + [|b|] == [|b|] && c + b == b;
      OneDatagram(b);
    } else {
      var k := lens[0];
      FrontFits(lens);
      DatagramsAppend(c[k..], lens[1..], b);
      assert (lens + [|b|])[1..] == lens[1..] + [|b|] && (c + b)[k..] == c[k..] + b && (c + b)[..k] == c[..k];
    }
  }

  lemma SumNone()
    ensures Sum([]) == 0
  {
  }

  lemma OneDatagram(b: seq<byte>)
    ensures Sum([|b|]) == |b| && Datagrams(b, [|b|]) == [b]
  {
    assert [|b|][1..] == [] && b[..|b|] == b && b[|b|..] == [];
  }

  /** One length for each datagram in the ring. */
  ghost predicate Queued(c: seq<byte>, lens: seq<nat>, cap: nat) {
    Sum(lens) == |c| && |lens| <= cap
  }

  // The transmit side keeps lengths in 16 bits, whatever was written.

  function Flat(ds: seq<seq<byte>>): seq<byte> {
    if ds == [] then [] else ds[0] + Flat(ds[1..])
  }

  function Short(d: seq<byte>): u16 {
    |d| % 0x1_0000
  }

  function Shorts(ds: seq<seq<byte>>): (r: seq<nat>)
    ensures |r| == |ds| && forall i :: 0 <= i < |r| ==> r[i] == Short(ds[i])
  {
    if ds == [] then [] else [Short(ds[0])] + Shorts(ds[1..])
  }

  /** The ring and the lengths left by writing `ds`. */
  ghost predicate Holds(c: seq<byte>, lens: seq<nat>, ds: seq<seq<byte>>) {
    c == Flat(ds) && lens == Shorts(ds)
  }

  /** Lengths of 16 bits that the ring has bytes for. */
  ghost predicate Backed(c: seq<byte>, lens: seq<nat>, cap: nat) {
    Sum(lens) <= |c| && |lens| <= cap && forall i :: 0 <= i < |lens| ==> lens[i] < 0x1_0000
  }

  lemma {:induction false} HoldsAppend(c: seq<byte>, lens: seq<nat>, ds: seq<seq<byte>>, b: seq<byte>)
    requires Holds(c, lens, ds)
    ensures Holds(c + b, lens + [Short(b)], ds + [b])
    decreases |ds|
  {
    if ds == [] {
      assert [] + [b] == [b] && [b][1..] == [];
    } else {
      HoldsAppend(Flat(ds[1..]), Shorts(ds[1..]), ds[1..], b);
      assert (ds + [b])[1..] == ds[1..] + [b];
    }
  }

  lemma HoldsFront(c: seq<byte>, lens: seq<nat>, ds: seq<seq<byte>>)
    requires Holds(c, lens, ds) && ds != []
    ensures |ds[0]| <= |c| && c[..|ds[0]|] == ds[0] && Holds(c[|ds[0]|..], lens[1..], ds[1..])
            && lens[0] == Short(ds[0])
    ensures c[..lens[0]] == ds[0][..lens[0]]
  {
  }

  /** What sending the oldest datagram takes off the ring, or the panic of a frame length past 16 bits. */
  datatype Step = Panics | Emits(data: seq<byte>, rest: seq<byte>)

  function SendStep(c: seq<byte>, lens: seq<nat>): Step
    requires lens != []
  {
    if SIZE_HEADER + lens[0] >= 0x1_0000 || lens[0] > |c| then Panics else Emits(c[..lens[0]], c[lens[0]..])
  }

  /** Every datagram sent until the queue is empty or a send panics. */
  function Drain(c: seq<byte>, lens: seq<nat>): (r: (seq<seq<byte>>, bool))
    ensures |r.0| <= |lens| && (r.1 ==> |r.0| < |lens|)
    ensures forall i :: 0 <= i < |r.0| ==> |r.0[i]| == lens[i] <= MAX_DATAGRAM
    decreases |lens|
  {
    if lens == [] then ([], false)
    else
      match SendStep(c, lens)
      case Panics => ([], true)
      case Emits(data, rest) => var (ds, panicked) := Drain(rest, lens[1..]); ([data] + ds, panicked)
  }

  /** What was written is what is sent, in order and without a panic, if and only if every datagram fits a frame. */
  lemma {:induction false} DrainExactly(c: seq<byte>, lens: seq<nat>, ds: seq<seq<byte>>)
    requires Holds(c, lens, ds)
    ensures Drain(c, lens) == (ds, false) <==> forall i :: 0 <= i < |ds| ==> |ds[i]| <= MAX_DATAGRAM
  {
    if forall i :: 0 <= i < |ds| ==> |ds[i]| <= MAX_DATAGRAM {
      DrainWhole(c, lens, ds);
    }
  }

  lemma {:induction false} DrainWhole(c: seq<byte>, lens: seq<nat>, ds: seq<seq<byte>>)
    requires Holds(c, lens, ds) && forall i :: 0 <= i < |ds| ==> |ds[i]| <= MAX_DATAGRAM
    ensures Drain(c, lens) == (ds, false)
    decreases |ds|
  {
    if ds != [] {
      HoldsFront(c, lens, ds);
      DrainWhole(c[|ds[0]|..], lens[1..], ds[1..]);
      assert [ds[0]] + ds[1..] == ds;
    }
  }

  /** One byte too many, and the send panics; 2^16 bytes more, and it hands out a shortened datagram. */
  lemma OversizedSends(d: seq<byte>)
    ensures |d| == MAX_DATAGRAM + 1 ==> Drain(d, Shorts([d])) == ([], true)
    ensures |d| == 0x1_0000 + 5 ==> Drain(d, Shorts([d])) == ([d[..5]], false)
  {
    assert Shorts([d]) == [Short(d)];
    assert [Short(d)][1..] == [];
    if |d| == 0x1_0000 + 5 {
      assert SendStep(d, [5]) == Emits(d[..5], d[5..]);
      assert [d[..5]] + [] == [d[..5]];
    }
  }

  /** A datagram that is sent comes out as it was written exactly when it fits a frame, and so does the queue. */
  lemma SentExactly(c: seq<byte>, lens: seq<nat>, ds: seq<seq<byte>>)
    requires Holds(c, lens, ds) && ds != []
    ensures var r := SendStep(c, lens);
            && (r.Emits? && r.data == ds[0] <==> |ds[0]| <= MAX_DATAGRAM)
            && (|ds[0]| <= MAX_DATAGRAM ==> Holds(r.rest, lens[1..], ds[1..]))
            && (r.Emits? ==> r.data == ds[0][..Short(ds[0])])
  {
    hide Flat, Shorts;
    HoldsFront(c, lens, ds);
  }

  lemma OneFrame(f: seq<byte>, src: u16, dst: u16, x: seq<byte>, y: seq<byte>)
    requires IsFrame(f, src, dst, x)
    ensures IsFrame(f, src, dst, y) <==> x == y
  {
  }

  lemma FrontFits(lens: seq<nat>)
    requires lens != []
    ensures lens[0] <= Sum(lens) && Sum(lens[1..]) == Sum(lens) - lens[0]
  {
  }

  /** A frame as `Recv` takes it: what is wrong with it, or its payload. */
  function FrameError(f: seq<byte>, dst: u16, src: u16): UErr {
    if |f| < SIZE_HEADER then UShortFrame
    else if Get16(f, 2) != dst || Get16(f, 0) != src then UMismatch
    else if Get16(f, 4) < SIZE_HEADER then UBadLength
    else if Get16(f, 4) > |f| then UTruncated
    else UOk
  }

  class Handler {
    const rxRing: Ring
    const txRing: Ring
    var rxLens: seq<nat>
    const rxCap: nat
    var txLens: seq<nat>
    const txCap: nat
    ghost var written: seq<seq<byte>>   // datagrams accepted and not yet taken off by a send
    var closeCalled: bool
    var lport: u16
    var rport: u16

    ghost predicate Valid()
      reads this, rxRing, txRing, rxRing.buf, txRing.buf
    {
      && rxRing.Valid() && txRing.Valid() && rxRing != txRing && rxRing.buf != txRing.buf
      && Queued(rxRing.Contents(), rxLens, rxCap) && Backed(txRing.Contents(), txLens, txCap)
    }

    /** Datagrams received and not yet read. */
    ghost function Rx(): seq<seq<byte>>
      requires Valid()
      reads this, rxRing, txRing, rxRing.buf, txRing.buf
    {
      Datagrams(rxRing.Contents(), rxLens)
    }

    /** The transmit ring holds what was written and not yet sent. */
    ghost predicate Whole()
      requires Valid()
      reads this, rxRing, txRing, rxRing.buf, txRing.buf
    {
      Holds(txRing.Contents(), txLens, written)
    }

    constructor (rxbuf: array<byte>, txbuf: array<byte>, rxQueue: nat, txQueue: nat, lport: u16, rport: u16)
      requires rxbuf != txbuf
      ensures Valid() && fresh(rxRing) && fresh(txRing) && rxRing.buf == rxbuf && txRing.buf == txbuf
      ensures Rx() == [] && written == [] && Whole() && rxCap == rxQueue && txCap == txQueue && !closeCalled
    {
      rxRing := new Ring(rxbuf, 0, 0);
      txRing := new Ring(txbuf, 0, 0);
      rxLens, txLens, rxCap, txCap, closeCalled, written := [], [], rxQueue, txQueue, false, [];
      this.lport, this.rport := lport, rport;
    }

    /** Queues a frame's payload whole, or not at all. */
    method Recv(f: seq<byte>) returns (err: UErr)
      requires Valid()
      modifies this`rxLens, rxRing`end, rxRing.buf
      ensures Valid() && (old(Whole()) ==> Whole())
      ensures err == UOk ==> FrameError(f, lport, rport) == UOk && Rx() == old(Rx()) + [f[SIZE_HEADER..Get16(f, 4)]]
      ensures err != UOk ==> Rx() == old(Rx())
      ensures err == UOk <==>
              && !closeCalled && FrameError(f, lport, rport) == UOk && |old(rxLens)| < rxCap
              && SIZE_HEADER < Get16(f, 4) <= SIZE_HEADER + old(rxRing.Free())
    {
      hide Datagrams, Get16, Sum, Used, Turn;
      if closeCalled {
        return UClosed;
      }
      err := FrameError(f, lport, rport);
      if err != UOk {
        return;
      }
      if rxCap == |rxLens| {
        return UExhausted;
      }
      var payload := f[SIZE_HEADER..Get16(f, 4)];
      ghost var c := rxRing.Contents();
      var n, e := rxRing.Write(payload);
      if e != Ok {
        return URing(e);
      }
      DatagramsAppend(c, rxLens, payload);
      rxLens := rxLens + [|payload|];
    }

    /** The oldest datagram, as much of it as is wanted; the rest of it is dropped. */
    method ReadNext(want: nat) returns (data: seq<byte>, err: UErr)
      requires Valid()
      modifies this`rxLens, rxRing`off, rxRing`end
      ensures Valid() && (old(Whole()) ==> Whole()) && err == UOk
      ensures old(Rx()) == [] ==> data == [] && Rx() == []
      ensures old(Rx()) != [] ==> data == old(Rx())[0][..Min(want, |old(Rx())[0]|)] && Rx() == old(Rx())[1..]
    {
      hide Get16, Ring.Contents, Ring.Ahead, Used, Turn;
      err := UOk;
      if |rxLens| == 0 {
        return [], err;
      }
      FrontFits(rxLens);
      ghost var c := rxRing.Contents();
      var length := rxLens[0];
      rxLens := rxLens[1..];
      var e;
      data, e := rxRing.Read(Min(want, length));
      assert e == Ok;
      if length > want {
        e := rxRing.ReadDiscard(length - want);
        assert e == Ok;
        assert c[want..][length - want..] == c[length..];
      }
      assert rxRing.Contents() == c[length..];
    }

    /** Queues a datagram of any size the ring has room for. Its length is kept in 16 bits. */
    method Write(b: seq<byte>) returns (n: nat, err: UErr)
      requires Valid()
      modifies this`txLens, this`written, txRing`end, txRing.buf
      ensures Valid() && Rx() == old(Rx()) && (old(Whole()) ==> Whole())
      ensures err == UOk <==> |old(txLens)| < txCap && 0 < |b| <= old(txRing.Free())
      ensures n == if err == UOk then |b| else 0
      ensures written == if err == UOk then old(written) + [b] else old(written)
    {
      hide Datagrams, Get16, Used, Turn, Sum, Flat, Shorts;
      if txCap == |txLens| {
        return 0, UExhausted;
      }
      ghost var c := txRing.Contents();
      var k, e := txRing.Write(b);
      if e != Ok {
        return 0, URing(e);
      }
      SumAppend(txLens, Short(b));
      if Holds(c, txLens, written) {
        HoldsAppend(c, txLens, written, b);
      }
      txLens := txLens + [Short(b)];
      written := written + [b];
      return |b|, UOk;
    }

    /**
      Takes the oldest datagram off the queue and writes it into `buf` behind its header, `n` bytes in all. It
      comes out as it was written if and only if it fits a frame.
    */
    method Send(buf: array<byte>) returns (n: nat, err: UErr)
      requires Valid() && buf != rxRing.buf && buf != txRing.buf
      modifies this`txLens, this`written, txRing`off, txRing`end, buf
      ensures Valid() && Rx() == old(Rx())
      ensures err == (if closeCalled then UClosed else if old(txLens) == [] then UOk
                      else if buf.Length < SIZE_HEADER then UShortFrame
                      else if buf.Length - SIZE_HEADER < old(txLens)[0] then UShortBuffer
                      else if SendStep(old(txRing.Contents()), old(txLens)).Panics? then UPanic else UOk)
      ensures err == UPanic || (err == UOk && old(txLens) != []) ==> txLens == old(txLens)[1..]
      ensures !(err == UPanic || (err == UOk && old(txLens) != [])) ==> n == 0 && unchanged(this) && unchanged(txRing)
      ensures err == UOk && old(txLens) != [] ==>
                var r := SendStep(old(txRing.Contents()), old(txLens));
                && r.Emits? && n == SIZE_HEADER + |r.data| <= buf.Length
                && IsFrame(buf[..n], lport, rport, r.data) && txRing.Contents() == r.rest
      ensures old(Whole()) && old(written) != [] && !closeCalled
              && buf.Length >= SIZE_HEADER + Short(old(written)[0]) ==>
                var d := old(written)[0];
                && written == old(written)[1..]
                && (err == UOk && Whole() && n <= buf.Length && IsFrame(buf[..n], lport, rport, d) <==>
                   |d| <= MAX_DATAGRAM)
    {
      hide Get16, Used, Turn, Sum, Datagrams, IsFrame, Flat, Shorts, SendStep;
      if closeCalled {
        return 0, UClosed;
      } else if |txLens| == 0 {
        return 0, UOk;
      }
      if buf.Length < SIZE_HEADER {
        return 0, UShortFrame;
      }
      if buf.Length - SIZE_HEADER < txLens[0] {
        return 0, UShortBuffer;
      }
      ghost var c, lens, ds := txRing.Contents(), txLens, written;
      var data;
      data, err := TakeTx();
      if Holds(c, lens, ds) {
        SentExactly(c, lens, ds);
      }
      if err != UOk {
        return 0, err;
      }
      n := SIZE_HEADER + |data|;
      PutFrame(buf, lport, rport, data);
      if ds != [] {
        OneFrame(buf[..n], lport, rport, data, ds[0]);
      }
    }

    /** The oldest datagram off the transmit ring, or the panic of slicing the frame. */
    method TakeTx() returns (data: seq<byte>, err: UErr)
      requires Valid() && txLens != []
      modifies this`txLens, this`written, txRing`off, txRing`end
      ensures Valid() && Rx() == old(Rx()) && txLens == old(txLens)[1..]
      ensures written == if old(written) == [] then [] else old(written)[1..]
      ensures err == if SendStep(old(txRing.Contents()), old(txLens)).Panics? then UPanic else UOk
      ensures err == UOk ==>
              |data| == old(txLens)[0] <= MAX_DATAGRAM
              && Emits(data, txRing.Contents()) == SendStep(old(txRing.Contents()), old(txLens))
    {
      hide Get16, Ring.Contents, Ring.Ahead, Used, Turn;
      FrontFits(txLens);
      ghost var c := txRing.Contents();
      var length := txLens[0];
      txLens := txLens[1..];
      if written != [] {
        written := written[1..];
      }
      if (SIZE_HEADER + length) % 0x1_0000 < SIZE_HEADER {
        return [], UPanic;
      }
      var e;
      data, e := txRing.Read(length);
      assert e == Ok && txRing.Contents() == c[length..];
      err := UOk;
    }
  }

  /** `f` is a UDP frame carrying `data`, whatever its checksum field. */
  ghost predicate IsFrame(f: seq<byte>, src: u16, dst: u16, data: seq<byte>) {
    && |f| == SIZE_HEADER + |data| && Get16(f, 0) == src && Get16(f, 2) == dst && Get16(f, 4) == |f|
    && f[SIZE_HEADER..] == data
  }

  method PutFrame(buf: array<byte>, src: u16, dst: u16, data: seq<byte>)
    requires SIZE_HEADER + |data| <= buf.Length && |data| <= MAX_DATAGRAM
    modifies buf
    ensures IsFrame(buf[..SIZE_HEADER + |data|], src, dst, data)
  {
    for i := 0 to |data|
      invariant buf[SIZE_HEADER..SIZE_HEADER + i] == data[..i]
    {
      buf[SIZE_HEADER + i] := data[i];
    }
    var length := SIZE_HEADER + |data|;
    buf[0], buf[1], buf[2], buf[3] := src / 256, src % 256, dst / 256, dst % 256;
    buf[4], buf[5] := length / 256, length % 256;
    assert buf[..length][SIZE_HEADER..] == buf[SIZE_HEADER..length] == data;
  }

  /** A frame that was sent is taken by the handler on the other end of the ports. */
  lemma FrameArrives(f: seq<byte>, src: u16, dst: u16, data: seq<byte>)
    requires IsFrame(f, src, dst, data)
    ensures FrameError(f, dst, src) == UOk && f[SIZE_HEADER..Get16(f, 4)] == data
  {
    hide Get16;
  }

  /** One datagram from `a` to `b`: what of it fits a frame, in order, queued as it was sent or not at all. */
  method Relay(a: Handler, b: Handler, buf: array<byte>) returns (sent: bool, taken: bool)
    requires a.Valid() && a.Whole() && b.Valid() && a != b && a.lport == b.rport && a.rport == b.lport
    requires {a.rxRing, a.txRing} !! {b.rxRing, b.txRing}
    requires {a.rxRing.buf, a.txRing.buf} !! {b.rxRing.buf, b.txRing.buf}
    requires buf !in {a.rxRing.buf, a.txRing.buf, b.rxRing.buf, b.txRing.buf}
    modifies a`txLens, a`written, a.txRing`off, a.txRing`end, b`rxLens, b.rxRing`end, b.rxRing.buf, buf
    ensures a.Valid() && b.Valid() && (taken ==> sent) && (sent ==> old(a.written) != [])
    ensures b.Rx() == if taken then old(b.Rx()) + [old(a.written)[0][..Short(old(a.written)[0])]] else old(b.Rx())
    ensures old(a.written) != [] && |old(a.written)[0]| <= MAX_DATAGRAM ==>
              a.Whole() && a.written == if sent then old(a.written)[1..] else old(a.written)
  {
    hide Get16, Used, Turn, Sum, Datagrams, IsFrame, Queued, Ring.Contents, FrameError, Flat, Shorts, SendStep;
    sent, taken := false, false;
    ghost var c, lens, ds := a.txRing.Contents(), a.txLens, a.written;
    var n, err := a.Send(buf);
    if err != UOk || n == 0 {
      return;
    }
    sent := true;
    SentExactly(c, lens, ds);
    FrameArrives(buf[..n], a.lport, a.rport, SendStep(c, lens).data);
    err := b.Recv(buf[..n]);
    taken := err == UOk;
  }
}
