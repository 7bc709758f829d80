/**
  The byte ring of internal/ring.go.

  `end == 0` marks the empty ring and `off == end != 0` the full one. Read from `off` on, the
  buffer is one turn of `size` bytes, of which the first part is readable (`Contents`) and the
  rest is free (`Ahead`). Every operation is a bounded-queue operation on that pair.
*/
module Rings {
  import opened Bytes

  datatype RingError =
    | Ok
    | NoData          // empty write
    | BufferFull
    | ShortBuffer     // write longer than the whole buffer
    | InvalidCommit
    | InvalidDiscard
    | DiscardExceeds
    | UnexpectedEOF
    | EOF

  /** Number of readable bytes of a ring of `size` bytes. */
  function Used(size: nat, off: nat, end: nat): (n: nat)
    requires off <= size && end <= size
    ensures n <= size
    ensures n == 0 <==> end == 0
  {
    if end == 0 then 0 else if off < end then end - off else size - off + end
  }

  /** Where appending `n` bytes leaves the end. */
  function EndAfter(size: nat, off: nat, end: nat, n: nat): nat
    requires off <= size && end <= size && n <= size
  {
    var e := if end == 0 then off else end;
    if e + n > size then e + n - size else e + n
  }

  lemma UsedGrows(size: nat, off: nat, end: nat, n: nat)
    requires off <= size && end <= size && 0 < n <= size - Used(size, off, end)
    ensures 0 < EndAfter(size, off, end, n) <= size
    ensures Used(size, off, EndAfter(size, off, end, n)) == Used(size, off, end) + n
  {
  }

  /** The buffer as one turn starting at `off`. */
  function Turn(b: seq<byte>, off: nat): (r: seq<byte>)
    requires off <= |b|
    ensures |r| == |b|
  {
    b[off..] + b[..off]
  }

  /** Buffer index of the `k`-th byte of the turn that starts at `off`. */
  function Slot(size: nat, off: nat, k: nat): (i: nat)
    requires off <= size && k < size
    ensures i < size
  {
    if off + k < size then off + k else off + k - size
  }

  /** An index less than two turns in, brought back to the first. */
  function Round(size: nat, p: nat): nat
  {
    if p >= size then p - size else p
  }

  /** The buffer index a position at most two turns in stands for. */
  function Canon(size: nat, p: nat): nat {
    if p >= 2 * size then p - 2 * size else if p >= size then p - size else p
  }

  /** `b'` is `b` with `d` copied in from index `pos`, going round the end once. */
  ghost predicate CopiedIn(b: seq<byte>, b': seq<byte>, pos: nat, d: seq<byte>)
    requires pos <= |b| && |d| <= |b|
  {
    && |b'| == |b|
    && forall i :: 0 <= i < |b| ==>
         b'[i] == if pos <= i < pos + |d| then d[i - pos]
                  else if i < pos + |d| - |b| then d[|b| - pos + i]
                  else b[i]
  }

  /** Copying in at the slot of turn position `at` splices the turn at `at`. */
  lemma CopySplicesTurn(b: seq<byte>, b': seq<byte>, off: nat, at: nat, pos: nat, d: seq<byte>)
    requires off <= |b| && at + |d| <= |b| && pos <= |b| && d != []
    requires Canon(|b|, pos) == Canon(|b|, off + at)
    requires CopiedIn(b, b', pos, d)
    ensures Turn(b', off) == Splice(Turn(b, off), at, d)
  {
  }

  /** Moving the start of the turn by `n` rotates it. */
  lemma TurnRotates(b: seq<byte>, off: nat, n: nat, off': nat)
    requires off <= |b| && off' <= |b| && n <= |b|
    requires Canon(|b|, off') == Canon(|b|, off + n)
    ensures Turn(b, off') == Turn(b, off)[n..] + Turn(b, off)[..n]
  {
  }

  lemma TurnStraight(b: seq<byte>, off: nat, n: nat)
    requires off + n <= |b|
    ensures b[off..off + n] == Turn(b, off)[..n]
  {
  }

  lemma TurnAround(b: seq<byte>, off: nat, n: nat)
    requires n <= off <= |b|
    ensures b[off..] + b[..n] == Turn(b, off)[..|b| - off + n]
  {
  }

  /** Rotating past `n` of the first `u` bytes moves them behind the rest. */
  lemma RotationSplits(t: seq<byte>, t': seq<byte>, u: nat, n: nat)
    requires n <= u <= |t| && t' == t[n..] + t[..n]
    ensures t'[..u - n] == t[..u][n..]
    ensures t'[u - n..] == t[u..] + t[..u][..n]
  {
  }

  lemma SliceSplits(t: seq<byte>, u: nat, n: nat)
    requires u + n <= |t|
    ensures t[..u + n] == t[..u] + t[u..][..n] && t[u + n..] == t[u..][n..]
  {
  }

  /** Splicing past the first `u` bytes splices the rest. */
  lemma SpliceSplits(t: seq<byte>, t': seq<byte>, u: nat, gap: nat, d: seq<byte>)
    requires u + gap + |d| <= |t| && t' == Splice(t, u + gap, d)
    ensures t'[..u] == t[..u]
    ensures t'[u..] == Splice(t[u..], gap, d)
  {
  }

  /** Room from the write position of a ring that is not full up to `limit`, or to `off` if that comes first. */
  function RoomUpTo(size: nat, off: nat, end: nat, limit: nat): (n: nat)
    requires off <= size && end <= size && limit <= size
  {
    if end == 0 then
      if limit >= off then limit - off else size - off + limit
    else if end <= limit && end <= off then Min(off, limit) - end
    else if end <= limit then limit - end
    else if end <= off then off - end
    else size - end + Min(limit, off)
  }

  class Ring {
    var buf: array<byte>
    var off: nat
    var end: nat

    ghost predicate Valid()
      reads this
    {
      off <= buf.Length && end <= buf.Length
    }

    /** The readable bytes, oldest first. */
    ghost function Contents(): seq<byte>
      requires Valid()
      reads this, buf
    {
      Turn(buf[..], off)[..Used(buf.Length, off, end)]
    }

    /** The free bytes, from the next write position on. */
    ghost function Ahead(): seq<byte>
      requires Valid()
      reads this, buf
    {
      Turn(buf[..], off)[Used(buf.Length, off, end)..]
    }

    /** Buffer index of the next byte written, `size` and 0 being the same place. */
    ghost function WritePos(): nat
      requires Valid()
      reads this
    {
      var p := if end == 0 then off else end;
      if p == buf.Length then 0 else p
    }

    constructor (buf: array<byte>, off: nat, end: nat)
      requires off <= buf.Length && end <= buf.Length
      ensures Valid() && this.buf == buf && this.off == off && this.end == end
    {
      this.buf, this.off, this.end := buf, off, end;
    }

    function Size(): nat
      reads this
    {
      buf.Length
    }

    function Free(): (n: nat)
      requires Valid()
      reads this, buf
      ensures n == |Ahead()|
      ensures n == buf.Length - |Contents()|
    {
      if end == 0 || off == 0 then buf.Length - end
      else if off < end then off + (buf.Length - end)
      else off - end
    }

    function Buffered(): (n: nat)
      requires Valid()
      reads this, buf
      ensures n == |Contents()|
    {
      Size() - Free()
    }

    predicate IsFull()
      requires Valid()
      reads this, buf
      ensures IsFull() ==> Ahead() == []
      ensures Ahead() == [] && buf.Length > 0 ==> IsFull()
    {
      end != 0 && (end == off || (end == buf.Length && off == 0))
    }

    predicate IsEmpty()
      requires Valid()
      reads this, buf
      ensures IsEmpty() <==> Contents() == []
    {
      end == 0
    }

    function MidFree(): nat
      reads this
    {
      if end >= off || end == 0 then 0 else off - end
    }

    /** Index at which the next write or commit begins. */
    function WriteStart(): (p: nat)
      requires Valid()
      reads this, buf
      ensures p <= buf.Length
      ensures WritePos() == if p == buf.Length then 0 else p
      ensures !IsFull() && p < buf.Length ==> p == Slot(buf.Length, off, |Contents()|)
    {
      if end == 0 then off else if end == buf.Length then 0 else end
    }

    /** Sum of two indices, kept within 1..size. */
    function AddOff(a: nat, b: nat): (r: nat)
      requires a <= buf.Length && b <= buf.Length
      reads this
      ensures r <= buf.Length
      ensures r == 0 <==> a == 0 && b == 0
    {
      if a + b > buf.Length then a + b - buf.Length else a + b
    }

    /** Bytes that can be written before reaching index `limit`. */
    function FreeLimited(limit: nat): (n: nat)
      requires Valid() && limit <= buf.Length
      reads this, buf
    {
      if IsFull() then 0 else RoomUpTo(buf.Length, off, end, limit)
    }

    /** The pair of copies every write makes: up to the end of the buffer, then from its start. */
    method CopyIn(pos: nat, d: seq<byte>)
      requires pos <= buf.Length && |d| <= buf.Length
      modifies buf
      ensures CopiedIn(old(buf[..]), buf[..], pos, d)
    {
      var n := if |d| <= buf.Length - pos then |d| else buf.Length - pos;
      forall k | 0 <= k < n {
        buf[pos + k] := d[k];
      }
      if n < |d| {
        forall k | 0 <= k < |d| - n {
          buf[k] := d[n + k];
        }
      }
    }

    method Write(b: seq<byte>) returns (n: nat, err: RingError)
      requires Valid()
      modifies this`end, buf
      ensures Valid()
      ensures err == if b == [] then NoData else if |old(Ahead())| < |b| then BufferFull else Ok
      ensures n == if err == Ok then |b| else 0
      ensures err == Ok ==> Contents() == old(Contents()) + b && Ahead() == old(Ahead())[|b|..] && end > 0
      ensures err == Ok ==> end == EndAfter(buf.Length, off, old(end), |b|)
      ensures err != Ok ==> end == old(end) && buf[..] == old(buf[..])
    {
      if |b| == 0 {
        return 0, NoData;
      } else if IsFull() || Free() < |b| {
        return 0, BufferFull;
      }
      var mid := MidFree();
      if mid > 0 {
        CopyIn(end, b);
        end := end + |b|;
        Appended(old(buf[..]), old(end), b);
        return |b|, Ok;
      } else if end == 0 {
        end := off;
      }
      CopyIn(end, b);
      end := end + |b|;
      if end > buf.Length {
        end := end - buf.Length;
      }
      Appended(old(buf[..]), old(end), b);
      return |b|, Ok;
    }

    /** `d` was copied in at the write position of a ring over `b` that ended at `was`. */
    lemma Appended(b: seq<byte>, was: nat, d: seq<byte>)
      requires Valid() && |b| == buf.Length && was <= |b| && 0 < |d| <= |b| - Used(|b|, off, was)
      requires CopiedIn(b, buf[..], if was == 0 then off else was, d) && end == EndAfter(|b|, off, was, |d|)
      ensures Contents() == Turn(b, off)[..Used(|b|, off, was)] + d
      ensures Ahead() == Turn(b, off)[Used(|b|, off, was)..][|d|..]
      ensures end > 0
    {
      UsedGrows(|b|, off, was, |d|);
      CopySplicesTurn(b, buf[..], off, Used(|b|, off, was), if was == 0 then off else was, d);
    }

    method WriteLimited(b: seq<byte>, limit: nat) returns (n: nat, err: RingError)
      requires Valid() && limit <= buf.Length
      modifies this`end, buf
      ensures Valid()
      ensures err == if |b| > buf.Length then ShortBuffer
                     else if |b| > old(FreeLimited(limit)) then BufferFull
                     else if b == [] then NoData
                     else if |old(Ahead())| < |b| then BufferFull
                     else Ok
      ensures n == if err == Ok then |b| else 0
      ensures err == Ok ==> Contents() == old(Contents()) + b && Ahead() == old(Ahead())[|b|..] && end > 0
      ensures err == Ok ==> end == EndAfter(buf.Length, off, old(end), |b|)
      ensures err != Ok ==> end == old(end) && buf[..] == old(buf[..])
    {
      if |b| > buf.Length {
        return 0, ShortBuffer;
      }
      if |b| > FreeLimited(limit) {
        return 0, BufferFull;
      }
      n, err := Write(b);
    }

    /** Stages `b` in the free region, `gap` bytes past the write position. */
    method PeekWrite(b: seq<byte>, gap: int) returns (ok: bool)
      requires Valid()
      modifies buf
      ensures Valid() && Contents() == old(Contents())
      ensures ok <==> 0 <= gap && gap + |b| <= |old(Ahead())|
      ensures Ahead() == if ok then Splice(old(Ahead()), gap, b) else old(Ahead())
      ensures WritePos() == old(WritePos())
    {
      if gap < 0 || gap + |b| > Free() {
        return false;
      }
      var pos := WriteStart() + gap;
      if pos >= buf.Length {
        pos := pos - buf.Length;
      }
      CopyIn(pos, b);
      Staged(old(buf[..]), pos, gap, b);
      return true;
    }

    /** `d` was copied in at `pos`, `gap` bytes past the write position of a ring over `b`. */
    lemma Staged(b: seq<byte>, pos: nat, gap: nat, d: seq<byte>)
      requires Valid() && |b| == buf.Length && pos <= |b| && gap + |d| <= |b| - Used(|b|, off, end)
      requires d != [] ==> Canon(|b|, pos) == Canon(|b|, off + Used(|b|, off, end) + gap)
      requires CopiedIn(b, buf[..], pos, d)
      ensures Contents() == Turn(b, off)[..Used(|b|, off, end)]
      ensures Ahead() == Splice(Turn(b, off)[Used(|b|, off, end)..], gap, d)
    {
      hide Used;
      var used := Used(|b|, off, end);
      if d == [] {
        assert buf[..] == b;
      } else {
        CopySplicesTurn(b, buf[..], off, used + gap, pos, d);
        SpliceSplits(Turn(b, off), Turn(buf[..], off), used, gap, d);
      }
    }

    /** Makes the next `n` staged bytes readable. */
    method Commit(n: int) returns (err: RingError)
      requires Valid()
      modifies this`end
      ensures Valid()
      ensures err == if n <= 0 then InvalidCommit else if n > |old(Ahead())| then BufferFull else Ok
      ensures err == Ok ==> Contents() == old(Contents()) + old(Ahead())[..n] && Ahead() == old(Ahead())[n..]
      ensures err == Ok ==> end == EndAfter(buf.Length, off, old(end), n)
      ensures err != Ok ==> end == old(end)
    {
      hide Used, Turn;
      if n <= 0 {
        return InvalidCommit;
      } else if n > Free() {
        return BufferFull;
      }
      UsedGrows(buf.Length, off, end, n);
      if end == 0 {
        end := off;
      }
      var e := end + n;
      if e > buf.Length {
        e := e - buf.Length;
      }
      end := e;
      SliceSplits(Turn(buf[..], off), |old(Contents())|, n);
      return Ok;
    }

    /** Marks the ring empty, keeping the write position. */
    method Emptied()
      requires Valid() && end != 0
      modifies this`off, this`end
      ensures Valid() && Contents() == []
      ensures Ahead() == old(Ahead() + Contents())
      ensures WritePos() == old(WritePos()) && end == 0
    {
      ghost var used := |Contents()|;
      var e := end;
      if e == buf.Length {
        e := 0;
      }
      off, end := e, 0;
      RotatedBy(old(off), used, used);
    }

    /** The start moved from `was` past `n` of `used` readable bytes. */
    lemma RotatedBy(was: nat, n: nat, used: nat)
      requires Valid() && was <= buf.Length && n <= used <= buf.Length
      requires Canon(buf.Length, off) == Canon(buf.Length, was + n)
      requires Used(buf.Length, off, end) == used - n
      ensures Contents() == Turn(buf[..], was)[..used][n..]
      ensures Ahead() == Turn(buf[..], was)[used..] + Turn(buf[..], was)[..used][..n]
    {
      TurnRotates(buf[..], was, n, off);
      RotationSplits(Turn(buf[..], was), Turn(buf[..], off), used, n);
    }

    method ReadDiscard(n: int) returns (err: RingError)
      requires Valid()
      modifies this`off, this`end
      ensures Valid()
      ensures err == if n <= 0 then InvalidDiscard else if n > |old(Contents())| then DiscardExceeds else Ok
      ensures err == Ok ==> Contents() == old(Contents())[n..] && Ahead() == old(Ahead()) + old(Contents())[..n]
      ensures err != Ok ==> off == old(off) && end == old(end)
      ensures WritePos() == old(WritePos())
    {
      if n <= 0 {
        return InvalidDiscard;
      }
      var buffered := Buffered();
      if n > buffered {
        return DiscardExceeds;
      } else if n == buffered {
        Emptied();
      } else if n + off > buf.Length {
        off := n - (buf.Length - off);
        RotatedBy(old(off), n, buffered);
      } else {
        off := off + n;
        RotatedBy(old(off), n, buffered);
      }
      return Ok;
    }

    /** Bytes a read into a slice of `want` bytes copies out; the read pointer stays. */
    method ReadPeek(want: nat) returns (data: seq<byte>, err: RingError)
      requires Valid()
      ensures err == if want > 0 && Contents() == [] then EOF else Ok
      ensures data == Contents()[..Min(want, |Contents()|)]
    {
      if want == 0 {
        return [], Ok;
      } else if IsEmpty() {
        return [], EOF;
      }
      if end > off {
        data := buf[off..Min(end, off + want)];
        TurnStraight(buf[..], off, |data|);
        return data, Ok;
      }
      data := buf[off..Min(buf.Length, off + want)];
      TurnStraight(buf[..], off, |data|);
      if |data| < want {
        var n := Min(end, want - |data|);
        TurnAround(buf[..], off, n);
        data := data + buf[..n];
      }
      return data, Ok;
    }

    /** Reads `want` bytes at `at` bytes past the oldest one, or none when they are not all there. */
    method ReadAt(want: nat, at: nat) returns (data: seq<byte>, err: RingError)
      requires Valid()
      ensures err == if at + want > |Contents()| then UnexpectedEOF else Ok
      ensures data == if err == Ok then Contents()[at..at + want] else []
    {
      if at + want > Buffered() {
        return [], UnexpectedEOF;
      }
      var r2 := new Ring(buf, AddOff(off, at), end);
      if want > 0 {
        r2.RotatedBy(off, at, Buffered());
      }
      data, err := r2.ReadPeek(want);
    }

    method Read(want: nat) returns (data: seq<byte>, err: RingError)
      requires Valid()
      modifies this`off, this`end
      ensures Valid()
      ensures err == if want > 0 && old(Contents()) == [] then EOF else Ok
      ensures data == old(Contents())[..Min(want, |old(Contents())|)]
      ensures Contents() == old(Contents())[|data|..]
      ensures Ahead() == old(Ahead()) + data
      ensures WritePos() == old(WritePos())
      ensures end == (if Contents() == [] then 0 else old(end))
      ensures end != 0 && |data| > 0 ==> off == Slot(buf.Length, old(off), |data|)
    {
      data, err := ReadPeek(want);
      if err != Ok || want == 0 {
        return;
      }
      OnReadEnd(|data|);
    }

    method OnReadEnd(n: nat)
      requires Valid() && 0 < n <= |Contents()|
      modifies this`off, this`end
      ensures Valid()
      ensures Contents() == old(Contents())[n..]
      ensures Ahead() == old(Ahead()) + old(Contents())[..n]
      ensures WritePos() == old(WritePos())
      ensures end == (if Contents() == [] then 0 else old(end))
      ensures end != 0 && n > 0 ==> off == Slot(buf.Length, old(off), n)
    {
      ghost var used := |Contents()|;
      var newOff := AddOff(off, n);
      if newOff == end {
        assert n == used;
        Emptied();
      } else if newOff == buf.Length {
        off := 0;
        RotatedBy(old(off), n, used);
      } else {
        off := newOff;
        RotatedBy(old(off), n, used);
      }
    }

    /** A ring holding `n` bytes more than `used` holds what was ahead of those. */
    lemma Halves(used: nat, n: nat)
      requires Valid() && |Contents()| == used + n
      ensures used + n <= buf.Length
      ensures var t := Turn(buf[..], off);
              Contents() == t[..used] + t[used..][..n] && Ahead() == t[used..][n..]
    {
      SliceSplits(Turn(buf[..], off), used, n);
    }

    /** Bytes staged past a gap become readable, after the gap is written, in their place. */
    method StageFillReveal(gap: seq<byte>, staged: seq<byte>)
      requires Valid() && gap != [] && staged != [] && |gap| + |staged| <= Free()
      modifies this`end, buf
      ensures Valid() && Contents() == old(Contents()) + gap + staged
    {
      hide Used, Turn, EndAfter;
      var ok := PeekWrite(staged, |gap|);
      ghost var ahead := Ahead();
      var n, err := Write(gap);
      err := Commit(|staged|);
      assert ahead[|gap|..][..|staged|] == staged;
    }

    /** Appending `n` bytes, by write or by commit, moves the write position on by `n`. */
    lemma WritePosAdvances(was: nat, n: nat)
      requires Valid() && was <= buf.Length && 0 < n <= buf.Length && end == EndAfter(buf.Length, off, was, n)
      ensures var p := if was == 0 then off else was;
              WritePos() == Round(buf.Length, (if p == buf.Length then 0 else p) + n)
    {
    }

    method Reset()
      modifies this`off, this`end
      ensures Valid() && Contents() == [] && Ahead() == buf[..]
    {
      off, end := 0, 0;
    }
  }
}
