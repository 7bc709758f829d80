/**
  Multipart bodies (http/httpraw/multipart.go and the loop of http/httphi/exchange.go): parsing a body
  that arrives in pieces through a small buffer gives what parsing the whole body would.
*/
module Multiparts {
  import opened Bytes

  const DASH: byte := 45

  /** `pat` lies in `d` at `i`. */
  predicate Occurs(pat: seq<byte>, d: seq<byte>, i: nat) {
    i + |pat| <= |d| && d[i..i + |pat|] == pat
  }

  /** First occurrence at or after `from`, or -1. */
  function IndexFrom(pat: seq<byte>, d: seq<byte>, from: nat): (r: int)
    ensures -1 <= r && (r >= 0 ==> from <= r && Occurs(pat, d, r))
    ensures forall i :: from <= i && (r < 0 || i < r) ==> !Occurs(pat, d, i)
    decreases |d| - from
  {
    if from + |pat| > |d| then -1
    else if Occurs(pat, d, from) then from
    else IndexFrom(pat, d, from + 1)
  }

  function Index(pat: seq<byte>, d: seq<byte>): int {
    IndexFrom(pat, d, 0)
  }

  lemma IndexIs(pat: seq<byte>, d: seq<byte>, i: nat)
    requires Occurs(pat, d, i) && forall j :: 0 <= j < i ==> !Occurs(pat, d, j)
    ensures Index(pat, d) == i
  {
    var r := Index(pat, d);
    assert r < 0 || i < r ==> !Occurs(pat, d, i);
  }

  lemma OccursExtended(pat: seq<byte>, d: seq<byte>, e: seq<byte>, i: nat)
    ensures Occurs(pat, d, i) ==> Occurs(pat, d + e, i)
    ensures i + |pat| <= |d| && Occurs(pat, d + e, i) ==> Occurs(pat, d, i)
  {
    if i + |pat| <= |d| {
      assert (d + e)[i..i + |pat|] == d[i..i + |pat|];
    }
  }

  /** An occurrence that was found stays the first one whatever follows. */
  lemma IndexExtended(pat: seq<byte>, d: seq<byte>, e: seq<byte>)
    requires Index(pat, d) >= 0
    ensures Index(pat, d + e) == Index(pat, d)
  {
    var i := Index(pat, d);
    OccursExtended(pat, d, e, i);
    forall j | 0 <= j < i
      ensures !Occurs(pat, d + e, j)
    {
      OccursExtended(pat, d, e, j);
    }
    IndexIs(pat, d + e, i);
  }

  /** What precedes a part, `--boundary`. */
  function Dashed(boundary: seq<byte>): seq<byte> {
    [DASH, DASH] + boundary
  }

  /** What ends a part's content, CRLF and the delimiter. */
  function Delimiter(boundary: seq<byte>): seq<byte> {
    [CR, LF] + Dashed(boundary)
  }

  const BLANK := [CR, LF, CR, LF]

  datatype HeaderResult = NeedMore | Closing | BadDelimiter | Header(view: seq<byte>, parsed: nat)

  /** `NextHeader`: the header block at the front of `d`. */
  function NextHeader(boundary: seq<byte>, d: seq<byte>): (r: HeaderResult)
    ensures r.Header? ==> r.parsed <= |d|
  {
    var i := Index(Dashed(boundary), d);
    if i < 0 then NeedMore
    else
      var after := i + 2 + |boundary|;
      if after + 2 > |d| then NeedMore
      else if d[after] == DASH && d[after + 1] == DASH then Closing
      else AfterDelimiter(d, if d[after] == CR then after + 1 else after)
  }

  /** The rest of it, from the line feed that ends the delimiter's line. */
  function AfterDelimiter(d: seq<byte>, at: nat): (r: HeaderResult)
    ensures r.Header? ==> at < r.parsed <= |d|
  {
    if at >= |d| then NeedMore
    else if d[at] != LF then BadDelimiter
    else
      var end := Index(BLANK, d[at + 1..]);
      if end < 0 then NeedMore else Header(d[at + 1..at + 1 + end + 2], at + 1 + end + 4)
  }

  // ---- what the answers mean

  predicate FirstAt(pat: seq<byte>, d: seq<byte>, i: nat) {
    Occurs(pat, d, i) && forall j :: 0 <= j < i ==> !Occurs(pat, d, j)
  }

  /** Two bytes have arrived at `x`, past the first delimiter, and are not the closing dashes. */
  predicate Opens(boundary: seq<byte>, d: seq<byte>, i: nat, x: nat) {
    && FirstAt([45, 45] + boundary, d, i) && x == i + 2 + |boundary|
    && x + 2 <= |d| && d[x..x + 2] != [45, 45]
  }

  /** Where the header block starts: past a line feed, or a carriage return and a line feed. */
  predicate BlockStart(d: seq<byte>, x: nat, a: nat) {
    x + 2 <= |d| && ((d[x] == 10 && a == x + 1) || (d[x..x + 2] == [13, 10] && a == x + 2))
  }

  lemma FirstExactly(pat: seq<byte>, d: seq<byte>, i: nat)
    ensures FirstAt(pat, d, i) <==> Index(pat, d) == i
  {
    hide Occurs;
    if FirstAt(pat, d, i) {
      IndexIs(pat, d, i);
    }
  }

  /** The last part was read: the first delimiter is followed by two dashes. */
  lemma ClosingExactly(boundary: seq<byte>, d: seq<byte>)
    ensures NextHeader(boundary, d) == Closing <==>
            exists i: nat :: FirstAt([45, 45] + boundary, d, i) && Occurs([45, 45], d, i + 2 + |boundary|)
  {
    hide IndexFrom, Index, FirstAt;
    var i := Index(Dashed(boundary), d);
    if i >= 0 {
      FirstExactly(Dashed(boundary), d, i);
      var x := i + 2 + |boundary|;
      if NextHeader(boundary, d) == Closing {
        assert d[x..x + 2] == [d[x], d[x + 1]] && Occurs([45, 45], d, x);
      }
    }
    if j: nat :| FirstAt([45, 45] + boundary, d, j) && Occurs([45, 45], d, j + 2 + |boundary|) {
      FirstExactly(Dashed(boundary), d, j);
      var x := j + 2 + |boundary|;
      assert d[x] == d[x..x + 2][0] && d[x + 1] == d[x..x + 2][1];
    }
  }

  /** A delimiter is refused exactly if neither dashes nor the end of its line follow it. */
  lemma MalformedExactly(boundary: seq<byte>, d: seq<byte>)
    ensures NextHeader(boundary, d) == BadDelimiter <==>
            exists i: nat, x: nat :: Opens(boundary, d, i, x) && d[x] != 10 && d[x..x + 2] != [13, 10]
  {
    hide IndexFrom, Index, FirstAt;
    var i := Index(Dashed(boundary), d);
    if i >= 0 {
      FirstExactly(Dashed(boundary), d, i);
      var x := i + 2 + |boundary|;
      assert NextHeader(boundary, d) == BadDelimiter ==> Opens(boundary, d, i, x);
    }
    if j: nat, x: nat :| Opens(boundary, d, j, x) && d[x] != 10 && d[x..x + 2] != [13, 10] {
      FirstExactly(Dashed(boundary), d, j);
      assert d[x..x + 2] == [d[x], d[x + 1]];
    }
  }

  /** A header block past the delimiter at `i`: from `a` to the first empty line, its line end included. */
  predicate BlockIs(boundary: seq<byte>, d: seq<byte>, i: nat, a: nat, view: seq<byte>, n: nat) {
    && Opens(boundary, d, i, i + 2 + |boundary|) && BlockStart(d, i + 2 + |boundary|, a)
    && a + 4 <= n <= |d| && FirstAt([13, 10, 13, 10], d[a..], n - 4 - a) && view == d[a..n - 2]
  }

  lemma BlockIsRead(boundary: seq<byte>, d: seq<byte>, i: nat, a: nat, view: seq<byte>, n: nat)
    requires BlockIs(boundary, d, i, a, view, n)
    ensures NextHeader(boundary, d) == Header(view, n)
  {
    hide IndexFrom, Index, FirstAt;
    var x := i + 2 + |boundary|;
    FirstExactly(Dashed(boundary), d, i);
    assert d[x..x + 2] == [d[x], d[x + 1]];
    FirstExactly(BLANK, d[a..], n - 4 - a);
  }

  /** A header block is read where there is one, and nowhere else. */
  lemma BlockExactly(boundary: seq<byte>, d: seq<byte>, view: seq<byte>, n: nat)
    ensures NextHeader(boundary, d) == Header(view, n) <==>
            exists i: nat, a: nat :: BlockIs(boundary, d, i, a, view, n)
  {
    hide IndexFrom, Index, FirstAt;
    if NextHeader(boundary, d) == Header(view, n) {
      var i := Index(Dashed(boundary), d);
      var x := i + 2 + |boundary|;
      var a := if d[x] == CR then x + 2 else x + 1;
      FirstExactly(Dashed(boundary), d, i);
      assert d[x..x + 2] == [d[x], d[x + 1]];
      FirstExactly(BLANK, d[a..], n - 4 - a);
      assert BlockIs(boundary, d, i, a, view, n);
    }
    if i: nat, a: nat :| BlockIs(boundary, d, i, a, view, n) {
      BlockIsRead(boundary, d, i, a, view, n);
    }
  }

  /** An answer other than "need more" does not change when more arrives. */
  lemma HeaderExtended(boundary: seq<byte>, d: seq<byte>, e: seq<byte>)
    requires NextHeader(boundary, d) != NeedMore
    ensures NextHeader(boundary, d + e) == NextHeader(boundary, d)
  {
    hide Index, AfterDelimiter;
    var i := Index(Dashed(boundary), d);
    IndexExtended(Dashed(boundary), d, e);
    var after := i + 2 + |boundary|;
    if !(d[after] == DASH && d[after + 1] == DASH) {
      AfterExtended(d, e, if d[after] == CR then after + 1 else after);
    }
  }

  lemma AfterExtended(d: seq<byte>, e: seq<byte>, at: nat)
    requires AfterDelimiter(d, at) != NeedMore
    ensures AfterDelimiter(d + e, at) == AfterDelimiter(d, at)
  {
    if d[at] == LF {
      assert (d + e)[at + 1..] == d[at + 1..] + e;
      IndexExtended(BLANK, d[at + 1..], e);
    }
  }

  datatype BodyResult = BodyResult(bodyLen: nat, restOff: nat, done: bool)

  /** `NextBody`: the content to release from `d`, all but a tail that could become the delimiter. */
  function NextBody(boundary: seq<byte>, d: seq<byte>): (r: BodyResult)
    ensures r.bodyLen <= r.restOff <= |d|
  {
    var i := Index(Delimiter(boundary), d);
    if i >= 0 then BodyResult(i, i + 2, true)
    else
      var keep := |d| - Min(3 + |boundary|, |d|);
      BodyResult(keep, keep, false)
  }

  datatype Part = Part(header: seq<byte>, content: seq<byte>, whole: bool)

  datatype End = Complete | Malformed | HeaderTooLong | BodyEnded | BadConfig

  /** Content of a part whose body is `c`: up to the delimiter, or short of it what can no longer be part of one. */
  function Content(boundary: seq<byte>, c: seq<byte>): seq<byte> {
    c[..NextBody(boundary, c).bodyLen]
  }

  /** The parts of a whole body, `size` being the longest header block accepted. */
  function Parts(boundary: seq<byte>, d: seq<byte>, size: nat): (seq<Part>, End)
    decreases |d|
  {
    match NextHeader(boundary, d[..Min(size, |d|)])
    case NeedMore => ([], if |d| >= size then HeaderTooLong else BodyEnded)
    case Closing => ([], Complete)
    case BadDelimiter => ([], Malformed)
    case Header(view, n) =>
      var c := d[n..];
      var r := NextBody(boundary, c);
      if !r.done then ([Part(view, c[..r.bodyLen], false)], BodyEnded)
      else
        Prepend(Part(view, c[..r.bodyLen], true), Parts(boundary, c[r.restOff..], size))
  }

  /**
    Released content never contains the start of the delimiter: state of a part of which `w` is released and `d`
    buffered.
  */
  ghost predicate Streaming(boundary: seq<byte>, w: seq<byte>, d: seq<byte>, c: seq<byte>) {
    && w + d <= c
    && (w != [] ==> |d| >= 3 + |boundary|)
    && forall i :: 0 <= i < |w| ==> !Occurs(Delimiter(boundary), c, i)
  }

  lemma OccursShift(pat: seq<byte>, w: seq<byte>, d: seq<byte>, c: seq<byte>, i: nat)
    requires w + d <= c
    ensures i + |pat| <= |d| ==> (Occurs(pat, c, |w| + i) <==> Occurs(pat, d, i))
    ensures Occurs(pat, d, i) ==> Occurs(pat, c, |w| + i)
  {
    if i + |pat| <= |d| {
      assert c[|w| + i..|w| + i + |pat|] == d[i..i + |pat|] by {
        assert forall k :: 0 <= k < |d| ==> c[|w| + k] == (w + d)[|w| + k] == d[k];
      }
    }
  }

  /** A delimiter found in the buffer ends the part where the whole body says. */
  lemma FoundEnds(boundary: seq<byte>, w: seq<byte>, d: seq<byte>, c: seq<byte>)
    requires Streaming(boundary, w, d, c) && NextBody(boundary, d).done
    ensures NextBody(boundary, c) ==
            BodyResult(|w| + NextBody(boundary, d).bodyLen, |w| + NextBody(boundary, d).restOff, true)
    ensures Content(boundary, c) == w + d[..NextBody(boundary, d).bodyLen]
  {
    hide IndexFrom;
    var pat := Delimiter(boundary);
    var i := Index(pat, d);
    OccursShift(pat, w, d, c, i);
    forall j | 0 <= j < |w| + i
      ensures !Occurs(pat, c, j)
    {
      if j >= |w| {
        OccursShift(pat, w, d, c, j - |w|);
      }
    }
    IndexIs(pat, c, |w| + i);
    assert c[..|w| + i] == (w + d)[..|w| + i];
  }

  /** Releasing all but the tail keeps the invariant. */
  lemma ReleaseKeeps(boundary: seq<byte>, w: seq<byte>, d: seq<byte>, c: seq<byte>)
    requires Streaming(boundary, w, d, c) && !NextBody(boundary, d).done
    ensures var n := NextBody(boundary, d).bodyLen;
            Streaming(boundary, w + d[..n], d[n..], c)
    ensures var n := NextBody(boundary, d).bodyLen;
            w + d == c ==> !NextBody(boundary, c).done && Content(boundary, c) == w + d[..n]
  {
    hide IndexFrom;
    var pat, n := Delimiter(boundary), NextBody(boundary, d).bodyLen;
    assert w + d[..n] + d[n..] == w + d;
    forall i | 0 <= i < |w| + n
      ensures !Occurs(pat, c, i)
    {
      if i >= |w| {
        OccursShift(pat, w, d, c, i - |w|);
      }
    }
    if w + d == c {
      NotFound(boundary, w, d, c);
      assert c[..|w| + n] == w + d[..n];
    }
  }

  lemma NotFound(boundary: seq<byte>, w: seq<byte>, d: seq<byte>, c: seq<byte>)
    requires Streaming(boundary, w, d, c) && !NextBody(boundary, d).done && w + d == c
    ensures !NextBody(boundary, c).done
  {
    hide IndexFrom;
    var pat := Delimiter(boundary);
    var i := Index(pat, c);
    if i >= 0 {
      assert Occurs(pat, c, i);
      OccursShift(pat, w, d, c, i - |w|);
    }
  }

  /** More body read in keeps the invariant. */
  lemma ReadKeeps(boundary: seq<byte>, w: seq<byte>, d: seq<byte>, more: seq<byte>, c: seq<byte>)
    requires Streaming(boundary, w, d, c) && w + (d + more) <= c
    ensures Streaming(boundary, w, d + more, c)
  {
  }

  // ---- the searches

  /** Search that skips to the pattern's first byte. */
  method IndexPattern(pat: seq<byte>, d: seq<byte>) returns (r: int)
    requires pat != []
    ensures r == Index(pat, d)
  {
    hide IndexFrom;
    var i := 0;
    while i + |pat| <= |d|
      invariant forall j :: 0 <= j < i ==> !Occurs(pat, d, j)
    {
      var k := IndexByte(d, pat[0], i);
      forall j | i <= j < k
        ensures !Occurs(pat, d, j)
      {
        NotAt(pat, d, j);
      }
      i := k;
      if i + |pat| > |d| {
        break;
      }
      if d[i..i + |pat|] == pat {
        IndexIs(pat, d, i);
        return i;
      }
      i := i + 1;
    }
    NoIndex(pat, d);
    return -1;
  }

  lemma NotAt(pat: seq<byte>, d: seq<byte>, j: nat)
    requires pat != [] && (j < |d| ==> d[j] != pat[0])
    ensures !Occurs(pat, d, j)
  {
  }

  lemma NoIndex(pat: seq<byte>, d: seq<byte>)
    requires forall i: nat :: !Occurs(pat, d, i)
    ensures Index(pat, d) == -1
  {
  }

  method NextBodyOf(boundary: seq<byte>, d: seq<byte>) returns (r: BodyResult)
    ensures r == NextBody(boundary, d)
  {
    hide IndexFrom;
    var i := IndexPattern(Delimiter(boundary), d);
    if i >= 0 {
      return BodyResult(i, i + 2, true);
    }
    var hold := Min(|Delimiter(boundary)| - 1, |d|);
    return BodyResult(|d| - hold, |d| - hold, false);
  }

  method NextHeaderOf(boundary: seq<byte>, d: seq<byte>) returns (r: HeaderResult)
    ensures r == NextHeader(boundary, d)
  {
    hide IndexFrom;
    var i := IndexPattern(Dashed(boundary), d);
    if i < 0 {
      return NeedMore;
    }
    var after := i + 2 + |boundary|;
    if after + 2 > |d| {
      return NeedMore;
    } else if d[after] == DASH && d[after + 1] == DASH {
      return Closing;
    }
    if d[after] == CR {
      after := after + 1;
    }
    if after >= |d| {
      return NeedMore;
    } else if d[after] != LF {
      return BadDelimiter;
    }
    after := after + 1;
    var end := IndexPattern(BLANK, d[after..]);
    if end < 0 {
      return NeedMore;
    }
    return Header(d[after..after + end + 2], after + end + 4);
  }

  // ---- the streaming loop

  /** A request body that arrives in pieces of whatever size; only its end yields nothing. */
  class Body {
    const data: seq<byte>
    var pos: nat

    ghost predicate Valid()
      reads this
    {
      pos <= |data|
    }

    ghost function Rest(): seq<byte>
      requires Valid()
      reads this
    {
      data[pos..]
    }

    constructor (data: seq<byte>)
      ensures Valid() && Rest() == data
    {
      this.data, pos := data, 0;
    }

    /** Any non-empty piece that fits, which is all a caller may count on. */
    method Read(room: nat) returns (chunk: seq<byte>)
      requires Valid() && room > 0
      modifies this
      ensures Valid() && old(Rest()) == chunk + Rest() && |chunk| <= room
      ensures chunk == [] <==> old(Rest()) == []
    {
      if pos == |data| {
        return [];
      }
      var n :| 0 < n <= room && n <= |data| - pos;
      chunk := data[pos..pos + n];
      pos := pos + n;
    }
  }

  method Fill(buf: array<byte>, at: nat, chunk: seq<byte>)
    requires at + |chunk| <= buf.Length
    modifies buf
    ensures buf[..at + |chunk|] == old(buf[..at]) + chunk
  {
    for i := 0 to |chunk|
      invariant buf[..at] == old(buf[..at]) && buf[at..at + i] == chunk[..i]
    {
      buf[at + i] := chunk[i];
    }
    assert buf[..at + |chunk|] == buf[..at] + buf[at..at + |chunk|];
  }

  /** Moves what lies past `from` to the front. */
  method Compact(buf: array<byte>, from: nat, len: nat) returns (n: nat)
    requires from <= len <= buf.Length
    modifies buf
    ensures n == len - from && buf[..n] == old(buf[from..len])
  {
    n := len - from;
    for i := 0 to n
      invariant buf[..i] == old(buf[from..from + i])
      invariant forall j :: i <= j < buf.Length ==> buf[j] == old(buf[j])
    {
      buf[i] := buf[from + i];
    }
  }

  /** Reads until the header block at the front is complete, refused, or cannot be. */
  method ReadHeader(body: Body, boundary: seq<byte>, buf: array<byte>, filled: nat)
      returns (r: HeaderResult, len: nat, end: End)
    requires body.Valid() && filled <= buf.Length
    modifies body, buf
    ensures body.Valid() && len <= buf.Length
    ensures var d := old(buf[..filled] + body.Rest());
            && d == buf[..len] + body.Rest()
            && r == NextHeader(boundary, d[..Min(buf.Length, |d|)])
            && (r.Header? ==> r.parsed <= len)
            && (r.NeedMore? ==> end == if |d| >= buf.Length then HeaderTooLong else BodyEnded)
  {
    hide NextHeader;
    len, end := filled, Complete;
    ghost var d := buf[..filled] + body.Rest();
    while true
      invariant body.Valid() && len <= buf.Length && d == buf[..len] + body.Rest()
      decreases |body.Rest()|
    {
      r := NextHeaderOf(boundary, buf[..len]);
      if r != NeedMore {
        HeaderWithin(boundary, buf[..len], body.Rest(), buf.Length);
        return;
      } else if len == buf.Length {
        assert d[..buf.Length] == buf[..len];
        return r, len, HeaderTooLong;
      }
      ghost var rest := body.Rest();
      var chunk := body.Read(buf.Length - len);
      if |chunk| == 0 {
        assert d == buf[..len] && d[..|d|] == d;
        return r, len, BodyEnded;
      }
      Fill(buf, len, chunk);
      len := len + |chunk|;
    }
  }

  /** An answer on what is buffered is the answer on all the buffer could hold. */
  lemma HeaderWithin(boundary: seq<byte>, b: seq<byte>, rest: seq<byte>, size: nat)
    requires NextHeader(boundary, b) != NeedMore && |b| <= size
    ensures var d := b + rest;
            NextHeader(boundary, d[..Min(size, |d|)]) == NextHeader(boundary, b)
    ensures NextHeader(boundary, b).Header? ==> NextHeader(boundary, b).parsed <= |b|
  {
    var d := b + rest;
    var k := Min(size, |d|);
    assert d[..k] == b + rest[..k - |b|];
    HeaderExtended(boundary, b, rest[..k - |b|]);
  }

  /** Streams a part's content out, whatever the pieces it arrives in. */
  method ReadContent(body: Body, boundary: seq<byte>, buf: array<byte>, filled: nat)
      returns (content: seq<byte>, len: nat, done: bool)
    requires body.Valid() && filled <= buf.Length && buf.Length > 4 + |boundary|
    modifies body, buf
    ensures body.Valid() && len <= buf.Length
    ensures var c := old(buf[..filled] + body.Rest());
            && content == Content(boundary, c) && done == NextBody(boundary, c).done
            && (done ==> buf[..len] + body.Rest() == c[NextBody(boundary, c).restOff..])
  {
    hide NextBody, Content, Streaming, Body.Rest;
    len, content := filled, [];
    ghost var c := buf[..filled] + body.Rest();
    StreamStarts(boundary, buf[..filled], c);
    while true
      invariant body.Valid() && len <= buf.Length && c == content + buf[..len] + body.Rest()
      invariant Streaming(boundary, content, buf[..len], c)
      decreases |body.Rest()|
    {
      ghost var w, d := content, buf[..len];
      var released, restOff;
      released, len, done, restOff := Release(boundary, buf, len);
      content := content + released;
      if done {
        FoundEnds(boundary, w, d, c);
        SliceAfter(w, d, body.Rest(), restOff);
        return;
      }
      ReleaseKeeps(boundary, w, d, c);
      ghost var tail := buf[..len];
      ghost var before := body.Rest();
      var chunk := body.Read(buf.Length - len);
      Rejoin(w, d, restOff, before, chunk, body.Rest());
      if |chunk| == 0 {
        return;
      }
      Fill(buf, len, chunk);
      len := len + |chunk|;
      ReadKeeps(boundary, content, tail, chunk, c);
    }
  }

  /** One `NextBody` on the buffer: the content it releases, and the buffer compacted to the rest. */
  method Release(boundary: seq<byte>, buf: array<byte>, len: nat)
      returns (content: seq<byte>, n: nat, done: bool, restOff: nat)
    requires len <= buf.Length
    modifies buf
    ensures n <= buf.Length && restOff <= len
    ensures var d := old(buf[..len]);
            var r := NextBody(boundary, d);
            && content == d[..r.bodyLen] && buf[..n] == d[r.restOff..] && done == r.done && restOff == r.restOff
            && (!done ==> r.bodyLen == r.restOff && n <= 3 + |boundary|)
  {
    hide NextBody;
    var r := NextBodyOf(boundary, buf[..len]);
    BodyShape(boundary, buf[..len]);
    content, done, restOff := buf[..r.bodyLen], r.done, r.restOff;
    ghost var d := buf[..len];
    assert d[r.restOff..] == buf[r.restOff..len];
    n := Compact(buf, r.restOff, len);
  }

  /** The pieces of a body, cut differently. */
  lemma Rejoin(w: seq<byte>, d: seq<byte>, n: nat, before: seq<byte>, chunk: seq<byte>, rest: seq<byte>)
    requires n <= |d| && before == chunk + rest
    ensures w + d + before == (w + d[..n]) + (d[n..] + chunk) + rest
    ensures (w + d[..n]) + (d[n..] + chunk) <= w + d + before
    ensures before == [] ==> w + d + before == w + d
  {
  }

  lemma SliceAfter(w: seq<byte>, d: seq<byte>, rest: seq<byte>, off: nat)
    requires off <= |d|
    ensures (w + d + rest)[|w| + off..] == d[off..] + rest
  {
  }

  lemma StreamStarts(boundary: seq<byte>, d: seq<byte>, c: seq<byte>)
    requires d <= c
    ensures Streaming(boundary, [], d, c)
  {
    assert [] + d == d;
  }

  lemma BodyShape(boundary: seq<byte>, d: seq<byte>)
    ensures var r := NextBody(boundary, d);
            !r.done ==> r.bodyLen == r.restOff && |d| - r.restOff <= 3 + |boundary|
  {
  }

  /**
    `ReadMultiparts` through a buffer of any size: however the body is split into reads, the parts are
    those of the whole body.
  */
  method ReadMultiparts(body: Body, boundary: seq<byte>, buf: array<byte>) returns (parts: seq<Part>, end: End)
    requires body.Valid() && boundary != []
    modifies body, buf
    ensures (parts, end) == if buf.Length <= 4 + |boundary| then ([], BadConfig)
            else Parts(boundary, old(body.Rest()), buf.Length)
  {
    hide NextHeader, NextBody, Content, Parts;
    parts := [];
    if buf.Length <= 4 + |boundary| {
      return parts, BadConfig;
    }
    ghost var d := body.Rest();
    ghost var whole := Parts(boundary, d, buf.Length);
    var len: nat := 0;
    assert [] + whole.0 == whole.0 && buf[..0] + d == d;
    while true
      invariant body.Valid() && len <= buf.Length && d == buf[..len] + body.Rest()
      invariant whole == (parts + Parts(boundary, d, buf.Length).0, Parts(boundary, d, buf.Length).1)
      decreases |d|
    {
      var r, n, why := ReadHeader(body, boundary, buf, len);
      PartsStep(boundary, d, buf.Length);
      if !r.Header? {
        assert parts + [] == parts;
        end := match r case NeedMore => why case Closing => Complete case _ => Malformed;
        return;
      }
      len := Consume(body, buf, n, r.parsed);
      ghost var c := buf[..len] + body.Rest();
      assert c == d[r.parsed..];
      var content, rest, done := ReadContent(body, boundary, buf, len);
      len := rest;
      ContentIs(boundary, c);
      AppendPart(parts, Part(r.view, content, done), Parts(boundary, c[NextBody(boundary, c).restOff..], buf.Length).0);
      parts := parts + [Part(r.view, content, done)];
      if !done {
        return parts, BodyEnded;
      }
      d := c[NextBody(boundary, c).restOff..];
    }
  }

  method Consume(body: Body, buf: array<byte>, len: nat, parsed: nat) returns (n: nat)
    requires body.Valid() && parsed <= len <= buf.Length
    modifies buf
    ensures n <= buf.Length && buf[..n] + body.Rest() == (old(buf[..len]) + body.Rest())[parsed..]
  {
    n := Compact(buf, parsed, len);
  }

  /** One part off the front. */
  lemma PartsStep(boundary: seq<byte>, d: seq<byte>, size: nat)
    ensures var r, all := NextHeader(boundary, d[..Min(size, |d|)]), Parts(boundary, d, size);
            && (r.NeedMore? ==> all == ([], if |d| >= size then HeaderTooLong else BodyEnded))
            && (r.Closing? ==> all == ([], Complete))
            && (r.BadDelimiter? ==> all == ([], Malformed))
            && (r.Header? ==> 0 < r.parsed <= |d| && all == FirstPart(boundary, r, d[r.parsed..], size))
  {
    hide NextHeader, NextBody;
    HeaderLonger(boundary, d[..Min(size, |d|)]);
  }

  function FirstPart(boundary: seq<byte>, r: HeaderResult, c: seq<byte>, size: nat): (seq<Part>, End)
    requires r.Header?
  {
    var b := NextBody(boundary, c);
    if b.done then Prepend(Part(r.view, c[..b.bodyLen], true), Parts(boundary, c[b.restOff..], size))
    else ([Part(r.view, c[..b.bodyLen], false)], BodyEnded)
  }

  function Prepend(p: Part, all: (seq<Part>, End)): (seq<Part>, End) {
    ([p] + all.0, all.1)
  }

  lemma AppendPart(parts: seq<Part>, p: Part, more: seq<Part>)
    ensures parts + ([p] + more) == parts + [p] + more && parts + [] == parts
  {
  }

  lemma HeaderLonger(boundary: seq<byte>, d: seq<byte>)
    ensures NextHeader(boundary, d).Header? ==> 0 < NextHeader(boundary, d).parsed
  {
  }

  lemma ContentIs(boundary: seq<byte>, c: seq<byte>)
    ensures Content(boundary, c) == c[..NextBody(boundary, c).bodyLen]
  {
  }

  // ---- round trip

  const CRLF := [CR, LF]

  /** A body as a sender writes it. */
  function Encode(boundary: seq<byte>, parts: seq<Part>): seq<byte> {
    if parts == [] then Dashed(boundary) + [DASH, DASH]
    else HeaderBlock(boundary, parts[0]) + (parts[0].content + CRLF + Encode(boundary, parts[1..]))
  }

  function HeaderBlock(boundary: seq<byte>, p: Part): seq<byte> {
    Dashed(boundary) + CRLF + (p.header + CRLF)
  }

  /** A part whose bytes do not look like what ends its header block or its content. */
  ghost predicate Encodable(boundary: seq<byte>, p: Part, size: nat) {
    && p.whole && |HeaderBlock(boundary, p)| <= size
    && |p.header| >= 2 && Index(BLANK, p.header + CRLF) == |p.header| - 2
    && Index(Delimiter(boundary), p.content + Delimiter(boundary)) == |p.content|
  }

  lemma HeaderParses(boundary: seq<byte>, p: Part, size: nat)
    requires Encodable(boundary, p, size)
    ensures NextHeader(boundary, HeaderBlock(boundary, p)) == Header(p.header, |HeaderBlock(boundary, p)|)
  {
    hide IndexFrom, Index;
    var d := HeaderBlock(boundary, p);
    var after := 2 + |boundary|;
    assert Occurs(Dashed(boundary), d, 0);
    IndexIs(Dashed(boundary), d, 0);
    assert d[after] == CR && d[after + 1] == LF;
    assert d[after + 2..] == p.header + CRLF;
    assert d[after + 2..after + 2 + |p.header|] == p.header;
  }

  lemma ContentParses(boundary: seq<byte>, p: Part, size: nat, more: seq<byte>)
    requires Encodable(boundary, p, size) && Dashed(boundary) <= more
    ensures var c := p.content + CRLF + more;
            NextBody(boundary, c) == BodyResult(|p.content|, |p.content| + 2, true)
            && c[..|p.content|] == p.content && c[|p.content| + 2..] == more
  {
    hide IndexFrom, Index;
    var c := p.content + CRLF + more;
    var rest := more[2 + |boundary|..];
    assert c == p.content + Delimiter(boundary) + rest;
    IndexExtended(Delimiter(boundary), p.content + Delimiter(boundary), rest);
  }

  lemma ClosingParses(boundary: seq<byte>)
    ensures NextHeader(boundary, Encode(boundary, [])) == Closing
  {
    hide IndexFrom;
    var d := Encode(boundary, []);
    assert Occurs(Dashed(boundary), d, 0);
    IndexIs(Dashed(boundary), d, 0);
  }

  lemma EncodeStarts(boundary: seq<byte>, parts: seq<Part>)
    ensures Dashed(boundary) <= Encode(boundary, parts)
  {
  }

  /** What a sender encodes is what the parser returns. */
  lemma {:induction false} RoundTrip(boundary: seq<byte>, parts: seq<Part>, size: nat)
    requires size > 4 + |boundary| && forall i :: 0 <= i < |parts| ==> Encodable(boundary, parts[i], size)
    ensures Parts(boundary, Encode(boundary, parts), size) == (parts, Complete)
    decreases |parts|
  {
    hide NextHeader, NextBody, Encodable, HeaderBlock, Parts;
    var d := Encode(boundary, parts);
    var k := Min(size, |d|);
    PartsStep(boundary, d, size);
    if parts == [] {
      ClosingParses(boundary);
      assert d[..k] == d;
    } else {
      var p, h, more := parts[0], HeaderBlock(boundary, parts[0]), Encode(boundary, parts[1..]);
      FitsHeader(boundary, p, size);
      HeaderParses(boundary, p, size);
      EncodeStarts(boundary, parts[1..]);
      ContentParses(boundary, p, size, more);
      var c := p.content + CRLF + more;
      assert d[..k] == h + c[..k - |h|];
      HeaderExtended(boundary, h, c[..k - |h|]);
      assert d[|h|..] == c;
      RoundTrip(boundary, parts[1..], size);
      assert p == Part(p.header, p.content, true) && parts == [p] + parts[1..];
    }
  }

  /** The first occurrence past an end is the first one before it. */
  lemma IndexShortened(pat: seq<byte>, d: seq<byte>, e: seq<byte>, i: nat)
    requires Index(pat, d + e) == i && i + |pat| <= |d|
    ensures Index(pat, d) == i
  {
    OccursExtended(pat, d, e, i);
    forall j | 0 <= j < i
      ensures !Occurs(pat, d, j)
    {
      OccursExtended(pat, d, e, j);
    }
    IndexIs(pat, d, i);
  }

  /** A header block that comes back as its header ends where it should and fits. */
  lemma HeaderParsesOnly(boundary: seq<byte>, p: Part, c: seq<byte>, k: nat)
    requires k <= |HeaderBlock(boundary, p) + c|
    requires var r := NextHeader(boundary, (HeaderBlock(boundary, p) + c)[..k]); r.Header? && r.view == p.header
    ensures |p.header| >= 2 && Index(BLANK, p.header + CRLF) == |p.header| - 2
    ensures |HeaderBlock(boundary, p)| <= k
    ensures NextHeader(boundary, (HeaderBlock(boundary, p) + c)[..k]).parsed == |HeaderBlock(boundary, p)|
  {
    hide IndexFrom;
    var d, after := (HeaderBlock(boundary, p) + c)[..k], 2 + |boundary|;
    DashedFirst(boundary, HeaderBlock(boundary, p) + c, k);
    assert d[after] == CR && d[after + 1] == LF;
    var t := d[after + 2..];
    var end := Index(BLANK, t);
    assert end == |p.header| - 2 && Occurs(BLANK, t, end);
    var more := t[|p.header| + 2..];
    assert t == p.header + CRLF + more;
    IndexShortened(BLANK, p.header + CRLF, more, end);
  }

  lemma DashedFirst(boundary: seq<byte>, d: seq<byte>, k: nat)
    requires Dashed(boundary) <= d && k <= |d| && Index(Dashed(boundary), d[..k]) >= 0
    ensures Index(Dashed(boundary), d[..k]) == 0 && |Dashed(boundary)| <= k
  {
    assert Occurs(Dashed(boundary), d[..k], 0);
    IndexIs(Dashed(boundary), d[..k], 0);
  }

  /** Content that comes back does not hold its own end. */
  lemma ContentParsesOnly(boundary: seq<byte>, content: seq<byte>, more: seq<byte>)
    requires Dashed(boundary) <= more
    requires var b := NextBody(boundary, content + CRLF + more); b.done && b.bodyLen == |content|
    ensures Index(Delimiter(boundary), content + Delimiter(boundary)) == |content|
    ensures (content + CRLF + more)[NextBody(boundary, content + CRLF + more).restOff..] == more
  {
    hide IndexFrom, Index;
    var rest := more[2 + |boundary|..];
    assert content + CRLF + more == content + Delimiter(boundary) + rest;
    IndexShortened(Delimiter(boundary), content + Delimiter(boundary), rest, |content|);
  }

  lemma {:induction false} RoundTripOnly(boundary: seq<byte>, parts: seq<Part>, size: nat)
    requires Parts(boundary, Encode(boundary, parts), size) == (parts, Complete)
    ensures forall i :: 0 <= i < |parts| ==> Encodable(boundary, parts[i], size)
    decreases |parts|
  {
    hide NextHeader, NextBody, HeaderBlock, Parts;
    if parts != [] {
      var d, p, h, more := Encode(boundary, parts), parts[0], HeaderBlock(boundary, parts[0]),
        Encode(boundary, parts[1..]);
      var c, k := p.content + CRLF + more, Min(size, |d|);
      PartsStep(boundary, d, size);
      EncodeStarts(boundary, parts[1..]);
      HeaderParsesOnly(boundary, p, c, k);
      assert d[|h|..] == c;
      ContentParsesOnly(boundary, p.content, more);
      RoundTripOnly(boundary, parts[1..], size);
    }
  }

  /** Exactly what a sender may encode: the parts come back if and only if each is encodable. */
  lemma RoundTripExactly(boundary: seq<byte>, parts: seq<Part>, size: nat)
    requires size > 4 + |boundary|
    ensures Parts(boundary, Encode(boundary, parts), size) == (parts, Complete) <==>
            forall i :: 0 <= i < |parts| ==> Encodable(boundary, parts[i], size)
  {
    hide Parts, Encode, Encodable;
    if Parts(boundary, Encode(boundary, parts), size) == (parts, Complete) {
      RoundTripOnly(boundary, parts, size);
    }
    if forall i :: 0 <= i < |parts| ==> Encodable(boundary, parts[i], size) {
      RoundTrip(boundary, parts, size);
    }
  }

  lemma FitsHeader(boundary: seq<byte>, p: Part, size: nat)
    requires Encodable(boundary, p, size)
    ensures |HeaderBlock(boundary, p)| <= size && p.whole
  {
  }
}
