/**
  Resumable parsing: `TryParse` after each piece of a header, against one parse of all of it
  (http/httpraw/headerv1.go, http/httpraw/parsev1.go).
*/
module HttpStream {
  import opened Bytes
  import opened HttpHead

  /** What a parse has found so far. */
  datatype Parsed = Parsed(method_: View, target: View, proto: View, code: View, text: View, noV11: bool,
                           fields: seq<Field>, off: nat)

  const INITIAL := Parsed(NO_VIEW, NO_VIEW, NO_VIEW, NO_VIEW, NO_VIEW, false, [], 0)

  /** The test by which `TryParse` decides to parse the first line. */
  predicate Unstarted(kind: Kind, s: Parsed) {
    if kind.Response? then s.code.len == 0 else s.target.start == 0
  }

  function WithHead(s: Parsed, h: Head): Parsed {
    Parsed(h.method_, h.target, h.proto, h.code, h.text, s.noV11 || h.noV11, s.fields, h.off)
  }

  function WithFields(s: Parsed, d: seq<byte>): (Parsed, Err)
    requires s.off <= |d|
  {
    var f := FieldsFrom(d, s.off);
    (s.(fields := s.fields + f.fields, off := f.off), f.err)
  }

  /** `TryParse` with `d` in the buffer. */
  function Try(kind: Kind, s: Parsed, d: seq<byte>): (r: (Parsed, Err))
    requires s.off <= |d|
    ensures r.0.off <= |d|
  {
    if !Unstarted(kind, s) then WithFields(s, d)
    else
      var h := FirstLine(kind, d);
      if h.err != NoErr then (WithHead(s, h), h.err) else WithFields(WithHead(s, h), d)
  }

  /** One parse of a whole header. */
  function OneShot(kind: Kind, d: seq<byte>): (Parsed, Err) {
    Try(kind, INITIAL, d)
  }

  /** `TryParse` after each piece, until it no longer asks for more. */
  function Stream(kind: Kind, s: Parsed, d: seq<byte>, chunks: seq<seq<byte>>): (Parsed, Err)
    requires s.off <= |d|
    decreases |chunks|
  {
    if chunks == [] then (s, NeedMore)
    else
      var (s', err) := Try(kind, s, d + chunks[0]);
      if err != NeedMore then (s', err) else Stream(kind, s', d + chunks[0], chunks[1..])
  }

  function Concat(chunks: seq<seq<byte>>): seq<byte> {
    if chunks == [] then [] else chunks[0] + Concat(chunks[1..])
  }

  /** The shape of a whole parse. */
  lemma OneShotIs(kind: Kind, d: seq<byte>)
    ensures var h := FirstLine(kind, d);
            && (h.err != NoErr ==> OneShot(kind, d) == (WithHead(INITIAL, h), h.err))
            && (h.err == NoErr ==>
                  var f := FieldsFrom(d, h.off);
                  OneShot(kind, d) == (WithHead(INITIAL, h).(fields := f.fields, off := f.off), f.err))
  {
    hide FirstLine, FieldsFrom;
    var h := FirstLine(kind, d);
    if h.err == NoErr {
      assert [] + FieldsFrom(d, h.off).fields == FieldsFrom(d, h.off).fields;
    }
  }

  /** A line that asks for more has left no trace. */
  lemma NeedMoreIsBlank(kind: Kind, d: seq<byte>)
    requires FirstLine(kind, d).err == NeedMore
    ensures FirstLine(kind, d) == Failed(NeedMore, FirstLine(kind, d).off)
  {
    hide Find, SkipLines, IsV1;
  }

  lemma StartedByRequest(d: seq<byte>)
    ensures FirstLine(Request, d).err == NoErr ==> FirstLine(Request, d).target.start > 0
  {
    hide Find, SkipLines, IsV1, RequestLine;
  }

  /** Settled answers stay: what follows the header does not change it. */
  lemma Settled(kind: Kind, d: seq<byte>, e: seq<byte>)
    requires OneShot(kind, d).1 != NeedMore
    ensures OneShot(kind, d + e) == OneShot(kind, d)
  {
    hide FirstLine, FieldsFrom, OneShot, WithHead;
    OneShotIs(kind, d);
    OneShotIs(kind, d + e);
    FirstLineExtended(kind, d, e);
    var h := FirstLine(kind, d);
    if h.err == NoErr {
      FieldsExtended(d, e, h.off);
    }
  }

  /** A pause that can be resumed: the first line is not parsed again over fields already stored. */
  predicate Resumable(kind: Kind, s: Parsed) {
    kind.Request? || s.code.len > 0 || s.fields == []
  }

  /** Resuming a pause gives what one parse of everything received gives. */
  lemma Resumes(kind: Kind, d: seq<byte>, e: seq<byte>)
    requires OneShot(kind, d).1 == NeedMore && Resumable(kind, OneShot(kind, d).0)
    ensures OneShot(kind, d).0.off <= |d|
    ensures Try(kind, OneShot(kind, d).0, d + e) == OneShot(kind, d + e)
  {
    hide FirstLine, FieldsFrom, Find;
    OneShotIs(kind, d);
    OneShotIs(kind, d + e);
    var h := FirstLine(kind, d);
    if h.err == NeedMore {
      NeedMoreIsBlank(kind, d);
    } else {
      FirstLineExtended(kind, d, e);
      FieldsExtended(d, e, h.off);
      StartedByRequest(d);
    }
  }

  /** Streaming from a pause that every prefix so far could be resumed from. */
  lemma {:induction false} StreamFrom(kind: Kind, d: seq<byte>, chunks: seq<seq<byte>>)
    requires OneShot(kind, d).1 == NeedMore
    requires forall k :: |d| <= k < |d + Concat(chunks)| ==> PauseResumes(kind, (d + Concat(chunks))[..k])
    requires forall i :: 0 <= i < |chunks| ==> chunks[i] != []
    ensures OneShot(kind, d).0.off <= |d|
    ensures Stream(kind, OneShot(kind, d).0, d, chunks) == OneShot(kind, d + Concat(chunks))
    decreases |chunks|
  {
    hide OneShot, Try, Resumable;
    OffsetWithin(kind, d);
    if chunks == [] {
      assert d + [] == d;
    } else {
      var whole, c := d + Concat(chunks), chunks[0];
      assert whole == (d + c) + Concat(chunks[1..]);
      assert whole[..|d|] == d;
      assert PauseResumes(kind, whole[..|d|]);
      Resumes(kind, d, c);
      if OneShot(kind, d + c).1 == NeedMore {
        StreamFrom(kind, d + c, chunks[1..]);
      } else {
        Settled(kind, d + c, Concat(chunks[1..]));
      }
    }
  }

  predicate PauseResumes(kind: Kind, p: seq<byte>) {
    OneShot(kind, p).1 == NeedMore ==> Resumable(kind, OneShot(kind, p).0)
  }

  lemma OffsetWithin(kind: Kind, d: seq<byte>)
    ensures OneShot(kind, d).0.off <= |d|
  {
  }

  lemma EmptyPauses(kind: Kind)
    ensures OneShot(kind, []) == (INITIAL, NeedMore)
  {
    OneShotIs(kind, []);
  }

  /**
    A request header parsed in any pieces is the header parsed at once: the same method, target,
    protocol, fields, end offset and error.
  */
  lemma RequestStreams(chunks: seq<seq<byte>>)
    requires forall i :: 0 <= i < |chunks| ==> chunks[i] != []
    ensures Stream(Request, INITIAL, [], chunks) == OneShot(Request, Concat(chunks))
  {
    hide OneShot, Stream;
    EmptyPauses(Request);
    assert [] + Concat(chunks) == Concat(chunks);
    StreamFrom(Request, [], chunks);
  }

  // ---- responses

  /** A non-empty status code, no field, or no way to stop right after the first field. */
  predicate ResponseResumes(d: seq<byte>) {
    var h := FirstLine(Response, d);
    || h.err != NoErr || h.code.len > 0
    || !NextItem(d, h.off).Item?
    || NextItem(d, h.off).off + 1 == |d| || d[NextItem(d, h.off).off] == LF
  }

  ghost predicate Pieces(chunks: seq<seq<byte>>, d: seq<byte>) {
    Concat(chunks) == d && forall i :: 0 <= i < |chunks| ==> chunks[i] != []
  }

  lemma FieldsStart(d: seq<byte>, off: nat)
    requires off <= |d|
    ensures var r := FieldsFrom(d, off);
            && (r.fields != [] <==> NextItem(d, off).Item?)
            && (NextItem(d, off).Item? ==>
                  var o := NextItem(d, off).off;
                  r.fields == [NextItem(d, off).field] + FieldsFrom(d, o).fields && r.err == FieldsFrom(d, o).err
                    && r.off == FieldsFrom(d, o).off)
            && (NextItem(d, off).End? ==> r.err == NoErr)
               && (NextItem(d, off).Pause? ==> r == Fields([], off, NeedMore))
  {
    hide NextItem;
  }

  lemma PrefixResumes(d: seq<byte>, k: nat)
    requires ResponseResumes(d) && k < |d|
    ensures PauseResumes(Response, d[..k])
  {
    hide FirstLine, FieldsFrom, OneShot, Find, Skip, ValueEnd, WithHead;
    var p, e := d[..k], d[k..];
    assert d == p + e;
    OneShotIs(Response, p);
    var h := FirstLine(Response, p);
    if h.err == NoErr && h.code.len == 0 {
      FirstLineExtended(Response, p, e);
      FieldsStart(p, h.off);
      if NextItem(p, h.off).Item? {
        ItemExtended(p, e, h.off);
        FieldsStart(p, NextItem(p, h.off).off);
      }
    }
    CodeOf(INITIAL, h);
  }

  lemma CodeOf(s: Parsed, h: Head)
    ensures WithHead(s, h).code == h.code && WithHead(s, h).fields == s.fields && WithHead(s, h).off == h.off
  {
  }

  /** Where a field's name, first line and value end. */
  lemma ItemParts(d: seq<byte>, off: nat)
    requires off <= |d| && NextItem(d, off).Item?
    ensures var n, x := Find(d, COLON, off), Find(d, LF, off);
            n < x < |d| && Skip(d, SP, n + 1) <= x <= ValueEnd(d, Skip(d, SP, n + 1)) == NextItem(d, off).off - 1
  {
    hide Find, Skip, ValueEnd;
    var n, x := Find(d, COLON, off), Find(d, LF, off);
    SkipBefore(d, SP, n + 1, x);
    StopsAtLine(d, Skip(d, SP, n + 1));
  }

  lemma StopsAtLine(d: seq<byte>, from: nat)
    requires from <= |d|
    ensures Find(d, LF, from) <= ValueEnd(d, from)
  {
  }

  lemma NotPaused(d: seq<byte>, off: nat)
    requires off <= |d|
    requires Find(d, COLON, off) < Find(d, LF, off) < |d| && ValueEnd(d, Skip(d, SP, Find(d, COLON, off) + 1)) < |d|
    ensures NextItem(d, off) != Pause
  {
    hide Find, Skip, ValueEnd;
  }

  lemma FindTruncated(d: seq<byte>, c: byte, from: nat, k: nat)
    requires from <= k <= |d| && Find(d, c, from) < k
    ensures Find(d[..k], c, from) == Find(d, c, from)
  {
    hide Find;
    var p, e := d[..k], d[k..];
    assert d == p + e;
    if Find(p, c, from) == |p| {
      FindLater(p, e, c, from);
    }
    FindExtended(p, e, c, from);
  }

  /** The field is already there in the shortest prefix that shows what follows its line. */
  lemma ItemTruncated(d: seq<byte>, off: nat)
    requires off <= |d| && NextItem(d, off).Item?
    ensures NextItem(d[..NextItem(d, off).off + 1], off) == NextItem(d, off)
  {
    hide Find, Skip, ValueEnd, NextItem;
    var o := NextItem(d, off).off;
    var p, e := d[..o + 1], d[o + 1..];
    assert d == p + e;
    ItemParts(d, off);
    FindTruncated(d, LF, off, o + 1);
    FindTruncated(d, COLON, off, o + 1);
    var n, x := Find(d, COLON, off), Find(d, LF, off);
    SkipBefore(p, SP, n + 1, x);
    SkipExtended(p, e, SP, n + 1);
    ValueEndTruncated(d, Skip(d, SP, n + 1), o + 1);
    NotPaused(p, off);
    ItemExtended(p, e, off);
  }

  lemma {:induction false} ValueEndTruncated(d: seq<byte>, from: nat, k: nat)
    requires from <= |d| && ValueEnd(d, from) + 1 < k <= |d|
    ensures ValueEnd(d[..k], from) == ValueEnd(d, from)
    decreases |d| - from
  {
    hide Find, ValueEnd, Blank;
    ValueEndStep(d, from);
    FindTruncated(d, LF, from, k);
    var nl, p := Find(d, LF, from), d[..k];
    ValueEndStep(p, from);
    assert p[nl + 1] == d[nl + 1];
    if Blank(d[nl + 1]) {
      ValueEndTruncated(d, nl + 1, k);
    }
  }

  lemma ValueEndStep(d: seq<byte>, from: nat)
    requires from <= |d|
    ensures var nl := Find(d, LF, from);
            ValueEnd(d, from) == if nl == |d| || nl + 1 == |d| then |d|
                                 else if Blank(d[nl + 1]) then ValueEnd(d, nl + 1) else nl
  {
    hide Find, Blank;
  }

  /** A response without a status code, stopped right after its first field. */
  lemma StopsAfterFirst(d: seq<byte>, p: seq<byte>)
    requires !ResponseResumes(d) && p == d[..NextItem(d, FirstLine(Response, d).off).off + 1]
    ensures OneShot(Response, p).1 == NeedMore && |OneShot(Response, p).0.fields| == 1
            && Unstarted(Response, OneShot(Response, p).0)
  {
    hide FirstLine, FieldsFrom, NextItem, Find, OneShot;
    var h := FirstLine(Response, d);
    var o := NextItem(d, h.off).off;
    ItemTruncated(d, h.off);
    FirstLineTruncated(d, o + 1);
    OnlyOneByte(p, o);
    FieldsStart(p, h.off);
    FieldsStart(p, o);
    OneShotIs(Response, p);
  }

  /** Parsing its first line again, it keeps the fields it had and adds all of them once more. */
  lemma ParsesAgain(s: Parsed, d: seq<byte>)
    requires Unstarted(Response, s) && s.off <= |d| && FirstLine(Response, d).err == NoErr
    ensures Try(Response, s, d).0.fields == s.fields + OneShot(Response, d).0.fields
  {
    hide FirstLine, FieldsFrom;
    OneShotIs(Response, d);
  }

  /** Stopped there, it stores its first field twice. */
  lemma Repeats(d: seq<byte>) returns (k: nat)
    requires !ResponseResumes(d)
    ensures 0 < k < |d| && Stream(Response, INITIAL, [], [d[..k], d[k..]]) != OneShot(Response, d)
  {
    hide FirstLine, FieldsFrom, NextItem, Find, OneShot, Stream, Try, Unstarted;
    k := NextItem(d, FirstLine(Response, d).off).off + 1;
    var p, e := d[..k], d[k..];
    assert d == p + e;
    StopsAfterFirst(d, p);
    var s := OneShot(Response, p).0;
    OffsetWithin(Response, p);
    ParsesAgain(s, d);
    StreamTwo(s, p, e);
  }

  lemma StreamTwo(s: Parsed, p: seq<byte>, e: seq<byte>)
    requires OneShot(Response, p) == (s, NeedMore)
    ensures s.off <= |p| && Stream(Response, INITIAL, [], [p, e]).0 == Try(Response, s, p + e).0
  {
    hide FirstLine, FieldsFrom, Try;
    assert [] + p == p && [p, e][1..] == [e] && [e][1..] == [];
    assert Try(Response, INITIAL, [] + [p, e][0]) == (s, NeedMore);
    assert Stream(Response, INITIAL, [], [p, e]) == Stream(Response, s, p, [e]);
    var r := Try(Response, s, p + e);
    assert Stream(Response, r.0, p + e, []) == (r.0, NeedMore);
    assert Stream(Response, s, p, [e]).0 == r.0;
  }

  lemma OnlyOneByte(p: seq<byte>, o: nat)
    requires |p| == o + 1 && p[o] != LF
    ensures NextItem(p, o) == Pause
  {
    assert Find(p, LF, o) == Find(p, LF, o + 1);
  }

  lemma FirstLineTruncated(d: seq<byte>, k: nat)
    requires FirstLine(Response, d).err == NoErr && FirstLine(Response, d).off <= k <= |d|
    ensures FirstLine(Response, d[..k]) == FirstLine(Response, d)
  {
    hide Find, SkipLines, ResponseLine, RequestLine;
    var p, e := d[..k], d[k..];
    assert d == p + e;
    var a := SkipLines(d, 0);
    var nl := Find(d, LF, a);
    if SkipLines(p, 0) == |p| {
      SkipLinesLater(p, e, 0);
    }
    SkipLinesExtended(p, e, 0);
    FindTruncated(d, LF, a, k);
    var b := if nl > a && d[nl - 1] == CR then nl - 1 else nl;
    assert p[a..b] == d[a..b];
  }

  lemma {:induction false} SkipLinesLater(d: seq<byte>, e: seq<byte>, from: nat)
    requires from <= |d| && SkipLines(d, from) == |d|
    ensures SkipLines(d + e, from) >= |d|
    decreases |d| - from
  {
    if from < |d| {
      SkipLinesLater(d, e, from + 1);
    }
  }

  /**
    A response header parsed in pieces is the header parsed at once, for every way to cut it, if and
    only if it has a status code, or no field, or nothing to cut right after its first field.
  */
  lemma ResponseExactly(d: seq<byte>)
    ensures (forall chunks :: Pieces(chunks, d) ==>
            Stream(Response, INITIAL, [], chunks) == OneShot(Response, d)) <==> ResponseResumes(d)
  {
    hide OneShot, Stream, ResponseResumes, PauseResumes, FirstLine, NextItem;
    if ResponseResumes(d) {
      forall chunks | Pieces(chunks, d)
        ensures Stream(Response, INITIAL, [], chunks) == OneShot(Response, d)
      {
        EmptyPauses(Response);
        assert [] + Concat(chunks) == d;
        forall k | 0 <= k < |d|
          ensures PauseResumes(Response, d[..k])
        {
          PrefixResumes(d, k);
        }
        StreamFrom(Response, [], chunks);
      }
    } else {
      var k := Repeats(d);
      CutInTwo(d, k);
    }
  }

  lemma CutInTwo(d: seq<byte>, k: nat)
    requires 0 < k < |d|
    ensures Pieces([d[..k], d[k..]], d)
  {
    var chunks := [d[..k], d[k..]];
    assert chunks[1..] == [d[k..]] && [d[k..]][1..] == [];
    assert Concat([d[k..]]) == d[k..] + Concat([]) == d[k..];
    assert d[..k] + d[k..] == d;
  }

  /** "HTTP/1. ", "A:b" and the start of another field, on lines of their own. */
  const NO_CODE: seq<byte> := [72, 84, 84, 80, 47, 49, 46, 32, 10, 65, 58, 98, 10, 67, 68]

  lemma FindIs(d: seq<byte>, c: byte, from: nat, i: nat)
    requires from <= i <= |d| && (i < |d| ==> d[i] == c) && forall j :: from <= j < i ==> d[j] != c
    ensures Find(d, c, from) == i
  {
    hide Find;
    var k := Find(d, c, from);
  }

  /** A header the condition excludes. */
  lemma NoCodeRepeats()
    ensures !ResponseResumes(NO_CODE)
  {
    hide Find;
    var d := NO_CODE;
    FindIs(d, LF, 0, 8);
    var line := d[0..8];
    FindIs(line, SP, 0, 7);
    FindIs(line, SP, 8, 8);
    assert line[..7] == HTTP1;
    FindIs(d, COLON, 9, 10);
    FindIs(d, LF, 9, 12);
    FindIs(d, SP, 9, |d|);
    FindIs(d, TAB, 9, |d|);
    FindIs(d, LF, 11, 12);
  }
}
