/**
  Which bytes are a header and what its parts are, stated on positions of the buffer without a scan: the parser of
  http/httpraw/parsev1.go accepts exactly these.
*/
module HttpGrammar {
  import opened Bytes
  import opened HttpHead
  import opened HttpStream
  import opened HttpRender

  /** No byte from `a` up to `b` is `c`. */
  predicate Without(d: seq<byte>, a: nat, b: nat, c: byte)
    requires b <= |d|
  {
    forall i :: a <= i < b ==> d[i] != c
  }

  // ---- fields

  /** Bytes up to `o` that end a line which reaches `e`: a line feed, and the carriage return before it. */
  predicate EndsLine(d: seq<byte>, start: nat, e: nat, o: nat) {
    && start <= e < o <= |d| && d[o - 1] == 10
    && ((e == o - 2 && d[e] == 13) || (e == o - 1 && (e == start || d[e - 1] != 13)))
  }

  /** A value from `v` up to `e`: a line feed in it is followed by white space, and the one after it is not. */
  predicate ValueIs(d: seq<byte>, v: nat, e: nat, o: nat) {
    && EndsLine(d, v, e, o) && o < |d| && d[o] != 32 && d[o] != 9
    && forall i :: v <= i < e && d[i] == 10 ==> d[i + 1] == 32 || d[i + 1] == 9
  }

  /** A field at `a`, with what follows it at `o`: name, colon, spaces, value. */
  predicate FieldIs(d: seq<byte>, a: nat, f: Field, o: nat) {
    var n, v := a + f.key.len, f.value.start;
    && f.key.start == a && n < v < |d| && d[n] == 58
    && Without(d, a, n, 58) && Without(d, a, n, 32) && Without(d, a, n, 9) && Without(d, a, n, 10)
    && (forall i :: n < i < v ==> d[i] == 32) && d[v] != 32
    && ValueIs(d, v, v + f.value.len, o)
  }

  /** The empty line that ends the fields. */
  predicate EndIs(d: seq<byte>, a: nat, o: nat) {
    || (o == a + 2 <= |d| && d[a] == 13 && d[a + 1] == 10)
    || (o == a + 1 <= |d| && d[a] == 10)
  }

  predicate FieldsAre(d: seq<byte>, a: nat, fs: seq<Field>, o: nat)
    decreases |fs|
  {
    if fs == [] then EndIs(d, a, o)
    else exists next :: a < next <= |d| && FieldIs(d, a, fs[0], next) && FieldsAre(d, next, fs[1..], o)
  }

  lemma ValueExactly(d: seq<byte>, v: nat, e: nat, o: nat)
    requires v < |d|
    ensures ValueIs(d, v, e, o) <==>
            var nl := ValueEnd(d, v);
            nl < |d| && o == nl + 1 && e == if nl > v && d[nl - 1] == CR then nl - 1 else nl
  {
    hide Find;
    var nl := ValueEnd(d, v);
    if ValueIs(d, v, e, o) {
      ValueEndIs(d, v, o - 1);
    }
    if nl < |d| {
      ValueBreaks(d, v);
    }
  }

  lemma {:induction false} ValueBreaks(d: seq<byte>, v: nat)
    requires v <= |d|
    ensures forall i :: v <= i < ValueEnd(d, v) < |d| && d[i] == LF ==> Blank(d[i + 1])
    decreases |d| - v
  {
    hide Find, Blank;
    ValueEndStep(d, v);
    var nl := Find(d, LF, v);
    if nl + 1 < |d| && Blank(d[nl + 1]) {
      ValueBreaks(d, nl + 1);
    }
  }

  /** A field is read where there is one, and nowhere else. */
  lemma FieldExactly(d: seq<byte>, a: nat, f: Field, o: nat)
    requires a <= |d|
    ensures NextItem(d, a) == Item(f, o) <==> FieldIs(d, a, f, o)
  {
    hide Find, Skip, ValueEnd, ValueIs;
    if FieldIs(d, a, f, o) {
      IsRead(d, a, f, o);
    }
    if NextItem(d, a) == Item(f, o) {
      ReadIs(d, a, f, o);
    }
  }

  lemma IsRead(d: seq<byte>, a: nat, f: Field, o: nat)
    requires a <= |d| && FieldIs(d, a, f, o)
    ensures NextItem(d, a) == Item(f, o)
  {
    hide Find, ValueEnd, NextItem, ValueIs;
    var n, v := a + f.key.len, f.value.start;
    ValueExactly(d, v, v + f.value.len, o);
    NameIsRead(d, a, n, v, o - 1);
  }

  lemma NameIsRead(d: seq<byte>, a: nat, n: nat, v: nat, nl: nat)
    requires a <= n < v <= nl < |d| && d[n] == 58 && d[nl] == 10
    requires Without(d, a, n, 58) && Without(d, a, n, 32) && Without(d, a, n, 9) && Without(d, a, n, 10)
    requires d[v] != 32 && forall i :: n < i < v ==> d[i] == 32
    ensures NextItem(d, a) == WithValue(d, a, n, v)
  {
    hide Find, Skip, WithValue;
    FindIs(d, COLON, a, n);
    SkipIs(d, SP, n + 1, v);
    assert Find(d, LF, a) <= nl;
  }

  lemma ReadIs(d: seq<byte>, a: nat, f: Field, o: nat)
    requires a <= |d| && NextItem(d, a) == Item(f, o)
    ensures FieldIs(d, a, f, o)
  {
    hide Find, Skip, ValueEnd, ValueIs;
    var n := Find(d, COLON, a);
    SkipBefore(d, SP, n + 1, Find(d, LF, a));
    var v := Skip(d, SP, n + 1);
    ValueExactly(d, v, v + f.value.len, o);
    Skipped(d, SP, n + 1);
  }

  lemma {:induction false} Skipped(d: seq<byte>, c: byte, from: nat)
    requires from <= |d|
    ensures forall i :: from <= i < Skip(d, c, from) ==> d[i] == c
    decreases |d| - from
  {
    if from < |d| && d[from] == c {
      Skipped(d, c, from + 1);
    }
  }

  lemma EndExactly(d: seq<byte>, a: nat, o: nat)
    requires a <= |d|
    ensures NextItem(d, a) == End(o) <==> EndIs(d, a, o)
  {
    hide Find, Skip, WithValue;
  }

  /** A line is refused exactly when white space or its end comes before a colon, once the end has arrived. */
  lemma BadExactly(d: seq<byte>, a: nat)
    requires a <= |d|
    ensures NextItem(d, a) == Bad <==>
            && !(exists o :: EndIs(d, a, o)) && !Without(d, a, |d|, 10)
            && exists k :: a <= k < |d| && d[k] in {9, 10, 32} && Without(d, a, k, 58)
  {
    hide Skip, ValueEnd;
    var n, x := Find(d, COLON, a), Find(d, LF, a);
    EndExactly(d, a, a + 1);
    EndExactly(d, a, a + 2);
    if NextItem(d, a) == Bad {
      var k := if x < n then x else if Find(d, SP, a) < n then Find(d, SP, a) else Find(d, TAB, a);
      assert d[k] in {9, 10, 32} && Without(d, a, k, 58);
    }
  }

  /** Fields are parsed exactly where there are fields and an empty line. */
  lemma {:induction false} FieldsExactly(d: seq<byte>, a: nat, fs: seq<Field>, o: nat)
    requires a <= |d|
    ensures FieldsFrom(d, a) == Fields(fs, o, NoErr) <==> FieldsAre(d, a, fs, o)
    decreases |d| - a
  {
    hide NextItem, FieldIs, EndIs;
    var item := NextItem(d, a);
    EndExactly(d, a, o);
    if fs != [] {
      if item.Item? && item.field == fs[0] {
        FieldExactly(d, a, fs[0], item.off);
        FieldsExactly(d, item.off, fs[1..], o);
        assert fs == [fs[0]] + fs[1..];
      }
      if FieldsAre(d, a, fs, o) {
        var next :| a < next <= |d| && FieldIs(d, a, fs[0], next) && FieldsAre(d, next, fs[1..], o);
        FieldExactly(d, a, fs[0], next);
      }
    }
  }

  // ---- the first line

  /** The first line from `a` up to `b`, with what follows it at `o`; empty lines before it are passed over. */
  predicate LineIs(d: seq<byte>, a: nat, b: nat, o: nat) {
    && a < |d| && d[a] != 10 && d[a] != 13 && (forall i :: 0 <= i < a ==> d[i] == 10 || d[i] == 13)
    && EndsLine(d, a, b, o) && Without(d, a, o - 1, 10)
  }

  predicate Version1(proto: seq<byte>) {
    [72, 84, 84, 80, 47, 49, 46] <= proto      // "HTTP/1."
  }

  predicate Version11(proto: seq<byte>) {
    proto == [72, 84, 84, 80, 47, 49, 46, 49]  // "HTTP/1.1"
  }

  /** The next space of a line, or its end. */
  predicate NextSpace(d: seq<byte>, from: nat, b: nat, q: nat)
    requires b <= |d|
  {
    from <= q <= b && Without(d, from, q, 32) && (q < b ==> d[q] == 32)
  }

  /** Method, target and protocol with a space between each two. */
  predicate RequestParts(d: seq<byte>, a: nat, b: nat, o: nat, h: Head)
    requires b <= |d|
  {
    var p, q := a + h.method_.len, h.target.start + h.target.len;
    && h.target.start == p + 1 < q < b
    && h == Head(NoErr, o, View(a, h.method_.len), h.target, View(q + 1, b - q - 1), NO_VIEW, NO_VIEW, h.noV11)
    && NextSpace(d, a, b, p) && NextSpace(d, p + 1, b, q)
    && Version1(d[q + 1..b]) && (h.noV11 <==> !Version11(d[q + 1..b]))
  }

  predicate RequestIs(d: seq<byte>, h: Head) {
    var a, b := h.method_.start, h.proto.start + h.proto.len;
    LineIs(d, a, b, h.off) && RequestParts(d, a, b, h.off, h)
  }

  /** Protocol, up to three digits, and a reason phrase if there is a second space. */
  predicate StatusParts(d: seq<byte>, a: nat, b: nat, o: nat, h: Head)
    requires b <= |d|
  {
    var s, c := h.code.start - 1, h.code.start + h.code.len;
    && a <= s < c <= b && h.code.len <= 3
    && h == Head(NoErr, o, NO_VIEW, NO_VIEW, NO_VIEW, h.code, if c < b then View(c + 1, b - c - 1) else NO_VIEW,
                 h.noV11)
    && NextSpace(d, a, b, s) && NextSpace(d, s + 1, b, c) && (forall i :: s < i < c ==> 48 <= d[i] <= 57)
    && Version1(d[a..s]) && (h.noV11 <==> !Version11(d[a..s]))
  }

  predicate StatusIs(d: seq<byte>, a: nat, b: nat, h: Head) {
    LineIs(d, a, b, h.off) && StatusParts(d, a, b, h.off, h)
  }

  lemma {:induction false} LinesSkipped(d: seq<byte>, from: nat)
    requires from <= |d|
    ensures var a := SkipLines(d, from);
            && (forall i :: from <= i < a ==> d[i] == 10 || d[i] == 13)
            && (a < |d| ==> d[a] != 10 && d[a] != 13)
    decreases |d| - from
  {
    if from < |d| && (d[from] == CR || d[from] == LF) {
      LinesSkipped(d, from + 1);
    }
  }

  /** The line the parser takes. */
  lemma LineExactly(d: seq<byte>, a: nat, b: nat, o: nat)
    ensures LineIs(d, a, b, o) <==>
            var nl := Find(d, LF, SkipLines(d, 0));
            && a == SkipLines(d, 0) && nl < |d| && o == nl + 1
            && b == if nl > a && d[nl - 1] == CR then nl - 1 else nl
  {
    hide Find, SkipLines;
    LinesSkipped(d, 0);
    if LineIs(d, a, b, o) {
      assert a == SkipLines(d, 0);
      FindIs(d, LF, a, o - 1);
    }
  }

  lemma SpaceExactly(d: seq<byte>, a: nat, b: nat, from: nat, q: nat)
    requires a <= b <= |d| && from <= b - a
    ensures NextSpace(d, a + from, b, q) <==> q == a + Find(d[a..b], SP, from)
  {
    hide Find;
    var line, i := d[a..b], Find(d[a..b], SP, from);
    forall k | a + from <= k < a + i
      ensures d[k] != 32
    {
      assert line[k - a] == d[k];
    }
    if i < |line| {
      assert line[i] == d[a + i];
    }
  }

  lemma VersionExactly(proto: seq<byte>)
    ensures IsV1(proto) <==> Version1(proto)
    ensures proto == HTTP11 <==> Version11(proto)
  {
    if Version1(proto) {
      assert proto[..7] == HTTP1;
    }
    assert HTTP11 == [72, 84, 84, 80, 47, 49, 46, 49];
  }

  lemma RequestLineIs(d: seq<byte>, a: nat, b: nat, o: nat, h: Head)
    requires a + 5 <= b <= |d| && RequestParts(d, a, b, o, h)
    ensures RequestLine(d[a..b], a, o) == h
  {
    hide Find, IsV1, Version1, Version11, NextSpace, Without;
    var line, p, q := d[a..b], a + h.method_.len, h.target.start + h.target.len;
    SpaceExactly(d, a, b, 0, p);
    SpaceExactly(d, a, b, p + 1 - a, q);
    assert line[q - a + 1..] == d[q + 1..b];
    VersionExactly(line[q - a + 1..]);
  }

  lemma RequestLineExactly(d: seq<byte>, a: nat, b: nat, o: nat, h: Head)
    requires a + 5 <= b <= |d|
    ensures RequestLine(d[a..b], a, o) == h && h.err == NoErr <==> RequestParts(d, a, b, o, h)
  {
    hide Find, IsV1, Version1, Version11, NextSpace, Without;
    var line := d[a..b];
    if RequestLine(line, a, o) == h && h.err == NoErr {
      var m := h.method_.len;
      var u := Find(line, SP, m + 1);
      SpaceExactly(d, a, b, 0, a + m);
      SpaceExactly(d, a, b, m + 1, a + u);
      assert line[u + 1..] == d[a + u + 1..b];
      VersionExactly(line[u + 1..]);
    }
    if RequestParts(d, a, b, o, h) {
      RequestLineIs(d, a, b, o, h);
    }
  }

  /** A request line is taken where there is one, and nowhere else. */
  lemma RequestExactly(d: seq<byte>, h: Head)
    ensures FirstLine(Request, d) == h && h.err == NoErr <==> RequestIs(d, h)
  {
    hide Find, SkipLines, LineIs, RequestLine, IsV1, Version11, NextSpace;
    var a := SkipLines(d, 0);
    var nl := Find(d, LF, a);
    LineExactly(d, h.method_.start, h.proto.start + h.proto.len, h.off);
    if nl < |d| {
      var b := if nl > a && d[nl - 1] == CR then nl - 1 else nl;
      LineExactly(d, a, b, nl + 1);
      if a + 5 <= b {
        RequestLineExactly(d, a, b, nl + 1, h);
      }
    }
  }

  lemma StatusLineIs(d: seq<byte>, a: nat, b: nat, o: nat, h: Head)
    requires a + 5 <= b <= |d| && StatusParts(d, a, b, o, h)
    ensures ResponseLine(d[a..b], a, o) == h
  {
    hide Find, IsV1, Version1, Version11, NextSpace, Without;
    var line, s, c := d[a..b], h.code.start - 1, h.code.start + h.code.len;
    SpaceExactly(d, a, b, 0, s);
    SpaceExactly(d, a, b, s + 1 - a, c);
    assert line[..s - a] == d[a..s];
    VersionExactly(line[..s - a]);
    assert forall i :: s - a < i < c - a ==> line[i] == d[a + i];
  }

  lemma StatusLineExactly(d: seq<byte>, a: nat, b: nat, o: nat, h: Head)
    requires a + 5 <= b <= |d|
    ensures ResponseLine(d[a..b], a, o) == h && h.err == NoErr <==> StatusParts(d, a, b, o, h)
  {
    hide Find, IsV1, Version1, Version11, NextSpace, Without;
    var line := d[a..b];
    if ResponseLine(line, a, o) == h && h.err == NoErr {
      var sp := Find(line, SP, 0);
      var c := Find(line, SP, sp + 1);
      SpaceExactly(d, a, b, 0, a + sp);
      SpaceExactly(d, a, b, sp + 1, a + c);
      assert line[..sp] == d[a..a + sp];
      VersionExactly(line[..sp]);
      assert forall i :: a + sp < i < a + c ==> d[i] == line[i - a];
    }
    if StatusParts(d, a, b, o, h) {
      StatusLineIs(d, a, b, o, h);
    }
  }

  /** A status line is taken where there is one, and nowhere else. */
  lemma StatusExactly(d: seq<byte>, h: Head)
    ensures FirstLine(Response, d) == h && h.err == NoErr <==> exists a, b :: StatusIs(d, a, b, h)
  {
    hide Find, SkipLines, LineIs, ResponseLine, IsV1, Version11, NextSpace;
    var a := SkipLines(d, 0);
    var nl := Find(d, LF, a);
    if exists a', b' :: StatusIs(d, a', b', h) {
      var a', b' :| StatusIs(d, a', b', h);
      LineExactly(d, a', b', h.off);
      StatusLineExactly(d, a', b', h.off, h);
    }
    if nl < |d| {
      var b := if nl > a && d[nl - 1] == CR then nl - 1 else nl;
      LineExactly(d, a, b, nl + 1);
      if a + 5 <= b {
        StatusLineExactly(d, a, b, nl + 1, h);
        assert FirstLine(Response, d) == h && h.err == NoErr ==> StatusIs(d, a, b, h);
      }
    }
  }

  // ---- whole headers

  /** What a header holds: a first line and fields up to an empty line at `s.off`. */
  ghost predicate HeaderIs(kind: Kind, d: seq<byte>, s: Parsed) {
    exists h :: HeadIs(kind, d, h) && s == WithHead(INITIAL, h).(fields := s.fields, off := s.off)
                && FieldsAre(d, h.off, s.fields, s.off)
  }

  ghost predicate HeadIs(kind: Kind, d: seq<byte>, h: Head) {
    if kind.Request? then RequestIs(d, h) else exists a, b :: StatusIs(d, a, b, h)
  }

  /** Parsing succeeds on exactly the bytes that are a header, and its result is what they hold. */
  lemma HeaderExactly(kind: Kind, d: seq<byte>, s: Parsed)
    ensures OneShot(kind, d) == (s, NoErr) <==> HeaderIs(kind, d, s)
  {
    hide FirstLine, FieldsFrom, FieldsAre, RequestIs, StatusIs;
    var h := FirstLine(kind, d);
    RequestExactly(d, h);
    StatusExactly(d, h);
    if OneShot(kind, d) == (s, NoErr) {
      FieldsExactly(d, h.off, s.fields, s.off);
      assert HeadIs(kind, d, h);
    }
    if HeaderIs(kind, d, s) {
      var g :| HeadIs(kind, d, g) && s == WithHead(INITIAL, g).(fields := s.fields, off := s.off)
               && FieldsAre(d, g.off, s.fields, s.off);
      RequestExactly(d, g);
      StatusExactly(d, g);
      FieldsExactly(d, h.off, s.fields, s.off);
      assert [] + s.fields == s.fields;
    }
  }
}
