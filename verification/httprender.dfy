/**
  Headers as they are written (http/httpraw/headerv1.go) and what the parser makes of them: the bytes it selects for
  each part are the ones that were written there.
*/
module HttpRender {
  import opened Bytes
  import opened Options
  import opened HttpHead
  import opened HttpStream

  const LINE_END: seq<byte> := [CR, LF]

  /** A field before it is written; `gap` spaces go between the colon and the value. */
  datatype Header = Header(name: seq<byte>, gap: nat, value: seq<byte>)

  function Spaces(n: nat): (s: seq<byte>)
    ensures |s| == n && forall i :: 0 <= i < n ==> s[i] == SP
  {
    if n == 0 then [] else [SP] + Spaces(n - 1)
  }

  function WriteField(f: Header): seq<byte> {
    f.name + [COLON] + Spaces(f.gap) + f.value + LINE_END
  }

  function WriteFields(fs: seq<Header>): seq<byte> {
    if fs == [] then [] else WriteField(fs[0]) + WriteFields(fs[1..])
  }

  function WriteRequest(verb: seq<byte>, target: seq<byte>, proto: seq<byte>, fs: seq<Header>): seq<byte> {
    verb + [SP] + target + [SP] + proto + LINE_END + WriteFields(fs) + LINE_END
  }

  /** The reason phrase may be left out, with the space before it. */
  function WriteResponse(proto: seq<byte>, code: seq<byte>, text: Option<seq<byte>>, fs: seq<Header>): seq<byte> {
    proto + [SP] + code + (if text.Some? then [SP] + text.value else []) + LINE_END + WriteFields(fs) + LINE_END
  }

  // ---- what may be written

  predicate LegalName(name: seq<byte>) {
    COLON !in name && SP !in name && TAB !in name && LF !in name
  }

  /** Leading spaces belong to the gap, and a line break only goes before white space: the value's next line. */
  predicate LegalValue(value: seq<byte>) {
    && (value != [] ==> value[0] != SP)
    && forall i :: 0 <= i < |value| && value[i] == LF ==> i + 1 < |value| && Blank(value[i + 1])
  }

  predicate Legal(f: Header) {
    LegalName(f.name) && LegalValue(f.value)
  }

  predicate AllLegal(fs: seq<Header>) {
    forall i :: 0 <= i < |fs| ==> Legal(fs[i])
  }

  predicate IsProto(proto: seq<byte>) {
    HTTP1 <= proto && LF !in proto
  }

  predicate LegalRequest(verb: seq<byte>, target: seq<byte>, proto: seq<byte>) {
    && SP !in verb && LF !in verb && (verb != [] ==> verb[0] != CR)
    && target != [] && SP !in target && LF !in target && IsProto(proto)
  }

  predicate LegalStatus(proto: seq<byte>, code: seq<byte>, text: Option<seq<byte>>) {
    && IsProto(proto) && SP !in proto && |code| <= 3 && (forall i :: 0 <= i < |code| ==> 48 <= code[i] <= 57)
    && (text.Some? ==> LF !in text.value)
  }

  // ---- what is read

  /** The view selects `text` in the buffer. */
  predicate Selects(d: seq<byte>, v: View, text: seq<byte>) {
    v.start + v.len <= |d| && d[v.start..v.start + v.len] == text
  }

  predicate SelectsField(d: seq<byte>, f: Field, h: Header) {
    Selects(d, f.key, h.name) && Selects(d, f.value, h.value)
  }

  predicate SelectsAll(d: seq<byte>, fields: seq<Field>, fs: seq<Header>) {
    |fields| == |fs| && forall i :: 0 <= i < |fs| ==> SelectsField(d, fields[i], fs[i])
  }

  // ---- searches

  lemma {:induction false} SkipIs(d: seq<byte>, c: byte, from: nat, i: nat)
    requires from <= i < |d| && d[i] != c && forall k :: from <= k < i ==> d[k] == c
    ensures Skip(d, c, from) == i
    decreases i - from
  {
    if from < i {
      SkipIs(d, c, from + 1, i);
    }
  }

  lemma {:induction false} ValueEndIs(d: seq<byte>, from: nat, nl: nat)
    requires from <= nl && nl + 1 < |d| && d[nl] == LF && !Blank(d[nl + 1])
    requires forall k :: from <= k < nl && d[k] == LF ==> Blank(d[k + 1])
    ensures ValueEnd(d, from) == nl
    decreases nl - from
  {
    hide Find;
    var f := Find(d, LF, from);
    assert f <= nl;
    if f < nl {
      ValueEndIs(d, f + 1, nl);
    }
  }

  // ---- one field

  /** Where the parts of a field lie: name, colon, gap, value, line end. */
  predicate Laid(d: seq<byte>, a: nat, f: Header) {
    var n, v, e := a + |f.name|, a + |f.name| + 1 + f.gap, a + |f.name| + 1 + f.gap + |f.value|;
    && e + 2 < |d| && d[a..n] == f.name && d[n] == COLON && (forall k :: n < k < v ==> d[k] == SP)
    && d[v..e] == f.value && d[e] == CR && d[e + 1] == LF && !Blank(d[e + 2])
  }

  lemma WrittenLies(d: seq<byte>, pre: seq<byte>, f: Header, post: seq<byte>)
    requires d == pre + WriteField(f) + post && post != [] && !Blank(post[0])
    ensures Laid(d, |pre|, f) && |WriteField(f)| == |f.name| + 1 + f.gap + |f.value| + 2
  {
    hide Spaces;
    var a := |pre|;
    var n, v, e := a + |f.name|, a + |f.name| + 1 + f.gap, a + |f.name| + 1 + f.gap + |f.value|;
    assert d[a..n] == f.name && d[v..e] == f.value;
    assert d[n + 1..v] == Spaces(f.gap);
    forall k | n < k < v
      ensures d[k] == SP
    {
      assert d[k] == d[n + 1..v][k - n - 1];
    }
  }

  /** A field that lies there is read, and its name and value are the bytes of it. */
  lemma FieldReads(d: seq<byte>, a: nat, f: Header)
    requires Laid(d, a, f) && Legal(f)
    ensures var n, v := a + |f.name|, a + |f.name| + 1 + f.gap;
            && NextItem(d, a) == Item(Field(View(a, |f.name|), View(v, |f.value|)), v + |f.value| + 2)
            && SelectsField(d, Field(View(a, |f.name|), View(v, |f.value|)), f)
  {
    hide Find, Skip, ValueEnd, NextItem, Legal;
    var v, e := a + |f.name| + 1 + f.gap, a + |f.name| + 1 + f.gap + |f.value|;
    NameReads(d, a, f);
    LegalParts(f);
    ValueBytes(d, a, f);
    ValueEndIs(d, v, e + 1);
  }

  lemma LegalParts(f: Header)
    requires Legal(f)
    ensures LegalName(f.name) && LegalValue(f.value)
  {
  }

  /** The name ends at its colon, and the value starts behind the gap. */
  lemma NameReads(d: seq<byte>, a: nat, f: Header)
    requires Laid(d, a, f) && Legal(f)
    ensures var n, v := a + |f.name|, a + |f.name| + 1 + f.gap;
            NextItem(d, a) == WithValue(d, a, n, v)
  {
    hide Find, Skip, WithValue;
    var n, v := a + |f.name|, a + |f.name| + 1 + f.gap;
    NameBytes(d, a, f);
    FindIs(d, COLON, a, n);
    ValueBytes(d, a, f);
    SkipIs(d, SP, n + 1, v);
  }

  lemma NameBytes(d: seq<byte>, a: nat, f: Header)
    requires Laid(d, a, f) && LegalName(f.name)
    ensures var n := a + |f.name|;
            forall k :: a <= k < n ==> d[k] != COLON && d[k] != SP && d[k] != TAB && d[k] != LF
  {
    forall k | a <= k < a + |f.name|
      ensures d[k] != COLON && d[k] != SP && d[k] != TAB && d[k] != LF
    {
      assert d[k] == f.name[k - a];
    }
  }

  lemma ValueBytes(d: seq<byte>, a: nat, f: Header)
    requires Laid(d, a, f) && LegalValue(f.value)
    ensures var v, e := a + |f.name| + 1 + f.gap, a + |f.name| + 1 + f.gap + |f.value|;
            d[v] != SP && forall k :: v <= k < e + 1 && d[k] == LF ==> Blank(d[k + 1])
  {
    var v, e := a + |f.name| + 1 + f.gap, a + |f.name| + 1 + f.gap + |f.value|;
    assert v < e ==> d[v] == f.value[0];
    forall k | v <= k < e + 1 && d[k] == LF
      ensures Blank(d[k + 1])
    {
      assert k < e ==> d[k] == f.value[k - v];
      assert k + 1 < e ==> d[k + 1] == f.value[k + 1 - v];
    }
  }

  // ---- all fields

  lemma EndReads(d: seq<byte>, a: nat)
    requires a + 2 <= |d| && d[a] == CR && d[a + 1] == LF
    ensures NextItem(d, a) == End(a + 2)
  {
  }

  /** What follows a field is the next field or the end of the header, never white space. */
  lemma NextByte(fs: seq<Header>, post: seq<byte>)
    requires AllLegal(fs)
    ensures var more := WriteFields(fs) + LINE_END + post; more != [] && !Blank(more[0])
  {
    if fs != [] {
      assert Legal(fs[0]);
      assert fs[0].name != [] ==> WriteField(fs[0])[0] == fs[0].name[0];
      assert fs[0].name == [] ==> WriteField(fs[0])[0] == COLON;
    }
  }

  lemma {:induction false} FieldsRead(d: seq<byte>, pre: seq<byte>, fs: seq<Header>, post: seq<byte>)
    requires AllLegal(fs) && d == pre + WriteFields(fs) + LINE_END + post
    ensures var r := FieldsFrom(d, |pre|);
            r.err == NoErr && r.off == |pre| + |WriteFields(fs)| + 2 && SelectsAll(d, r.fields, fs)
    decreases |fs|
  {
    hide NextItem, Legal, WriteField;
    if fs == [] {
      assert d[|pre|] == CR && d[|pre| + 1] == LF;
      EndReads(d, |pre|);
    } else {
      var f, more := fs[0], WriteFields(fs[1..]) + LINE_END + post;
      assert AllLegal(fs[1..]);
      NextByte(fs[1..], post);
      assert d == pre + WriteField(f) + more;
      WrittenLies(d, pre, f, more);
      FieldReads(d, |pre|, f);
      var pre' := pre + WriteField(f);
      assert d == pre' + WriteFields(fs[1..]) + LINE_END + post;
      FieldsRead(d, pre', fs[1..], post);
      AllSelected(d, NextItem(d, |pre|).field, FieldsFrom(d, |pre'|).fields, fs);
    }
  }

  lemma AllSelected(d: seq<byte>, f: Field, more: seq<Field>, fs: seq<Header>)
    requires fs != [] && SelectsField(d, f, fs[0]) && SelectsAll(d, more, fs[1..])
    ensures SelectsAll(d, [f] + more, fs)
  {
    hide SelectsField;
    forall i | 0 <= i < |fs|
      ensures SelectsField(d, ([f] + more)[i], fs[i])
    {
      assert i > 0 ==> fs[i] == fs[1..][i - 1];
    }
  }

  // ---- the first line

  /** A line at the front of the buffer is handed on without its end. */
  lemma LineReads(kind: Kind, d: seq<byte>, line: seq<byte>, post: seq<byte>)
    requires d == line + LINE_END + post && |line| >= 5 && LF !in line && line[0] != CR
    ensures FirstLine(kind, d) ==
            if kind.Request? then RequestLine(line, 0, |line| + 2) else ResponseLine(line, 0, |line| + 2)
  {
    hide Find, RequestLine, ResponseLine;
    assert d[0] == line[0] && d[..|line|] == line && d[|line|] == CR && d[|line| + 1] == LF;
    assert SkipLines(d, 0) == 0;
    forall k | 0 <= k < |line| + 1
      ensures d[k] != LF
    {
      assert k < |line| ==> d[k] == line[k];
    }
    FindIs(d, LF, 0, |line| + 1);
    assert d[0..|line|] == line;
  }

  lemma SelectsPart(d: seq<byte>, line: seq<byte>, i: nat, j: nat)
    requires line <= d && i <= j <= |line|
    ensures Selects(d, View(i, j - i), line[i..j])
  {
    assert d[..|line|] == line;
  }

  function RequestText(verb: seq<byte>, target: seq<byte>, proto: seq<byte>): seq<byte> {
    verb + [SP] + target + [SP] + proto
  }

  /** Where the two spaces of a request line are, and what lies around them. */
  lemma RequestCuts(verb: seq<byte>, target: seq<byte>, proto: seq<byte>)
    requires LegalRequest(verb, target, proto)
    ensures var line, m, u := RequestText(verb, target, proto), |verb|, |verb| + 1 + |target|;
            && u < |line| && Find(line, SP, 0) == m && Find(line, SP, m + 1) == u
            && line[0..m] == verb && line[m + 1..u] == target && line[u + 1..] == line[u + 1..|line|] == proto
  {
    hide Find;
    var line, m := RequestText(verb, target, proto), |verb|;
    var u := m + 1 + |target|;
    assert line[0..m] == verb && line[m] == SP && line[m + 1..u] == target && line[u] == SP && line[u + 1..] == proto;
    forall k | 0 <= k < m
      ensures line[k] != SP
    {
      assert line[k] == verb[k];
    }
    FindIs(line, SP, 0, m);
    forall k | m + 1 <= k < u
      ensures line[k] != SP
    {
      assert line[k] == target[k - m - 1];
    }
    FindIs(line, SP, m + 1, u);
  }

  lemma RequestReads(d: seq<byte>, verb: seq<byte>, target: seq<byte>, proto: seq<byte>, off: nat)
    requires LegalRequest(verb, target, proto) && RequestText(verb, target, proto) <= d
    ensures |RequestText(verb, target, proto)| >= 5
    ensures var h := RequestLine(RequestText(verb, target, proto), 0, off);
            && h.err == NoErr && h.noV11 == (proto != HTTP11) && h.code == h.text == NO_VIEW
            && Selects(d, h.method_, verb) && Selects(d, h.target, target) && Selects(d, h.proto, proto)
  {
    hide Find, Selects, IsV1, RequestText;
    var line, m, u := RequestText(verb, target, proto), |verb|, |verb| + 1 + |target|;
    RequestCuts(verb, target, proto);
    ProtoIsV1(proto);
    SelectsPart(d, line, 0, m);
    SelectsPart(d, line, m + 1, u);
    SelectsPart(d, line, u + 1, |line|);
  }

  lemma ProtoIsV1(proto: seq<byte>)
    requires HTTP1 <= proto
    ensures IsV1(proto) && |proto| >= 7 && proto[0] == 72
  {
    assert proto[..7] == HTTP1;
  }

  function StatusText(proto: seq<byte>, code: seq<byte>, text: Option<seq<byte>>): seq<byte> {
    proto + [SP] + code + (if text.Some? then [SP] + text.value else [])
  }

  /** Where the spaces of a status line are, and what lies around them. */
  lemma StatusCuts(proto: seq<byte>, code: seq<byte>, text: Option<seq<byte>>)
    requires LegalStatus(proto, code, text)
    ensures var line, m, c := StatusText(proto, code, text), |proto|, |proto| + 1 + |code|;
            && c <= |line| && Find(line, SP, 0) == m && Find(line, SP, m + 1) == c && (c < |line| <==> text.Some?)
            && line[..m] == proto && line[m + 1..c] == code && (forall k :: m + 1 <= k < c ==> 48 <= line[k] <= 57)
            && (text.Some? ==> line[c + 1..|line|] == text.value)
  {
    hide Find;
    var line, m := StatusText(proto, code, text), |proto|;
    var c := m + 1 + |code|;
    assert line[..m] == proto && line[m] == SP && line[m + 1..c] == code;
    forall k | 0 <= k < m
      ensures line[k] != SP
    {
      assert line[k] == proto[k];
    }
    FindIs(line, SP, 0, m);
    forall k | m + 1 <= k < c
      ensures 48 <= line[k] <= 57
    {
      assert line[k] == code[k - m - 1];
    }
    if text.Some? {
      assert line[c] == SP && line[c + 1..|line|] == text.value;
      FindIs(line, SP, m + 1, c);
    }
  }

  lemma StatusReads(d: seq<byte>, proto: seq<byte>, code: seq<byte>, text: Option<seq<byte>>, off: nat)
    requires LegalStatus(proto, code, text) && StatusText(proto, code, text) <= d
    ensures |StatusText(proto, code, text)| >= 5
    ensures var h := ResponseLine(StatusText(proto, code, text), 0, off);
            && h.err == NoErr && Selects(d, h.code, code)
            && Selects(d, h.text, if text.Some? then text.value else [])
            && h.noV11 == (proto != HTTP11) && h.code.len == |code|
  {
    hide Find, Selects, IsV1, StatusText;
    var line, m, c := StatusText(proto, code, text), |proto|, |proto| + 1 + |code|;
    StatusCuts(proto, code, text);
    ProtoIsV1(proto);
    SelectsPart(d, line, m + 1, c);
    SelectsPart(d, line, if text.Some? then c + 1 else 0, if text.Some? then |line| else 0);
  }

  // ---- whole headers

  /**
    A request written by these rules parses, whatever follows it: to its own end, and each part selects the bytes
    that were written for it.
  */
  lemma RequestParses(verb: seq<byte>, target: seq<byte>, proto: seq<byte>, fs: seq<Header>, body: seq<byte>)
    requires LegalRequest(verb, target, proto) && AllLegal(fs)
    ensures var w := WriteRequest(verb, target, proto, fs);
            var (p, err) := OneShot(Request, w + body);
            && err == NoErr && p.off == |w|
            && Selects(w + body, p.method_, verb) && Selects(w + body, p.target, target)
            && Selects(w + body, p.proto, proto) && p.noV11 == (proto != HTTP11)
            && SelectsAll(w + body, p.fields, fs)
  {
    hide FirstLine, RequestLine, FieldsFrom, Find, OneShot, WriteFields, Legal;
    var line, w := RequestText(verb, target, proto), WriteRequest(verb, target, proto, fs);
    var d, rest := w + body, WriteFields(fs) + LINE_END + body;
    assert d == line + LINE_END + rest;
    RequestReads(d, verb, target, proto, |line| + 2);
    RequestChars(verb, target, proto);
    LineReads(Request, d, line, rest);
    assert d == (line + LINE_END) + WriteFields(fs) + LINE_END + body;
    FieldsRead(d, line + LINE_END, fs, body);
    OneShotIs(Request, d);
  }

  lemma RequestChars(verb: seq<byte>, target: seq<byte>, proto: seq<byte>)
    requires LegalRequest(verb, target, proto)
    ensures var line := RequestText(verb, target, proto); |line| > 0 && LF !in line && line[0] != CR
  {
    assert verb != [] ==> RequestText(verb, target, proto)[0] == verb[0];
  }

  /** So does a response. */
  lemma ResponseParses(proto: seq<byte>, code: seq<byte>, text: Option<seq<byte>>, fs: seq<Header>, body: seq<byte>)
    requires LegalStatus(proto, code, text) && AllLegal(fs)
    ensures var w := WriteResponse(proto, code, text, fs);
            var (p, err) := OneShot(Response, w + body);
            && err == NoErr && p.off == |w|
            && Selects(w + body, p.code, code) && Selects(w + body, p.text, if text.Some? then text.value else [])
            && p.noV11 == (proto != HTTP11) && SelectsAll(w + body, p.fields, fs)
  {
    hide FirstLine, ResponseLine, FieldsFrom, Find, OneShot, WriteFields, Legal;
    var line, w := StatusText(proto, code, text), WriteResponse(proto, code, text, fs);
    var d, rest := w + body, WriteFields(fs) + LINE_END + body;
    assert d == line + LINE_END + rest;
    StatusReads(d, proto, code, text, |line| + 2);
    StatusChars(proto, code, text);
    LineReads(Response, d, line, rest);
    assert d == (line + LINE_END) + WriteFields(fs) + LINE_END + body;
    FieldsRead(d, line + LINE_END, fs, body);
    OneShotIs(Response, d);
  }

  lemma StatusChars(proto: seq<byte>, code: seq<byte>, text: Option<seq<byte>>)
    requires LegalStatus(proto, code, text)
    ensures var line := StatusText(proto, code, text); |line| > 0 && LF !in line && line[0] != CR
  {
    ProtoIsV1(proto);
    assert StatusText(proto, code, text)[0] == proto[0];
    assert LF !in code;
  }

  /** A request received in any pieces: the same parts. */
  lemma PiecesParse(verb: seq<byte>, target: seq<byte>, proto: seq<byte>, fs: seq<Header>, chunks: seq<seq<byte>>)
    requires LegalRequest(verb, target, proto) && AllLegal(fs)
    requires Pieces(chunks, WriteRequest(verb, target, proto, fs))
    ensures var w := WriteRequest(verb, target, proto, fs);
            var (p, err) := Stream(Request, INITIAL, [], chunks);
            && err == NoErr && p.off == |w|
            && Selects(w, p.method_, verb) && Selects(w, p.target, target) && Selects(w, p.proto, proto)
            && SelectsAll(w, p.fields, fs)
  {
    hide OneShot, Stream, WriteRequest, LegalRequest, Selects, SelectsAll, AllLegal;
    var w := WriteRequest(verb, target, proto, fs);
    assert w + [] == w;
    RequestParses(verb, target, proto, fs, []);
    RequestStreams(chunks);
  }

  /** A response with a status code, received in any pieces. */
  lemma ResponsePieces(proto: seq<byte>, code: seq<byte>, text: Option<seq<byte>>, fs: seq<Header>,
                       chunks: seq<seq<byte>>)
    requires LegalStatus(proto, code, text) && code != [] && AllLegal(fs)
    requires Pieces(chunks, WriteResponse(proto, code, text, fs))
    ensures var w := WriteResponse(proto, code, text, fs);
            var (p, err) := Stream(Response, INITIAL, [], chunks);
            && err == NoErr && p.off == |w| && Selects(w, p.code, code)
            && Selects(w, p.text, if text.Some? then text.value else []) && SelectsAll(w, p.fields, fs)
  {
    hide OneShot, Stream, WriteResponse, LegalStatus, AllLegal, FirstLine, NextItem;
    var w := WriteResponse(proto, code, text, fs);
    assert w + [] == w;
    ResponseParses(proto, code, text, fs, []);
    OneShotIs(Response, w);
    ResponseExactly(w);
  }

  /** The bytes of "GET / HTTP/1.1", a Host field and the end of the header. */
  lemma WrittenExample()
    ensures var host := Header([72, 111, 115, 116], 1, [97]);
            WriteRequest([71, 69, 84], [47], [72, 84, 84, 80, 47, 49, 46, 49], [host]) ==
            [71, 69, 84, 32, 47, 32, 72, 84, 84, 80, 47, 49, 46, 49, 13, 10,
             72, 111, 115, 116, 58, 32, 97, 13, 10, 13, 10]
  {
    assert Spaces(1) == [32] + Spaces(0);
  }
}
