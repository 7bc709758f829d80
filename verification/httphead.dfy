/**
  HTTP/1 header parsing (http/httpraw/parsev1.go) as functions of the bytes received so far: the first
  line, one field, all fields. Views are (start, length) pairs into the buffer.
*/
module HttpHead {
  import opened Bytes

  const SP: byte := 32
  const TAB: byte := 9
  const COLON: byte := 58
  const MAX_BUF := 0xffff
  const HTTP1: seq<byte> := [72, 84, 84, 80, 47, 49, 46]     // "HTTP/1."
  const HTTP11: seq<byte> := HTTP1 + [49]

  datatype View = View(start: nat, len: nat)

  const NO_VIEW := View(0, 0)

  datatype Field = Field(key: View, value: View)

  datatype Err =
    | NoErr | NeedMore | InvalidName | EmptyTarget | Unsupported | LongCode | BadCode | TooLarge | AlreadyParsed

  datatype Kind = Request | Response

  /** First byte at or after `from` that is not `c`, or the length. */
  function Skip(d: seq<byte>, c: byte, from: nat): (i: nat)
    requires from <= |d|
    ensures from <= i <= |d| && (i < |d| ==> d[i] != c)
    decreases |d| - from
  {
    if from == |d| || d[from] != c then from else Skip(d, c, from + 1)
  }

  function SkipLines(d: seq<byte>, from: nat): (i: nat)
    requires from <= |d|
    ensures from <= i <= |d|
    decreases |d| - from
  {
    if from == |d| || (d[from] != CR && d[from] != LF) then from else SkipLines(d, from + 1)
  }

  // ---- the first line

  datatype Head = Head(err: Err, off: nat, method_: View, target: View, proto: View, code: View, text: View,
                       noV11: bool)

  function Failed(err: Err, off: nat): Head {
    Head(err, off, NO_VIEW, NO_VIEW, NO_VIEW, NO_VIEW, NO_VIEW, false)
  }

  predicate IsV1(proto: seq<byte>) {
    proto[..Min(|HTTP1|, |proto|)] == HTTP1
  }

  /** The first line of a request or a response, with the offset past it. */
  function FirstLine(kind: Kind, d: seq<byte>): (h: Head)
    ensures h.off <= |d|
  {
    var a := SkipLines(d, 0);
    var nl := Find(d, LF, a);
    if nl == |d| then Failed(NeedMore, a)
    else
      var b := if nl > a && d[nl - 1] == CR then nl - 1 else nl;
      if b - a < 5 then Failed(NeedMore, nl + 1)
      else if kind.Request? then RequestLine(d[a..b], a, nl + 1)
      else ResponseLine(d[a..b], a, nl + 1)
  }

  /** A request line, `a` being its position. */
  function RequestLine(line: seq<byte>, a: nat, off: nat): (h: Head)
    requires |line| >= 5
    ensures h.off == off && h.err != NeedMore && (h.err == NoErr ==> h.target.start > 0)
  {
    var sp := Find(line, SP, 0);
    var m := if sp < |line| then sp else 0;
    var u := Find(line, SP, m + 1);
    var target := View(a + m + 1, u - m - 1);
    if u == |line| then Failed(Unsupported, off).(target := target, method_ := View(a, m), noV11 := true)
    else if u == m + 1 then Failed(EmptyTarget, off)
    else
      var proto := line[u + 1..];
      var h := Head(NoErr, off, View(a, m), target, View(a + u + 1, |proto|), NO_VIEW, NO_VIEW, proto != HTTP11);
      if IsV1(proto) then h else h.(err := Unsupported, noV11 := true)
  }

  /** A status line, `a` being its position. */
  function ResponseLine(line: seq<byte>, a: nat, off: nat): (h: Head)
    ensures h.off == off
  {
    var sp := Find(line, SP, 0);
    if sp == |line| then Failed(NeedMore, off)
    else if !IsV1(line[..sp]) then Failed(Unsupported, off).(noV11 := true)
    else
      var noV11 := line[..sp] != HTTP11;
      var c := Find(line, SP, sp + 1);
      if c - sp - 1 > 3 then Failed(LongCode, off).(noV11 := noV11)
      else if exists i :: sp + 1 <= i < c && !(48 <= line[i] <= 57) then Failed(BadCode, off).(noV11 := noV11)
      else
        Head(NoErr, off, NO_VIEW, NO_VIEW, NO_VIEW, View(a + sp + 1, c - sp - 1),
             if c < |line| then View(a + c + 1, |line| - c - 1) else NO_VIEW, noV11)
  }

  // ---- fields

  datatype Item = End(off: nat) | Pause | Bad | Item(field: Field, off: nat)

  predicate Blank(c: byte) {
    c == SP || c == TAB
  }

  /**
    Index of the newline that ends the value reaching `from`: one not followed by white space; the length if
    unknown yet.
  */
  function ValueEnd(d: seq<byte>, from: nat): (nl: nat)
    requires from <= |d|
    ensures from <= nl <= |d|
    ensures nl < |d| ==> nl + 1 < |d| && d[nl] == LF && !Blank(d[nl + 1])
    decreases |d| - from
  {
    var nl := Find(d, LF, from);
    if nl == |d| || nl + 1 == |d| then |d|
    else if Blank(d[nl + 1]) then ValueEnd(d, nl + 1)
    else nl
  }

  /** `next`: the field that starts at `off`. */
  function NextItem(d: seq<byte>, off: nat): (r: Item)
    requires off <= |d|
    ensures (r.End? || r.Item?) ==> off < r.off <= |d|
    ensures r.Item? ==> r.off < |d|
  {
    if off + 2 <= |d| && d[off] == CR && d[off + 1] == LF then End(off + 2)
    else if off < |d| && d[off] == LF then End(off + 1)
    else
      var n, x := Find(d, COLON, off), Find(d, LF, off);
      if x == |d| then Pause
      else if x < n || Find(d, SP, off) < n || Find(d, TAB, off) < n then Bad
      else
        SkipBefore(d, SP, n + 1, x);
        WithValue(d, off, n, Skip(d, SP, n + 1))
  }

  /** The field whose name ends at `n` and whose value starts at `v`. */
  function WithValue(d: seq<byte>, off: nat, n: nat, v: nat): (r: Item)
    requires off <= n < v < |d|
    ensures r.Pause? || (r.Item? && n < r.off < |d|)
  {
    var nl := ValueEnd(d, v);
    if nl == |d| then Pause
    else
      var e := if nl > v && d[nl - 1] == CR then nl - 1 else nl;
      Item(Field(View(off, n - off), View(v, e - v)), nl + 1)
  }

  datatype Fields = Fields(fields: seq<Field>, off: nat, err: Err)

  /** All fields from `off` on. */
  function FieldsFrom(d: seq<byte>, off: nat): (r: Fields)
    requires off <= |d|
    ensures r.off <= |d|
    decreases |d| - off
  {
    match NextItem(d, off)
    case End(o) => Fields([], o, NoErr)
    case Pause => Fields([], off, NeedMore)
    case Bad => Fields([], off, InvalidName)
    case Item(f, o) =>
      var r := FieldsFrom(d, o);
      Fields([f] + r.fields, r.off, r.err)
  }

  // ---- more data does not change an answer

  lemma {:induction false} FindExtended(d: seq<byte>, e: seq<byte>, c: byte, from: nat)
    requires from <= |d| && Find(d, c, from) < |d|
    ensures Find(d + e, c, from) == Find(d, c, from)
    decreases |d| - from
  {
    if d[from] != c {
      FindExtended(d, e, c, from + 1);
    }
  }

  lemma {:induction false} FindLater(d: seq<byte>, e: seq<byte>, c: byte, from: nat)
    requires from <= |d| && Find(d, c, from) == |d|
    ensures Find(d + e, c, from) >= |d|
    decreases |d| - from
  {
    if from < |d| {
      FindLater(d, e, c, from + 1);
    }
  }

  lemma {:induction false} SkipExtended(d: seq<byte>, e: seq<byte>, c: byte, from: nat)
    requires from <= |d| && Skip(d, c, from) < |d|
    ensures Skip(d + e, c, from) == Skip(d, c, from)
    decreases |d| - from
  {
    if d[from] == c {
      SkipExtended(d, e, c, from + 1);
    }
  }

  lemma {:induction false} SkipLinesExtended(d: seq<byte>, e: seq<byte>, from: nat)
    requires from <= |d| && SkipLines(d, from) < |d|
    ensures SkipLines(d + e, from) == SkipLines(d, from)
    decreases |d| - from
  {
    if d[from] == CR || d[from] == LF {
      SkipLinesExtended(d, e, from + 1);
    }
  }

  lemma {:induction false} ValueEndExtended(d: seq<byte>, e: seq<byte>, from: nat)
    requires from <= |d| && ValueEnd(d, from) < |d|
    ensures ValueEnd(d + e, from) == ValueEnd(d, from)
    decreases |d| - from
  {
    var nl := Find(d, LF, from);
    FindExtended(d, e, LF, from);
    if Blank(d[nl + 1]) {
      ValueEndExtended(d, e, nl + 1);
    }
  }

  /** A line stop bounds a skip and a search. */
  lemma {:induction false} SkipBefore(d: seq<byte>, c: byte, from: nat, x: nat)
    requires from <= x < |d| && d[x] != c
    ensures Skip(d, c, from) <= x
    decreases x - from
  {
    if from < x && d[from] == c {
      SkipBefore(d, c, from + 1, x);
    }
  }

  lemma ItemExtended(d: seq<byte>, e: seq<byte>, off: nat)
    requires off <= |d| && NextItem(d, off) != Pause
    ensures NextItem(d + e, off) == NextItem(d, off)
  {
    hide Find, Skip, ValueEnd, WithValue;
    if (off + 2 <= |d| && d[off] == CR && d[off + 1] == LF) || (off < |d| && d[off] == LF) {
    } else {
      var n, x := Find(d, COLON, off), Find(d, LF, off);
      FindExtended(d, e, LF, off);
      if n < |d| {
        FindExtended(d, e, COLON, off);
      } else {
        FindLater(d, e, COLON, off);
      }
      if n < x {
        FindAgrees(d, e, SP, off, n);
        FindAgrees(d, e, TAB, off, n);
        SkipBefore(d, SP, n + 1, x);
        SkipExtended(d, e, SP, n + 1);
        ValueExtended(d, e, off, n, Skip(d, SP, n + 1));
      }
    }
  }

  lemma ValueExtended(d: seq<byte>, e: seq<byte>, off: nat, n: nat, v: nat)
    requires off <= n < v < |d|
    ensures WithValue(d, off, n, v) != Pause ==> WithValue(d + e, off, n, v) == WithValue(d, off, n, v)
  {
    hide ValueEnd;
    if ValueEnd(d, v) < |d| {
      ValueEndExtended(d, e, v);
    }
  }

  /** A search answers alike below a bound inside the data. */
  lemma FindAgrees(d: seq<byte>, e: seq<byte>, c: byte, from: nat, n: nat)
    requires from <= n < |d|
    ensures Find(d, c, from) < n <==> Find(d + e, c, from) < n
  {
    hide Find;
    if Find(d, c, from) < |d| {
      FindExtended(d, e, c, from);
    } else {
      FindLater(d, e, c, from);
    }
  }

  lemma FirstLineExtended(kind: Kind, d: seq<byte>, e: seq<byte>)
    requires FirstLine(kind, d).err != NeedMore
    ensures FirstLine(kind, d + e) == FirstLine(kind, d)
  {
    hide Find, SkipLines, RequestLine, ResponseLine;
    var a := SkipLines(d, 0);
    var nl := Find(d, LF, a);
    SkipLinesExtended(d, e, 0);
    FindExtended(d, e, LF, a);
    var b := if nl > a && d[nl - 1] == CR then nl - 1 else nl;
    assert (d + e)[a..b] == d[a..b];
  }

  /** A settled block of fields stays as it is, and a pause goes on from where it stopped. */
  lemma {:induction false} FieldsExtended(d: seq<byte>, e: seq<byte>, off: nat)
    requires off <= |d|
    ensures var r, r' := FieldsFrom(d, off), FieldsFrom(d + e, off);
            if r.err != NeedMore then r' == r
            else
              var more := FieldsFrom(d + e, r.off);
              r' == Fields(r.fields + more.fields, more.off, more.err)
    decreases |d| - off
  {
    hide NextItem;
    if NextItem(d, off) != Pause {
      ItemExtended(d, e, off);
    }
    match NextItem(d, off) {
      case Item(f, o) =>
        FieldsExtended(d, e, o);
        var r := FieldsFrom(d, o);
        var more := FieldsFrom(d + e, r.off);
        assert [f] + (r.fields + more.fields) == [f] + r.fields + more.fields;
      case Pause =>
        assert [] + FieldsFrom(d + e, off).fields == FieldsFrom(d + e, off).fields;
      case _ =>
    }
  }
}
