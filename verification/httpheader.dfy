/** `HeaderV1` (http/httpraw/headerv1.go, http/httpraw/parsev1.go): the parser that can be resumed. */
module HttpHeaders {
  import opened Bytes
  import opened HttpHead
  import opened HttpStream

  class HeaderV1 {
    var buf: seq<byte>
    var off: nat
    var fields: seq<Field>
    var method_: View
    var target: View
    var proto: View
    var code: View
    var text: View
    var noV11: bool
    var connClose: bool
    var done: bool

    ghost predicate Valid()
      reads this
    {
      off <= |buf| <= MAX_BUF
    }

    /** All that was parsed; `connClose` is set by every pause and left out. */
    ghost function State(): Parsed
      reads this
    {
      Parsed(method_, target, proto, code, text, noV11, fields, off)
    }

    constructor ()
      ensures Valid() && buf == [] && State() == INITIAL && !done
    {
      buf, off, fields, noV11, connClose, done := [], 0, [], false, false, false;
      method_, target, proto, code, text := NO_VIEW, NO_VIEW, NO_VIEW, NO_VIEW, NO_VIEW;
    }

    /** Accumulates; refuses nothing but an empty piece and one that would overflow the offsets. */
    method ReadFromBytes(b: seq<byte>) returns (ok: bool)
      requires Valid()
      modifies this`buf
      ensures Valid()
      ensures ok <==> b != [] && |old(buf)| + |b| <= MAX_BUF
      ensures buf == if ok then old(buf) + b else old(buf)
    {
      if |b| == 0 || |buf| + |b| > MAX_BUF {
        return false;
      }
      buf := buf + b;
      return true;
    }

    method SkipLeadingCRLF()
      requires Valid()
      modifies this`off
      ensures Valid() && off == SkipLines(buf, old(off))
    {
      while off < |buf| && (buf[off] == LF || buf[off] == CR)
        invariant off <= |buf| && SkipLines(buf, old(off)) == SkipLines(buf, off)
      {
        off := off + 1;
      }
    }

    /** The line at `off` as bounds, without its carriage return; consumes the newline when there is one. */
    method ScanLine() returns (a: nat, b: nat)
      requires Valid()
      modifies this`off
      ensures Valid()
      ensures var nl := Find(buf, LF, old(off));
              && a == old(off) && b == (if nl > a && buf[nl - 1] == CR then nl - 1 else nl)
              && off == (if nl < |buf| then nl + 1 else nl)
    {
      hide Find;
      var nl := IndexByte(buf, LF, off);
      a, b := off, nl;
      if b > a && buf[b - 1] == CR {
        b := b - 1;
      }
      off := nl;
      if off < |buf| {
        off := off + 1;
      }
    }

    /** The first line; `off` moves past it. */
    method ParseFirstLine(kind: Kind) returns (err: Err)
      requires Valid()
      modifies this
      ensures Valid() && buf == old(buf) && done == old(done) && connClose == old(connClose)
      ensures var h := FirstLine(kind, buf);
              err == h.err && State() == WithHead(old(State()), h)
    {
      hide FirstLine;
      var h := ScanFirstLine(kind);
      method_, target, proto, code, text := h.method_, h.target, h.proto, h.code, h.text;
      noV11 := noV11 || h.noV11;
      return h.err;
    }

    method ScanFirstLine(kind: Kind) returns (h: Head)
      requires Valid()
      modifies this`off
      ensures Valid() && h == FirstLine(kind, buf) && off == h.off
    {
      hide Find, SkipLines, RequestLine, ResponseLine;
      off := 0;
      SkipLeadingCRLF();
      var nl := IndexByte(buf, LF, off);
      if nl == |buf| {
        return Failed(NeedMore, off);
      }
      var a, b := ScanLine();
      if b - a < 5 {
        return Failed(NeedMore, off);
      }
      if kind.Request? {
        h := ParseRequestLine(buf[a..b], a, off);
      } else {
        h := ParseResponseLine(buf[a..b], a, off);
      }
    }

    static method ParseRequestLine(line: seq<byte>, a: nat, off: nat) returns (h: Head)
      requires |line| >= 5
      ensures h == RequestLine(line, a, off)
    {
      hide Find;
      var methodEnd := IndexByte(line, SP, 0);
      if methodEnd == |line| {
        methodEnd := 0;
      }
      var end := IndexByte(line, SP, methodEnd + 1);
      if methodEnd + 1 < end < |line| {
        var proto := line[end + 1..];
        h := Head(NoErr, off, View(a, methodEnd), View(a + methodEnd + 1, end - methodEnd - 1),
          View(a + end + 1, |proto|),
                  NO_VIEW, NO_VIEW, false);
        if !IsV1(proto) {
          h := h.(err := Unsupported, noV11 := true);
        } else if proto != HTTP11 {
          h := h.(noV11 := true);
        }
      } else if end < |line| {
        h := Failed(EmptyTarget, off);
      } else {
        h := Failed(Unsupported, off).(target := View(a + methodEnd + 1, end - methodEnd - 1),
          method_ := View(a, methodEnd), noV11 := true);
      }
    }

    static method ParseResponseLine(line: seq<byte>, a: nat, off: nat) returns (h: Head)
      ensures h == ResponseLine(line, a, off)
    {
      hide Find, IsV1;
      var protoEnd := IndexByte(line, SP, 0);
      if protoEnd == |line| {
        return Failed(NeedMore, off);
      }
      if !IsV1(line[..protoEnd]) {
        return Failed(Unsupported, off).(noV11 := true);
      }
      var noV11 := line[..protoEnd] != HTTP11;
      var codeEnd := IndexByte(line, SP, protoEnd + 1);
      if codeEnd - protoEnd - 1 > 3 {
        return Failed(LongCode, off).(noV11 := noV11);
      }
      for i := protoEnd + 1 to codeEnd
        invariant forall j :: protoEnd + 1 <= j < i ==> 48 <= line[j] <= 57
      {
        if line[i] > 57 || line[i] < 48 {
          return Failed(BadCode, off).(noV11 := noV11);
        }
      }
      h := Head(NoErr, off, NO_VIEW, NO_VIEW, NO_VIEW, View(a + protoEnd + 1, codeEnd - protoEnd - 1), NO_VIEW, noV11);
      if codeEnd < |line| {
        h := h.(text := View(a + codeEnd + 1, |line| - codeEnd - 1));
      }
    }

    /** The next field, or why there is none. */
    method Next() returns (r: Item)
      requires Valid()
      modifies this`off
      ensures Valid() && r == NextItem(buf, old(off))
      ensures off == if r.End? || r.Item? then r.off else old(off)
    {
      hide Find, Skip, ValueEnd, WithValue;
      if off + 2 <= |buf| && buf[off] == CR && buf[off + 1] == LF {
        off := off + 2;
        return End(off);
      } else if off < |buf| && buf[off] == LF {
        off := off + 1;
        return End(off);
      }
      var n := IndexByte(buf, COLON, off);
      var x := IndexByte(buf, LF, off);
      if x == |buf| {
        return Pause;
      } else if x < n {
        return Bad;
      }
      var space := IndexByte(buf, SP, off);
      var tab := IndexByte(buf, TAB, off);
      if space < n || tab < n {
        return Bad;
      }
      SkipBefore(buf, SP, n + 1, x);
      var v := TrimSpaces(n + 1);
      r := Value(n, v);
      if r.Item? {
        off := r.off;
      }
    }

    method TrimSpaces(from: nat) returns (v: nat)
      requires from <= |buf|
      ensures v == Skip(buf, SP, from)
    {
      v := from;
      while v < |buf| && buf[v] == SP
        invariant from <= v <= |buf| && Skip(buf, SP, from) == Skip(buf, SP, v)
      {
        v := v + 1;
      }
    }

    /** The value starting at `v`, lines that continue it included. */
    method Value(n: nat, v: nat) returns (r: Item)
      requires off <= n < v < |buf|
      ensures r == WithValue(buf, off, n, v)
    {
      hide Find;
      var m := v;
      while true
        invariant v <= m <= |buf| && ValueEnd(buf, v) == ValueEnd(buf, m)
        decreases |buf| - m
      {
        var nl := IndexByte(buf, LF, m);
        if nl == |buf| || nl + 1 == |buf| {
          return Pause;
        }
        m := nl + 1;
        if buf[m] != SP && buf[m] != TAB {
          break;
        }
      }
      var end := m - 1;
      if end > v && buf[end - 1] == CR {
        end := end - 1;
      }
      return Item(Field(View(off, n - off), View(v, end - v)), m);
    }

    method ParseNextHeaders() returns (err: Err)
      requires Valid()
      modifies this
      ensures Valid() && buf == old(buf)
      ensures (State(), err) == WithFields(old(State()), buf)
      ensures done == (old(done) || err == NoErr)
    {
      hide NextItem;
      while true
        invariant Valid() && buf == old(buf) && done == old(done)
        invariant State() == old(State()).(fields := fields, off := off)
        invariant WithFields(State(), buf) == WithFields(old(State()), buf)
        decreases |buf| - off
      {
        FieldsStep(State(), buf);
        var r := Next();
        match r {
          case End(_) =>
            done := true;
            return NoErr;
          case Pause =>
            connClose := true;
            return NeedMore;
          case Bad =>
            connClose := true;
            return InvalidName;
          case Item(f, _) =>
            fields := fields + [f];
        }
      }
    }

    /** Begins or resumes; `err` is `NeedMore` while more pieces may complete the header. */
    method TryParse(kind: Kind) returns (err: Err)
      requires Valid()
      modifies this
      ensures Valid() && buf == old(buf)
      ensures old(done) ==> err == AlreadyParsed && State() == old(State()) && done
      ensures !old(done) ==> (State(), err) == Try(kind, old(State()), buf) && done == (err == NoErr)
    {
      hide FirstLine, FieldsFrom;
      if done {
        return AlreadyParsed;
      }
      if (kind.Response? && code.len == 0) || (kind.Request? && target.start == 0) {
        err := ParseFirstLine(kind);
        if err != NoErr {
          return;
        }
      }
      err := ParseNextHeaders();
    }

    /** The documented loop: read a piece, try, until no more is needed. */
    method ParsePieces(kind: Kind, chunks: seq<seq<byte>>) returns (err: Err)
      requires Valid() && buf == [] && State() == INITIAL && !done
      requires |Concat(chunks)| <= MAX_BUF && forall i :: 0 <= i < |chunks| ==> chunks[i] != []
      modifies this
      ensures Valid() && (State(), err) == Stream(kind, INITIAL, [], chunks)
      ensures kind.Request? ==> (State(), err) == OneShot(Request, Concat(chunks))
      ensures buf <= Concat(chunks)
    {
      hide Try;
      if kind.Request? {
        RequestStreams(chunks);
      }
      err := NeedMore;
      var i := 0;
      assert chunks[0..] == chunks;
      while i < |chunks| && err == NeedMore
        invariant Valid() && !done && i <= |chunks| && err == NeedMore
        invariant Concat(chunks) == buf + Concat(chunks[i..])
        invariant Stream(kind, INITIAL, [], chunks) == Stream(kind, State(), buf, chunks[i..])
      {
        ghost var rest := chunks[i..];
        assert rest[0] == chunks[i] && rest[1..] == chunks[i + 1..];
        assert Concat(chunks) == buf + chunks[i] + Concat(chunks[i + 1..]);
        var ok := ReadFromBytes(chunks[i]);
        err := TryParse(kind);
        i := i + 1;
        if err != NeedMore {
          return;
        }
      }
    }
  }

  /** One field, or the end of them. */
  lemma FieldsStep(s: Parsed, d: seq<byte>)
    requires s.off <= |d|
    ensures var r := NextItem(d, s.off);
            WithFields(s, d) ==
              if r.End? then (s.(off := r.off), NoErr)
              else if r.Pause? then (s, NeedMore)
              else if r.Bad? then (s, InvalidName)
              else WithFields(s.(fields := s.fields + [r.field], off := r.off), d)
  {
    hide NextItem;
    var r := NextItem(d, s.off);
    assert s.fields + [] == s.fields;
    if r.Item? {
      var more := FieldsFrom(d, r.off).fields;
      assert s.fields + ([r.field] + more) == s.fields + [r.field] + more;
    }
  }
}
