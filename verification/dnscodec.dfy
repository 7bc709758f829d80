/** The loops of dns/dns.go: walking labels, building names, encoding and decoding messages. */
module DnsCodec {
  import opened Options
  import opened Bytes
  import opened DnsWire
  import opened DnsMessages

  // ---- labels

  /** What a walk interrupted at `off` after `labels` and `ptr` pointers amounts to. */
  ghost function Resumed(labels: seq<seq<byte>>, r: Walk, ptr: nat, newOff: nat): Walk {
    if r.WalkErr? then r else Walk(labels + r.labels, if ptr == 0 then r.next else newOff)
  }

  /** Follows at most ten pointers; what follows the name starts after its terminator or its first pointer. */
  method VisitAllLabels(msg: seq<byte>, start: nat) returns (r: Walk)
    requires start <= |msg|
    ensures r == VisitAll(msg, start)
  {
    hide NextLabel, Labels;
    if |msg| > MAX16 {
      return WalkErr(TooLong);
    }
    var off: nat, ptr: nat, newOff: nat, labels := start, 0, start, [];
    NothingBefore(Labels(msg, start, MAX_JUMPS), start);
    while true
      invariant off <= |msg| && 0 <= ptr <= MAX_JUMPS
      invariant VisitAll(msg, start) == Resumed(labels, Labels(msg, off, MAX_JUMPS - ptr), ptr, newOff)
      decreases MAX_JUMPS - ptr, |msg| - off
    {
      LabelsStep(msg, off, MAX_JUMPS - ptr);
      match NextLabel(msg, off) {
        case LabelErr(err) =>
          return WalkErr(err);
        case Terminator =>
          if ptr == 0 {
            newOff := off + 1;
          }
          assert labels + [] == labels;
          return Walk(labels, newOff);
        case Pointer(target) =>
          if ptr == 0 {
            newOff := off + 2;
          }
          if target >= |msg| {
            return WalkErr(BadPointer);
          } else if ptr + 1 > MAX_JUMPS {
            return WalkErr(TooManyPointers);
          }
          off, ptr := target, ptr + 1;
        case Label(text) =>
          ghost var rest := Labels(msg, off + 1 + |text|, MAX_JUMPS - ptr);
          if rest.Walk? {
            Regroup(labels, text, rest.labels);
          }
          labels := labels + [text];
          off := off + 1 + |text|;
      }
    }
  }

  lemma NothingBefore(r: Walk, newOff: nat)
    ensures Resumed([], r, 0, newOff) == r
  {
    if r.Walk? {
      assert [] + r.labels == r.labels;
    }
  }

  /** One step of the walk. */
  lemma LabelsStep(msg: seq<byte>, off: nat, left: nat)
    requires off <= |msg|
    ensures var l, r := NextLabel(msg, off), Labels(msg, off, left);
            && (l.LabelErr? ==> r == WalkErr(l.err))
            && (l.Terminator? ==> r == Walk([], off + 1))
            && (l.Pointer? && l.target >= |msg| ==> r == WalkErr(BadPointer))
            && (l.Pointer? && l.target < |msg| && left == 0 ==> r == WalkErr(TooManyPointers))
            && (l.Pointer? && l.target < |msg| && left > 0 ==>
                  var t := Labels(msg, l.target, left - 1);
                  r == if t.WalkErr? then t else Walk(t.labels, off + 2))
            && (l.Label? ==>
                  var t := Labels(msg, off + 1 + |l.text|, left);
                  r == if t.WalkErr? then t else Walk([l.text] + t.labels, t.next))
  {
    hide NextLabel;
  }

  // ---- names

  function FirstDot(d: seq<byte>): (i: nat)
    ensures i <= |d| && DOT !in d[..i] && (i < |d| ==> d[i] == DOT)
  {
    if d == [] || d[0] == DOT then 0
    else
      var i := 1 + FirstDot(d[1..]);
      assert d[..i] == [d[0]] + d[1..][..i - 1];
      i
  }

  /** The labels of a dotted name; one dot at the end is optional. */
  function DotLabels(d: seq<byte>): seq<seq<byte>>
    decreases |d|
  {
    var i := FirstDot(d);
    if d == [] then []
    else if i == |d| then [d]
    else [d[..i]] + DotLabels(d[i + 1..])
  }

  function Dotted(labels: seq<seq<byte>>): seq<byte> {
    if labels == [] then [] else labels[0] + [DOT] + Dotted(labels[1..])
  }

  lemma {:induction false} DotAfter(text: seq<byte>, rest: seq<byte>)
    requires DOT !in text
    ensures FirstDot(text + [DOT] + rest) == |text|
  {
    var d := text + [DOT] + rest;
    if text != [] {
      assert d[1..] == text[1..] + [DOT] + rest;
      DotAfter(text[1..], rest);
    }
  }

  /** The dotted form of a name has its labels. */
  lemma {:induction false} LabelsOfDotted(labels: seq<seq<byte>>)
    requires AreLabels(labels)
    ensures DotLabels(Dotted(labels)) == labels
  {
    if labels != [] {
      var text, rest := labels[0], Dotted(labels[1..]);
      var d := text + [DOT] + rest;
      DotAfter(text, rest);
      assert d[..|text|] == text && d[|text| + 1..] == rest;
      LabelsOfDotted(labels[1..]);
      assert labels == [text] + labels[1..];
    }
  }

  /** Labels `AddLabel` takes one after the other. */
  predicate Addable(labels: seq<seq<byte>>) {
    && AreLabels(labels) && (forall i :: 0 <= i < |labels| ==> labels[i][|labels[i]| - 1] != 0)
    && (|labels| <= 1 || |Wire(labels)| <= 254)
  }

  predicate CanAddLabel(name: seq<byte>, text: seq<byte>) {
    |text| != 0 && |text| <= 63 && |text| + |name| + 2 <= 255 && text[|text| - 1] != 0 && DOT !in text
  }

  lemma {:induction false} WireAppend(labels: seq<seq<byte>>, text: seq<byte>)
    requires AreLabels(labels) && IsLabel(text)
    ensures AreLabels(labels + [text]) && |Wire(labels)| > 0
    ensures Wire(labels + [text]) == Wire(labels)[..|Wire(labels)| - 1] + [|text|] + text + [0]
  {
    if labels == [] {
      assert [text][1..] == [] && Wire([text]) == [|text|] + text + Wire([]);
      assert labels + [text] == [text];
    } else {
      WireAppend(labels[1..], text);
      assert (labels + [text])[1..] == labels[1..] + [text];
      var w := Wire(labels[1..]);
      assert Wire(labels) == [|labels[0]|] + labels[0] + w;
    }
  }

  lemma {:induction false} PrefixShorter(labels: seq<seq<byte>>, more: seq<seq<byte>>)
    requires AreLabels(labels + more)
    ensures AreLabels(labels) && AreLabels(more) && |Wire(labels)| <= |Wire(labels + more)|
    ensures more != [] ==> |Wire(labels)| < |Wire(labels + more)|
  {
    assert forall i :: 0 <= i < |labels| ==> labels[i] == (labels + more)[i];
    assert forall i :: 0 <= i < |more| ==> more[i] == (labels + more)[|labels| + i];
    if labels == [] {
      assert labels + more == more;
    } else {
      assert (labels + more)[1..] == labels[1..] + more;
      PrefixShorter(labels[1..], more);
    }
  }

  /** `AddLabel` on a name of labels. */
  function WithLabel(name: seq<byte>, text: seq<byte>): seq<byte>
    requires |text| < 256
  {
    (if name != [] && name[|name| - 1] == 0 then name[..|name| - 1] else name) + [|text|] + text + [0]
  }

  /** The state of the loop: nothing yet, or the wire form of the labels so far. */
  ghost predicate Built(name: seq<byte>, labels: seq<seq<byte>>) {
    AreLabels(labels) && name == if labels == [] then [] else Wire(labels)
  }

  lemma AddBuilds(name: seq<byte>, labels: seq<seq<byte>>, text: seq<byte>)
    requires Built(name, labels) && IsLabel(text)
    ensures Built(WithLabel(name, text), labels + [text])
  {
    hide Wire;
    WireAppend(labels, text);
    WireEnds(labels);
    WireOfNone();
  }

  lemma {:induction false} WireEnds(labels: seq<seq<byte>>)
    requires AreLabels(labels)
    ensures Wire(labels) != [] && Wire(labels)[|Wire(labels)| - 1] == 0
  {
    if labels != [] {
      WireEnds(labels[1..]);
    }
  }

  /** A name from its dotted form, exactly when its labels are such as the wire can carry. */
  method NewName(domain: seq<byte>) returns (ok: bool, name: seq<byte>)
    ensures ok <==> domain != [] && (domain == [DOT] || Addable(DotLabels(domain)))
    ensures ok ==> name == if domain == [DOT] then Wire([]) else Wire(DotLabels(domain))
  {
    hide FirstDot, Wire;
    if |domain| == 0 {
      return false, [];
    }
    if |domain| == 1 && domain[0] == DOT {
      WireOfNone();
      return true, [0];
    }
    name := [];
    var d := domain;
    ghost var labels: seq<seq<byte>> := [];
    while |d| > 0
      invariant DotLabels(domain) == labels + DotLabels(d)
      invariant Built(name, labels) && Addable(labels)
      invariant d == [] ==> labels != []
    {
      var idx := IndexDot(d);
      var text := d[..idx];
      DotStep(d, labels);
      if !CanAddLabel(name, text) {
        Unaddable(labels, text, if idx < |d| then DotLabels(d[idx + 1..]) else []);
        return false, [];
      }
      AddBuilds(name, labels, text);
      AddedOk(name, labels, text);
      name := WithLabel(name, text);
      labels := labels + [text];
      if idx == |d| {
        assert labels + [] == labels;
        return true, name;
      }
      d := d[idx + 1..];
    }
    assert labels + DotLabels([]) == labels;
    return true, name;
  }

  method IndexDot(d: seq<byte>) returns (i: nat)
    ensures i == FirstDot(d)
  {
    i := 0;
    assert d[0..] == d;
    while i < |d| && d[i] != DOT
      invariant i <= |d| && FirstDot(d) == i + FirstDot(d[i..])
    {
      assert d[i..][1..] == d[i + 1..];
      i := i + 1;
    }
  }

  lemma WireOfNone()
    ensures Wire([]) == [0]
  {
  }

  lemma DotStep(d: seq<byte>, labels: seq<seq<byte>>)
    requires d != []
    ensures var i := FirstDot(d);
            labels + DotLabels(d) == labels + [d[..i]] + (if i == |d| then [] else DotLabels(d[i + 1..]))
  {
    hide FirstDot;
    var i := FirstDot(d);
    assert d[..|d|] == d;
    if i < |d| {
      Regroup(labels, d[..i], DotLabels(d[i + 1..]));
    } else {
      Regroup(labels, d, []);
    }
  }

  lemma Regroup(labels: seq<seq<byte>>, text: seq<byte>, more: seq<seq<byte>>)
    ensures labels + ([text] + more) == labels + [text] + more && [text] + [] == [text]
            && labels + [text] + [] == labels + [text]
  {
  }

  /** A label refused means no name, whatever follows. */
  lemma Unaddable(labels: seq<seq<byte>>, text: seq<byte>, more: seq<seq<byte>>)
    requires Addable(labels) && !CanAddLabel(if labels == [] then [] else Wire(labels), text)
    ensures !Addable(labels + [text] + more)
  {
    hide Wire;
    var all := labels + [text] + more;
    if Addable(all) {
      assert all[|labels|] == text;
      assert AreLabels(all) && all == (labels + [text]) + more;
      PrefixShorter(labels + [text], more);
      WireAppend(labels, text);
    }
  }

  lemma AddedOk(name: seq<byte>, labels: seq<seq<byte>>, text: seq<byte>)
    requires Built(name, labels) && Addable(labels) && CanAddLabel(name, text)
    ensures Addable(labels + [text])
  {
    hide Wire;
    WireAppend(labels, text);
    var all := labels + [text];
    forall i | 0 <= i < |all|
      ensures all[i][|all[i]| - 1] != 0
    {
      assert i < |labels| ==> all[i] == labels[i];
    }
  }

  /** A name written with dots and read again is the same name. */
  lemma NameRoundTrip(labels: seq<seq<byte>>)
    requires labels != [] && Addable(labels)
    ensures var d := Dotted(labels);
            d != [] && d != [DOT] && Addable(DotLabels(d)) && Wire(DotLabels(d)) == Wire(labels)
  {
    LabelsOfDotted(labels);
    assert IsLabel(labels[0]);
  }

  // ---- messages

  lemma {:induction false} QuestionsAppend(qs: seq<Question>, q: Question)
    ensures EncodeQuestions(qs + [q]) == EncodeQuestions(qs) + EncodeQuestion(q)
  {
    hide EncodeQuestion;
    if qs == [] {
      assert [] + [q] == [q] && [q][1..] == [] && EncodeQuestions([q]) == EncodeQuestion(q) + EncodeQuestions([]);
    } else {
      QuestionsAppend(qs[1..], q);
      assert (qs + [q])[1..] == qs[1..] + [q];
    }
  }

  lemma {:induction false} ResourcesAppend(rs: seq<Resource>, r: Resource)
    ensures EncodeResources(rs + [r]) == EncodeResources(rs) + EncodeResource(r)
  {
    hide EncodeResource;
    if rs == [] {
      assert [] + [r] == [r] && [r][1..] == [] && EncodeResources([r]) == EncodeResource(r) + EncodeResources([]);
    } else {
      ResourcesAppend(rs[1..], r);
      assert (rs + [r])[1..] == rs[1..] + [r];
    }
  }

  /** Every record's name can be written. */
  predicate Named(m: Message) {
    (forall i :: 0 <= i < |m.questions| ==> m.questions[i].name != []) && AllNamed(m.answers)
      && AllNamed(m.authorities) && AllNamed(m.additionals)
  }

  predicate AllNamed(rs: seq<Resource>) {
    forall i :: 0 <= i < |rs| ==> rs[i].name != []
  }

  /** Writes past the end of `b` into its capacity `cap`; there is a panic where there is no room. */
  method Append16(b: seq<byte>, cap: nat, v: u16) returns (out: seq<byte>)
    requires |b| + 2 <= cap
    ensures out == b + Be16(v) && |out| == |b| + 2
  {
    out := b + Be16(v);
  }

  method Append32(b: seq<byte>, cap: nat, v: u32) returns (out: seq<byte>)
    requires |b| + 4 <= cap
    ensures out == b + Be32(v) && |out| == |b| + 4
  {
    out := b + Be32(v);
  }

  method AppendQuestion(buf: seq<byte>, cap: nat, q: Question) returns (out: seq<byte>)
    requires |buf| + |EncodeQuestion(q)| <= cap
    ensures out == buf + EncodeQuestion(q)
  {
    out := Append16(buf + q.name, cap, q.typ);
    out := Append16(out, cap, q.class_);
  }

  method AppendResource(buf: seq<byte>, cap: nat, r: Resource) returns (out: seq<byte>)
    requires |buf| + |EncodeResource(r)| <= cap
    ensures out == buf + EncodeResource(r)
  {
    hide Be16, Be32;
    HeaderSize(r);
    out := Append16(buf + r.name, cap, r.typ);
    out := Append16(out, cap, r.class_);
    out := Append32(out, cap, r.ttl);
    out := Append16(out, cap, r.length);
    assert out == buf + EncodeHeader(r);
    out := out + r.data;
  }

  /** The room for the records written so far and the next one. */
  lemma {:induction false} QuestionsRoom(qs: seq<Question>, i: nat)
    requires i < |qs|
    ensures |EncodeQuestions(qs[..i])| + |EncodeQuestion(qs[i])| <= |EncodeQuestions(qs)|
  {
    hide EncodeQuestion;
    if i == 0 {
      NoRecords();
    } else {
      QuestionsRoom(qs[1..], i - 1);
      assert qs[..i][1..] == qs[1..][..i - 1];
    }
  }

  lemma {:induction false} ResourcesRoom(rs: seq<Resource>, i: nat)
    requires i < |rs|
    ensures |EncodeResources(rs[..i])| + |EncodeResource(rs[i])| <= |EncodeResources(rs)|
  {
    hide EncodeResource;
    if i == 0 {
      NoRecords();
    } else {
      ResourcesRoom(rs[1..], i - 1);
      assert rs[..i][1..] == rs[1..][..i - 1];
    }
  }

  method AppendQuestions(buf: seq<byte>, cap: nat, qs: seq<Question>) returns (out: seq<byte>, ok: bool)
    requires |buf| + |EncodeQuestions(qs)| <= cap
    ensures ok <==> forall i :: 0 <= i < |qs| ==> qs[i].name != []
    ensures ok ==> out == buf + EncodeQuestions(qs)
  {
    hide EncodeQuestions, EncodeQuestion;
    out := buf;
    NoRecords();
    for i := 0 to |qs|
      invariant out == buf + EncodeQuestions(qs[..i]) && forall j :: 0 <= j < i ==> qs[j].name != []
    {
      if |qs[i].name| == 0 {
        return out, false;
      }
      QuestionsAppend(qs[..i], qs[i]);
      QuestionsRoom(qs, i);
      assert qs[..i + 1] == qs[..i] + [qs[i]];
      out := AppendQuestion(out, cap, qs[i]);
    }
    assert qs[..|qs|] == qs;
    return out, true;
  }

  method AppendResources(buf: seq<byte>, cap: nat, rs: seq<Resource>) returns (out: seq<byte>, ok: bool)
    requires |buf| + |EncodeResources(rs)| <= cap
    ensures ok <==> AllNamed(rs)
    ensures ok ==> out == buf + EncodeResources(rs)
  {
    hide EncodeResources, EncodeResource;
    out := buf;
    NoRecords();
    for i := 0 to |rs|
      invariant out == buf + EncodeResources(rs[..i]) && forall j :: 0 <= j < i ==> rs[j].name != []
    {
      if |rs[i].name| == 0 {
        return out, false;
      }
      ResourcesAppend(rs[..i], rs[i]);
      ResourcesRoom(rs, i);
      assert rs[..i + 1] == rs[..i] + [rs[i]];
      out := AppendResource(out, cap, rs[i]);
    }
    assert rs[..|rs|] == rs;
    return out, true;
  }

  lemma NoRecords()
    ensures EncodeQuestions([]) == [] && EncodeResources([]) == []
  {
  }

  /**
    Appends the message, unless a name is missing. The buffer is grown once, by the 16-bit `Len`: a message that
    fits 65535 bytes never finds its capacity short.
  */
  method AppendTo(m: Message, buf: seq<byte>, txid: u16, flags: u16) returns (out: seq<byte>, ok: bool)
    requires Countable(m) && |Encode(m, txid, flags)| <= MAX16
    ensures ok <==> Named(m)
    ensures ok ==> out == buf + Encode(m, txid, flags)
  {
    hide EncodeQuestions, EncodeResources, Be16;
    var head := Be16(txid) + Be16(flags) + EncodeCounts(m);
    HeadSize(m, txid, flags);
    var grown := MessageLen(m);
    var cap := |buf| + grown;
    out, ok := AppendQuestions(buf + head, cap, m.questions);
    if !ok {
      return;
    }
    out, ok := AppendResources(out, cap, m.answers);
    if !ok {
      return;
    }
    out, ok := AppendResources(out, cap, m.authorities);
    if !ok {
      return;
    }
    out, ok := AppendResources(out, cap, m.additionals);
    if ok {
      Appended(m, buf, head);
    }
  }

  lemma HeadSize(m: Message, txid: u16, flags: u16)
    requires Countable(m)
    ensures |Be16(txid) + Be16(flags) + EncodeCounts(m)| == SIZE_HEADER
    ensures |Encode(m, txid, flags)| == SIZE_HEADER + |EncodeBody(m)|
  {
    hide EncodeBody;
  }

  lemma Appended(m: Message, buf: seq<byte>, head: seq<byte>)
    ensures buf + head + EncodeQuestions(m.questions) + EncodeResources(m.answers) + EncodeResources(m.authorities) +
            EncodeResources(m.additionals)
            == buf + (head + EncodeBody(m))
  {
    hide EncodeQuestions, EncodeResources;
  }

  /** `Len`, a 16-bit sum over the records: the size `AppendTo` writes, as long as that fits 16 bits. */
  method MessageLen(m: Message) returns (n: u16)
    ensures n == (SIZE_HEADER + |EncodeBody(m)|) % 0x1_0000
  {
    hide EncodeQuestions, EncodeResources, Add16;
    n := AddQuestionsLen(m.questions, SIZE_HEADER);
    n := AddLen(m.answers, n);
    n := AddLen(m.authorities, n);
    n := AddLen(m.additionals, n);
    ghost var q, a, b, c := |EncodeQuestions(m.questions)|, |EncodeResources(m.answers)|,
        |EncodeResources(m.authorities)|, |EncodeResources(m.additionals)|;
    SumStep(SIZE_HEADER, q, a);
    SumStep(SIZE_HEADER, q + a, b);
    SumStep(SIZE_HEADER, q + a + b, c);
    AddMod(SIZE_HEADER, q + a + b + c);
  }

  lemma AddMod(a: nat, b: nat)
    ensures Add16(a % 0x1_0000, b) == Add16(a, b) == (a + b) % 0x1_0000
  {
  }

  method AddQuestionsLen(qs: seq<Question>, start: u16) returns (n: u16)
    ensures n == Add16(start, |EncodeQuestions(qs)|)
  {
    hide EncodeQuestions, Add16;
    NoRecords();
    AddMod(start, 0);
    n := start;
    for i := 0 to |qs|
      invariant n == Add16(start, |EncodeQuestions(qs[..i])|)
    {
      QuestionsAppend(qs[..i], qs[i]);
      assert qs[..i + 1] == qs[..i] + [qs[i]];
      SumStep(start, |EncodeQuestions(qs[..i])|, |EncodeQuestion(qs[i])|);
      n := Add16(n, |qs[i].name| + 4);
    }
    assert qs[..|qs|] == qs;
  }

  method AddLen(rs: seq<Resource>, start: u16) returns (n: u16)
    ensures n == Add16(start, |EncodeResources(rs)|)
  {
    hide EncodeResources, Add16;
    NoRecords();
    AddMod(start, 0);
    n := start;
    for i := 0 to |rs|
      invariant n == Add16(start, |EncodeResources(rs[..i])|)
    {
      ResourcesAppend(rs[..i], rs[i]);
      HeaderSize(rs[i]);
      assert rs[..i + 1] == rs[..i] + [rs[i]];
      SumStep(start, |EncodeResources(rs[..i])|, |EncodeResource(rs[i])|);
      n := Add16(n, |rs[i].name| + 10 + |rs[i].data|);
    }
    assert rs[..|rs|] == rs;
  }

  lemma SumStep(start: u16, sum: nat, more: nat)
    ensures Add16(Add16(start, sum), more) == Add16(start, sum + more)
    ensures Add16(start, 0) == start
  {
    AddMod(start + sum, more);
  }

  method DecodeQuestions(msg: seq<byte>, start: nat, count: u16, cap: nat) returns (r: Decoded<seq<Question>>)
    requires start <= |msg|
    ensures r == QuestionsUpTo(msg, start, count, cap)
  {
    hide DecodeQuestion, SkipQuestion;
    var off: nat, qs := start, [];
    var n := Min(count, cap);
    var i := 0;
    PrependNone(QuestionsUpTo(msg, start, count, cap));
    while i < n
      invariant 0 <= i <= n && off <= |msg|
      invariant QuestionsUpTo(msg, start, count, cap) == Prepended(qs, QuestionsUpTo(msg, off, count - i, cap - i))
    {
      var q := DecodeQuestion(msg, off);
      if q.Fail? {
        return Fail(q.err);
      }
      RegroupRecords(qs, q.value, QuestionsUpTo(msg, q.next, count - i - 1, cap - i - 1));
      qs, off := qs + [q.value], q.next;
      i := i + 1;
    }
    while i < count
      invariant n <= i <= count && off <= |msg| && (i < count ==> n == cap)
      invariant QuestionsUpTo(msg, start, count, cap) ==
                Prepended(qs, QuestionsUpTo(msg, off, count - i, if i < count then 0 else cap - n))
    {
      var q := SkipQuestion(msg, off);
      if q.Fail? {
        return Fail(q.err);
      }
      off := q.next;
      i := i + 1;
    }
    assert qs + [] == qs;
    return Ok(qs, off);
  }

  /** `decodeToCapResources`. */
  method DecodeResources(msg: seq<byte>, start: nat, count: u16, cap: Option<nat>) returns (r: Decoded<seq<Resource>>)
    requires start <= |msg|
    ensures r == Section(msg, start, count, cap)
  {
    hide ResourcesUpTo;
    if cap.None? {
      return Ok([], start);
    }
    r := DecodeUpTo(msg, start, count, cap.value % 0x1_0000);
  }

  /** Decodes up to the capacity and skips the rest. */
  method DecodeUpTo(msg: seq<byte>, start: nat, count: u16, cap: nat) returns (r: Decoded<seq<Resource>>)
    requires start <= |msg|
    ensures r == ResourcesUpTo(msg, start, count, cap)
  {
    hide DecodeResource, SkipResource;
    var off: nat, rs := start, [];
    var n := Min(count, cap);
    var i := 0;
    PrependNone(ResourcesUpTo(msg, start, count, cap));
    while i < n
      invariant 0 <= i <= n && off <= |msg|
      invariant ResourcesUpTo(msg, start, count, cap) == Prepended(rs, ResourcesUpTo(msg, off, count - i, cap - i))
    {
      var q := DecodeResource(msg, off);
      if q.Fail? {
        return Fail(q.err);
      }
      RegroupRecords(rs, q.value, ResourcesUpTo(msg, q.next, count - i - 1, cap - i - 1));
      rs, off := rs + [q.value], q.next;
      i := i + 1;
    }
    while i < count
      invariant n <= i <= count && off <= |msg| && (i < count ==> n == cap)
      invariant ResourcesUpTo(msg, start, count, cap) ==
                Prepended(rs, ResourcesUpTo(msg, off, count - i, if i < count then 0 else cap - n))
    {
      var q := SkipResource(msg, off);
      if q.Fail? {
        return Fail(q.err);
      }
      off := q.next;
      i := i + 1;
    }
    assert rs + [] == rs;
    return Ok(rs, off);
  }

  /** Decodes all four sections, each up to its capacity; `incomplete` says one was cut. */
  method DecodeMessage(msg: seq<byte>, caps: Caps) returns (r: Decoded<Message>, incomplete: bool)
    ensures r == Decode(msg, caps)
    ensures r.Ok? ==> |msg| >= SIZE_HEADER && incomplete == Incomplete(msg, caps)
  {
    hide QuestionsUpTo, Section, Get16;
    incomplete := false;
    if |msg| < SIZE_HEADER {
      return Fail(Truncated), false;
    }
    incomplete := Get16(msg, 4) > caps.questions || Get16(msg, 6) > CapOrZero(caps.answers)
      || Get16(msg, 8) > CapOrZero(caps.authorities)
                  || Get16(msg, 10) > CapOrZero(caps.additionals);
    var q := DecodeQuestions(msg, SIZE_HEADER, Get16(msg, 4), caps.questions);
    if q.Fail? {
      return Fail(q.err), false;
    }
    var a := DecodeResources(msg, q.next, Get16(msg, 6), caps.answers);
    if a.Fail? {
      return Fail(a.err), false;
    }
    var b := DecodeResources(msg, a.next, Get16(msg, 8), caps.authorities);
    if b.Fail? {
      return Fail(b.err), false;
    }
    var c := DecodeResources(msg, b.next, Get16(msg, 10), caps.additionals);
    if c.Fail? {
      return Fail(c.err), false;
    }
    return Ok(Message(q.value, a.value, b.value, c.value), c.next), incomplete;
  }

  lemma PrependNone<T>(r: Decoded<seq<T>>)
    ensures Prepended([], r) == r
  {
    if r.Ok? {
      assert [] + r.value == r.value;
    }
  }

  ghost function Prepended<T>(items: seq<T>, r: Decoded<seq<T>>): Decoded<seq<T>> {
    if r.Fail? then r else Ok(items + r.value, r.next)
  }

  lemma RegroupRecords<T>(items: seq<T>, item: T, r: Decoded<seq<T>>)
    ensures r.Ok? ==> items + ([item] + r.value) == items + [item] + r.value
  {
  }
}
