/**
  DNS messages on the wire (dns/dns.go): labels and compression pointers, names, questions, resources.
  Offsets are 16-bit in the source; where one could wrap the model says so.
*/
module DnsWire {
  import opened Bytes

  const DOT: byte := 46
  const MAX16 := 0xffff
  const MAX_JUMPS := 10
  const SIZE_HEADER := 12
  const TYPE_CNAME := 5

  datatype DnsErr =
    | Truncated | BadName | Reserved | BadPointer | TooManyPointers | ResourceLen | TooLong | TooMany | Panic

  // ---- labels

  datatype LabelAt = LabelErr(err: DnsErr) | Terminator | Pointer(target: nat) | Label(text: seq<byte>)

  /** `NextLabel`, and the test that takes a pointer to offset zero for a terminator. */
  function NextLabel(msg: seq<byte>, off: nat): (r: LabelAt)
    requires off <= |msg|
    ensures r.Label? ==> 0 < |r.text| < 64 && off + 1 + |r.text| <= |msg| && DOT !in r.text
    ensures r.Terminator? <==>
            off < |msg| && (msg[off] == 0 || (off + 2 <= |msg| && msg[off] == 192 && msg[off + 1] == 0))
    ensures r.Pointer? ==> off + 2 <= |msg| && msg[off] >= 192 && 0 < r.target < 0x4000
  {
    if off == |msg| then LabelErr(Truncated)
    else
      var c: int := msg[off];
      if c == 0 then Terminator
      else if c < 64 then
        if off + 1 + c > |msg| then LabelErr(Truncated)
        else if DOT in msg[off + 1..off + 1 + c] then LabelErr(BadName)
        else Label(msg[off + 1..off + 1 + c])
      else if c < 192 then LabelErr(Reserved)
      else if off + 2 > |msg| then LabelErr(Truncated)
      else
        var target := (c - 192) * 256 + msg[off + 1];
        if target == 0 then Terminator else Pointer(target)
  }

  datatype Walk = WalkErr(err: DnsErr) | Walk(labels: seq<seq<byte>>, next: nat)

  /** The labels of the name at `off`, and where what follows the name starts; `left` pointers may still be followed. */
  function Labels(msg: seq<byte>, off: nat, left: nat): (r: Walk)
    requires off <= |msg|
    ensures r.Walk? ==> off < r.next <= |msg| && forall i :: 0 <= i < |r.labels| ==> IsLabel(r.labels[i])
    decreases left, |msg| - off
  {
    match NextLabel(msg, off)
    case LabelErr(err) => WalkErr(err)
    case Terminator => Walk([], off + 1)
    case Pointer(target) =>
      if target >= |msg| then WalkErr(BadPointer)
      else if left == 0 then WalkErr(TooManyPointers)
      else
        var r := Labels(msg, target, left - 1);
        if r.WalkErr? then r else Walk(r.labels, off + 2)
    case Label(text) =>
      var r := Labels(msg, off + 1 + |text|, left);
      if r.WalkErr? then r else Walk([text] + r.labels, r.next)
  }

  /** `visitAllLabels` on a name. */
  function VisitAll(msg: seq<byte>, off: nat): (r: Walk)
    requires off <= |msg|
    ensures r.Walk? ==> off < r.next <= |msg| <= MAX16
  {
    if |msg| > MAX16 then WalkErr(TooLong) else Labels(msg, off, MAX_JUMPS)
  }

  predicate IsLabel(text: seq<byte>) {
    0 < |text| < 64 && DOT !in text
  }

  predicate AreLabels(labels: seq<seq<byte>>) {
    forall i :: 0 <= i < |labels| ==> IsLabel(labels[i])
  }

  /** A name on the wire: labels behind their lengths, and a terminator. */
  function Wire(labels: seq<seq<byte>>): seq<byte>
    requires AreLabels(labels)
  {
    if labels == [] then [0] else [|labels[0]|] + labels[0] + Wire(labels[1..])
  }

  /** An uncompressed name is read back wherever it lies. */
  lemma {:induction false} WalkWire(msg: seq<byte>, pre: seq<byte>, labels: seq<seq<byte>>, post: seq<byte>, left: nat)
    requires AreLabels(labels) && msg == pre + Wire(labels) + post
    ensures Labels(msg, |pre|, left) == Walk(labels, |pre| + |Wire(labels)|)
    decreases |labels|
  {
    hide NextLabel;
    if labels == [] {
      EndReadsBack(pre, post);
    } else {
      var text, rest := labels[0], Wire(labels[1..]);
      LabelReadsBack(pre, text, rest + post);
      var pre' := pre + [|text|] + text;
      assert msg == pre' + rest + post == pre' + (rest + post);
      WalkWire(msg, pre', labels[1..], post, left);
      assert labels == [text] + labels[1..];
    }
  }

  lemma EndReadsBack(pre: seq<byte>, post: seq<byte>)
    ensures NextLabel(pre + [0] + post, |pre|) == Terminator
  {
  }

  lemma LabelReadsBack(pre: seq<byte>, text: seq<byte>, post: seq<byte>)
    requires IsLabel(text)
    ensures NextLabel(pre + [|text|] + text + post, |pre|) == Label(text)
  {
    var msg, n := pre + [|text|] + text + post, |pre|;
    assert msg[n] == |text| && msg[n + 1..n + 1 + |text|] == text;
  }

  /** What a walk reads, compressed or not, is a name that reads back as itself. */
  lemma WalkIsCanonical(msg: seq<byte>, off: nat, left: nat, left': nat)
    requires off <= |msg| && Labels(msg, off, left).Walk?
    ensures AreLabels(Labels(msg, off, left).labels)
    ensures var w := Wire(Labels(msg, off, left).labels);
            Labels(w, 0, left') == Walk(Labels(msg, off, left).labels, |w|)
  {
    var labels := Labels(msg, off, left).labels;
    var w := Wire(labels);
    assert [] + w + [] == w;
    WalkWire(w, [], labels, [], left');
  }

  // ---- numbers

  function Be32(v: u32): seq<byte> {
    Be16(v / 0x1_0000) + Be16(v % 0x1_0000)
  }

  function Get32(msg: seq<byte>, off: nat): u32
    requires off + 4 <= |msg|
  {
    Get16(msg, off) * 0x1_0000 + Get16(msg, off + 2)
  }

  lemma ReadsBack16(pre: seq<byte>, v: u16, post: seq<byte>)
    ensures Get16(pre + Be16(v) + post, |pre|) == v
  {
  }

  /** Addition of 16-bit offsets. */
  function Add16(a: nat, b: nat): u16 {
    (a + b) % 0x1_0000
  }

  // ---- questions and resources

  datatype Question = Question(name: seq<byte>, typ: u16, class_: u16)

  datatype Resource = Resource(name: seq<byte>, typ: u16, class_: u16, ttl: u32, length: u16, data: seq<byte>)

  datatype Decoded<T> = Ok(value: T, next: nat) | Fail(err: DnsErr)

  function DecodeName(msg: seq<byte>, off: nat): (r: Decoded<seq<byte>>)
    requires off <= |msg|
    ensures r.Ok? ==> off < r.next <= |msg| <= MAX16
  {
    var r := VisitAll(msg, off);
    if r.WalkErr? then Fail(r.err) else Ok(Wire(r.labels), r.next)
  }

  function DecodeQuestion(msg: seq<byte>, off: nat): (r: Decoded<Question>)
    requires off <= |msg|
    ensures r.Ok? ==> off < r.next <= |msg|
  {
    var n := DecodeName(msg, off);
    if n.Fail? then Fail(n.err)
    else if Add16(n.next, 4) > |msg| then Fail(ResourceLen)
    else if n.next + 4 > |msg| then Fail(Panic)
    else Ok(Question(n.value, Get16(msg, n.next), Get16(msg, n.next + 2)), n.next + 4)
  }

  function DecodeResource(msg: seq<byte>, off: nat): (r: Decoded<Resource>)
    requires off <= |msg|
    ensures r.Ok? ==> off < r.next <= |msg|
  {
    var n := DecodeName(msg, off);
    if n.Fail? then Fail(n.err)
    else if Add16(n.next, 10) > |msg| then Fail(ResourceLen)
    else if n.next + 10 > |msg| then Fail(Panic)
    else
      var at := n.next;
      var length := Get16(msg, at + 8);
      if length > |msg| - at - 10 then Fail(ResourceLen)
      else
        var r := Resource(n.value, Get16(msg, at), Get16(msg, at + 2), Get32(msg, at + 4), length,
          msg[at + 10..at + 10 + length]);
        var cname := if r.typ == TYPE_CNAME then DecodeName(msg, at + 10) else Fail(BadName);
        if cname.Ok? then Ok(r.(data := cname.value, length := |cname.value| % 0x1_0000), at + 10 + length)
        else Ok(r, at + 10 + length)
  }

  function SkipQuestion(msg: seq<byte>, off: nat): (r: Decoded<()>)
    requires off <= |msg|
    ensures r.Ok? ==> r.next <= |msg|
  {
    var n := VisitAll(msg, off);
    if n.WalkErr? then Fail(n.err)
    else if Add16(n.next, 4) > |msg| then Fail(Truncated)
    else Ok((), Add16(n.next, 4))
  }

  function SkipResource(msg: seq<byte>, off: nat): (r: Decoded<()>)
    requires off <= |msg|
    ensures r.Ok? ==> r.next <= |msg|
  {
    var n := VisitAll(msg, off);
    if n.WalkErr? then Fail(n.err)
    else if Add16(n.next, 8) > |msg| || Add16(n.next, 8) + 2 > |msg| then Fail(Panic)
    else
      var end := Add16(n.next, Get16(msg, Add16(n.next, 8)) + 10);
      if end > |msg| then Fail(Truncated) else Ok((), end)
  }

  function EncodeQuestion(q: Question): seq<byte> {
    q.name + Be16(q.typ) + Be16(q.class_)
  }

  function EncodeHeader(r: Resource): seq<byte> {
    r.name + Be16(r.typ) + Be16(r.class_) + Be32(r.ttl) + Be16(r.length)
  }

  function EncodeResource(r: Resource): seq<byte> {
    EncodeHeader(r) + r.data
  }

  /** A name as `NewName` and `Decode` build it. */
  ghost predicate IsName(name: seq<byte>) {
    exists labels :: IsWire(name, labels)
  }

  ghost predicate IsWire(name: seq<byte>, labels: seq<seq<byte>>) {
    AreLabels(labels) && name == Wire(labels)
  }

  /** A resource that says what it holds: its length, and a name where its type means one. */
  ghost predicate Consistent(r: Resource) {
    IsName(r.name) && r.length == |r.data| && (r.typ == TYPE_CNAME ==> IsName(r.data))
  }

  lemma NameReadsBack(msg: seq<byte>, pre: seq<byte>, name: seq<byte>, post: seq<byte>)
    requires IsName(name) && msg == pre + name + post && |msg| <= MAX16
    ensures DecodeName(msg, |pre|) == Ok(name, |pre| + |name|)
    ensures VisitAll(msg, |pre|).Walk? && VisitAll(msg, |pre|).next == |pre| + |name|
  {
    hide Labels, Wire;
    var labels :| IsWire(name, labels);
    WalkWire(msg, pre, labels, post, MAX_JUMPS);
  }

  lemma QuestionReadsBack(msg: seq<byte>, pre: seq<byte>, q: Question, post: seq<byte>)
    requires IsName(q.name) && msg == pre + EncodeQuestion(q) + post && |msg| <= MAX16
    ensures DecodeQuestion(msg, |pre|) == Ok(q, |pre| + |EncodeQuestion(q)|)
    ensures SkipQuestion(msg, |pre|) == Ok((), |pre| + |EncodeQuestion(q)|)
  {
    hide DecodeName, VisitAll, Be16, Get16, IsName;
    Fixed16(q.typ);
    Fixed16(q.class_);
    var rest := Be16(q.typ) + Be16(q.class_) + post;
    assert msg == pre + q.name + rest;
    NameReadsBack(msg, pre, q.name, rest);
    assert msg == (pre + q.name) + Be16(q.typ) + (Be16(q.class_) + post);
    ReadsBack16(pre + q.name, q.typ, Be16(q.class_) + post);
    assert msg == (pre + q.name + Be16(q.typ)) + Be16(q.class_) + post;
    ReadsBack16(pre + q.name + Be16(q.typ), q.class_, post);
  }

  lemma Fixed16(v: u16)
    ensures |Be16(v)| == 2
  {
  }

  lemma HeaderSize(r: Resource)
    ensures |EncodeHeader(r)| == |r.name| + 10
  {
  }

  /** The fixed fields of a resource, wherever it lies. */
  lemma HeaderReadsBack(msg: seq<byte>, pre: seq<byte>, r: Resource, post: seq<byte>)
    requires msg == pre + EncodeHeader(r) + post
    ensures var at := |pre| + |r.name|;
            && at + 10 + |post| == |msg|
            && Get16(msg, at) == r.typ && Get16(msg, at + 2) == r.class_ && Get32(msg, at + 4) == r.ttl
               && Get16(msg, at + 8) == r.length
  {
    hide Be16, Get16;
    HeaderSize(r);
    Fixed16(r.typ);
    Fixed16(r.class_);
    Fixed16(r.length);
    Fixed16(r.ttl / 0x1_0000);
    Fixed16(r.ttl % 0x1_0000);
    var a, b, c, d, e := Be16(r.typ), Be16(r.class_), Be16(r.ttl / 0x1_0000), Be16(r.ttl % 0x1_0000), Be16(r.length);
    var p := pre + r.name;
    assert msg == p + a + (b + c + d + e + post);
    ReadsBack16(p, r.typ, b + c + d + e + post);
    assert msg == (p + a) + b + (c + d + e + post);
    ReadsBack16(p + a, r.class_, c + d + e + post);
    assert msg == (p + a + b) + c + (d + e + post);
    ReadsBack16(p + a + b, r.ttl / 0x1_0000, d + e + post);
    assert msg == (p + a + b + c) + d + (e + post);
    ReadsBack16(p + a + b + c, r.ttl % 0x1_0000, e + post);
    assert msg == (p + a + b + c + d) + e + post;
    ReadsBack16(p + a + b + c + d, r.length, post);
  }

  /** The names and the data of a resource, wherever it lies. */
  lemma ResourceParts(msg: seq<byte>, pre: seq<byte>, r: Resource, post: seq<byte>)
    requires Consistent(r) && msg == pre + EncodeResource(r) + post && |msg| <= MAX16
    ensures var at := |pre| + |r.name|;
            && |EncodeResource(r)| == |r.name| + 10 + |r.data| && at + 10 + |r.data| <= |msg|
            && DecodeName(msg, |pre|) == Ok(r.name, at) && VisitAll(msg, |pre|).Walk? && VisitAll(msg, |pre|).next == at
            && msg[at + 10..at + 10 + |r.data|] == r.data
            && (r.typ == TYPE_CNAME ==> DecodeName(msg, at + 10).Ok? && DecodeName(msg, at + 10).value == r.data)
  {
    hide DecodeName, VisitAll, IsName, EncodeHeader;
    HeaderSize(r);
    NameAtFront(r);
    var h, tail := EncodeHeader(r), EncodeHeader(r)[|r.name|..];
    assert msg == pre + r.name + (tail + r.data + post);
    NameReadsBack(msg, pre, r.name, tail + r.data + post);
    assert msg == (pre + h) + r.data + post;
    if r.typ == TYPE_CNAME {
      NameReadsBack(msg, pre + h, r.data, post);
    }
  }

  lemma ResourceReadsBack(msg: seq<byte>, pre: seq<byte>, r: Resource, post: seq<byte>)
    requires Consistent(r) && msg == pre + EncodeResource(r) + post && |msg| <= MAX16
    ensures DecodeResource(msg, |pre|) == Ok(r, |pre| + |EncodeResource(r)|)
    ensures SkipResource(msg, |pre|) == Ok((), |pre| + |EncodeResource(r)|)
  {
    hide DecodeName, VisitAll, Get16, Get32, IsName, EncodeResource;
    ResourceParts(msg, pre, r, post);
    ResourceFields(msg, pre, r, post);
  }

  lemma ResourceFields(msg: seq<byte>, pre: seq<byte>, r: Resource, post: seq<byte>)
    requires msg == pre + EncodeResource(r) + post
    ensures var at := |pre| + |r.name|;
            && at + 10 <= |msg|
            && Get16(msg, at) == r.typ && Get16(msg, at + 2) == r.class_ && Get32(msg, at + 4) == r.ttl
               && Get16(msg, at + 8) == r.length
  {
    hide Get16, Get32, EncodeHeader;
    assert msg == pre + EncodeHeader(r) + (r.data + post);
    HeaderReadsBack(msg, pre, r, r.data + post);
  }

  lemma NameAtFront(r: Resource)
    ensures |EncodeHeader(r)| >= |r.name| && EncodeHeader(r) == r.name + EncodeHeader(r)[|r.name|..]
  {
  }
}
