/** Whole DNS messages and the building of names (dns/dns.go). */
module DnsMessages {
  import opened Bytes
  import opened Options
  import opened DnsWire

  datatype Message = Message(questions: seq<Question>, answers: seq<Resource>, authorities: seq<Resource>,
                             additionals: seq<Resource>)

  /** Capacities of the sections decoded into; a resource section may be nil. */
  datatype Caps = Caps(questions: nat, answers: Option<nat>, authorities: Option<nat>, additionals: Option<nat>)

  /** Resources a section keeps: the source compares the capacity in 16 bits. */
  function Room(cap: Option<nat>): nat {
    if cap.None? then 0 else cap.value % 0x1_0000
  }

  function CapOrZero(cap: Option<nat>): nat {
    if cap.None? then 0 else cap.value
  }

  // ---- encoding

  function EncodeQuestions(qs: seq<Question>): seq<byte> {
    if qs == [] then [] else EncodeQuestion(qs[0]) + EncodeQuestions(qs[1..])
  }

  function EncodeResources(rs: seq<Resource>): seq<byte> {
    if rs == [] then [] else EncodeResource(rs[0]) + EncodeResources(rs[1..])
  }

  function EncodeCounts(m: Message): seq<byte>
    requires Countable(m)
  {
    Be16(|m.questions|) + Be16(|m.answers|) + Be16(|m.authorities|) + Be16(|m.additionals|)
  }

  predicate Countable(m: Message) {
    |m.questions| <= MAX16 && |m.answers| <= MAX16 && |m.authorities| <= MAX16 && |m.additionals| <= MAX16
  }

  function EncodeBody(m: Message): seq<byte> {
    EncodeQuestions(m.questions) + EncodeResources(m.answers) + EncodeResources(m.authorities) +
      EncodeResources(m.additionals)
  }

  /** The message as `AppendTo` writes it. */
  function Encode(m: Message, txid: u16, flags: u16): seq<byte>
    requires Countable(m)
  {
    Be16(txid) + Be16(flags) + EncodeCounts(m) + EncodeBody(m)
  }

  /** The identifier and the flags come first, and can be read there. */
  lemma HeadReadsBack(m: Message, txid: u16, flags: u16)
    requires Countable(m)
    ensures |Encode(m, txid, flags)| >= 4
    ensures Get16(Encode(m, txid, flags), 0) == txid && Get16(Encode(m, txid, flags), 2) == flags
  {
    hide Be16, Get16, EncodeBody, EncodeCounts;
    Fixed16(txid);
    Fixed16(flags);
    var rest := EncodeCounts(m) + EncodeBody(m);
    assert Encode(m, txid, flags) == [] + Be16(txid) + (Be16(flags) + rest);
    ReadsBack16([], txid, Be16(flags) + rest);
    assert Encode(m, txid, flags) == Be16(txid) + Be16(flags) + rest;
    ReadsBack16(Be16(txid), flags, rest);
  }

  /** Names built by `NewName` or decoded, lengths that agree with the data. */
  ghost predicate WellFormed(m: Message) {
    && Countable(m) && (forall i :: 0 <= i < |m.questions| ==> IsName(m.questions[i].name))
    && AllConsistent(m.answers) && AllConsistent(m.authorities) && AllConsistent(m.additionals)
  }

  ghost predicate AllConsistent(rs: seq<Resource>) {
    forall i :: 0 <= i < |rs| ==> Consistent(rs[i])
  }

  // ---- decoding

  /** `n` questions, the first `cap` kept and the rest skipped. */
  function QuestionsUpTo(msg: seq<byte>, off: nat, n: nat, cap: nat): (r: Decoded<seq<Question>>)
    requires off <= |msg|
    ensures r.Ok? ==> r.next <= |msg| && |r.value| == Min(n, cap)
    decreases n
  {
    if n == 0 then Ok([], off)
    else if cap > 0 then
      var q := DecodeQuestion(msg, off);
      if q.Fail? then Fail(q.err)
      else
        var r := QuestionsUpTo(msg, q.next, n - 1, cap - 1);
        if r.Fail? then r else Ok([q.value] + r.value, r.next)
    else
      var q := SkipQuestion(msg, off);
      if q.Fail? then Fail(q.err) else QuestionsUpTo(msg, q.next, n - 1, 0)
  }

  /** `n` resources, the first `cap` kept and the rest skipped. */
  function ResourcesUpTo(msg: seq<byte>, off: nat, n: nat, cap: nat): (r: Decoded<seq<Resource>>)
    requires off <= |msg|
    ensures r.Ok? ==> r.next <= |msg| && |r.value| == Min(n, cap)
    decreases n
  {
    if n == 0 then Ok([], off)
    else if cap > 0 then
      var q := DecodeResource(msg, off);
      if q.Fail? then Fail(q.err)
      else
        var r := ResourcesUpTo(msg, q.next, n - 1, cap - 1);
        if r.Fail? then r else Ok([q.value] + r.value, r.next)
    else
      var q := SkipResource(msg, off);
      if q.Fail? then Fail(q.err) else ResourcesUpTo(msg, q.next, n - 1, 0)
  }

  /** One resource section; a nil one is passed over, not skipped. */
  function Section(msg: seq<byte>, off: nat, n: nat, cap: Option<nat>): (r: Decoded<seq<Resource>>)
    requires off <= |msg|
    ensures r.Ok? ==> r.next <= |msg|
  {
    if cap.None? then Ok([], off) else ResourcesUpTo(msg, off, n, Room(cap))
  }

  /** `DecodeMessage`. */
  function Decode(msg: seq<byte>, caps: Caps): Decoded<Message> {
    if |msg| < SIZE_HEADER then Fail(Truncated)
    else
      var q := QuestionsUpTo(msg, SIZE_HEADER, Get16(msg, 4), caps.questions);
      if q.Fail? then Fail(q.err)
      else
        var a := Section(msg, q.next, Get16(msg, 6), caps.answers);
        if a.Fail? then Fail(a.err)
        else
          var b := Section(msg, a.next, Get16(msg, 8), caps.authorities);
          if b.Fail? then Fail(b.err)
          else
            var c := Section(msg, b.next, Get16(msg, 10), caps.additionals);
            if c.Fail? then Fail(c.err) else Ok(Message(q.value, a.value, b.value, c.value), c.next)
  }

  /** Whether a section was cut to its capacity. */
  predicate Incomplete(msg: seq<byte>, caps: Caps)
    requires |msg| >= SIZE_HEADER
  {
    Get16(msg, 4) > caps.questions || Get16(msg, 6) > CapOrZero(caps.answers)
      || Get16(msg, 8) > CapOrZero(caps.authorities)
    || Get16(msg, 10) > CapOrZero(caps.additionals)
  }

  // ---- round trip

  lemma {:induction false} QuestionsReadBack(msg: seq<byte>, pre: seq<byte>, qs: seq<Question>, post: seq<byte>,
                                             cap: nat)
    requires msg == pre + EncodeQuestions(qs) + post && |msg| <= MAX16
    requires forall i :: 0 <= i < |qs| ==> IsName(qs[i].name)
    ensures QuestionsUpTo(msg, |pre|, |qs|, cap) == Ok(qs[..Min(|qs|, cap)], |pre| + |EncodeQuestions(qs)|)
    decreases |qs|
  {
    hide DecodeQuestion, SkipQuestion, EncodeQuestion, IsName;
    if qs != [] {
      var e, rest := EncodeQuestion(qs[0]), EncodeQuestions(qs[1..]);
      assert msg == pre + e + (rest + post) == (pre + e) + rest + post;
      QuestionReadsBack(msg, pre, qs[0], rest + post);
      QuestionsReadBack(msg, pre + e, qs[1..], post, if cap > 0 then cap - 1 else 0);
      assert cap > 0 ==> qs[..Min(|qs|, cap)] == [qs[0]] + qs[1..][..Min(|qs| - 1, cap - 1)];
    }
  }

  lemma CountsReadBack(m: Message, txid: u16, flags: u16)
    requires Countable(m)
    ensures var msg := Encode(m, txid, flags);
            && |msg| == SIZE_HEADER + |EncodeBody(m)|
            && Get16(msg, 4) == |m.questions| && Get16(msg, 6) == |m.answers|
            && Get16(msg, 8) == |m.authorities| && Get16(msg, 10) == |m.additionals|
  {
    hide EncodeBody;
  }

  /** A message cut to what is kept. */
  function Cut(m: Message, caps: Caps): Message {
    Message(m.questions[..Min(|m.questions|, caps.questions)], m.answers[..Min(|m.answers|, Room(caps.answers))],
            m.authorities[..Min(|m.authorities|, Room(caps.authorities))],
              m.additionals[..Min(|m.additionals|, Room(caps.additionals))])
  }

  lemma {:induction false} ResourcesConcat(a: seq<Resource>, b: seq<Resource>)
    ensures EncodeResources(a + b) == EncodeResources(a) + EncodeResources(b)
    decreases |a|
  {
    hide EncodeResource;
    if a == [] {
      assert a + b == b;
    } else {
      ResourcesConcat(a[1..], b);
      assert (a + b)[1..] == a[1..] + b;
    }
  }

  /** The first `n` of the resources from `|pre|` on, the first `cap` kept and the rest skipped. */
  lemma {:induction false} ResourcesReadBack(msg: seq<byte>, pre: seq<byte>, rs: seq<Resource>, n: nat, cap: nat)
    requires msg == pre + EncodeResources(rs) && |msg| <= MAX16 && AllConsistent(rs) && n <= |rs|
    ensures var r := ResourcesUpTo(msg, |pre|, n, cap);
            r.Ok? && r.value == rs[..Min(n, cap)] && r.next + |EncodeResources(rs[n..])| == |msg|
    decreases n
  {
    hide DecodeResource, SkipResource, EncodeResource, Consistent;
    if n == 0 {
      assert rs[0..] == rs;
    } else {
      var e, rest := EncodeResource(rs[0]), EncodeResources(rs[1..]);
      assert msg == pre + e + rest == (pre + e) + rest;
      ResourceReadsBack(msg, pre, rs[0], rest);
      ResourcesReadBack(msg, pre + e, rs[1..], n - 1, if cap > 0 then cap - 1 else 0);
      assert rs[1..][n - 1..] == rs[n..];
      assert cap > 0 ==> rs[..Min(n, cap)] == [rs[0]] + rs[1..][..Min(n - 1, cap - 1)];
    }
  }

  /** The resources after a section of `n`: a nil one leaves them all. */
  function Past(rs: seq<Resource>, n: nat, cap: Option<nat>): (r: seq<Resource>)
    requires n <= |rs|
    ensures |r| == if cap.None? then |rs| else |rs| - n
  {
    if cap.None? then rs else rs[n..]
  }

  /** A section read where the resources `rs` start; the next one is read where `Past` starts. */
  lemma SectionReads(msg: seq<byte>, pre: seq<byte>, rs: seq<Resource>, n: nat, cap: Option<nat>)
      returns (pre': seq<byte>)
    requires msg == pre + EncodeResources(rs) && |msg| <= MAX16 && AllConsistent(rs) && n <= |rs|
    ensures Section(msg, |pre|, n, cap) == Ok(rs[..Min(n, Room(cap))], |pre'|)
    ensures msg == pre' + EncodeResources(Past(rs, n, cap)) && AllConsistent(Past(rs, n, cap))
  {
    hide EncodeResources, ResourcesUpTo, Consistent;
    if cap.None? {
      pre' := pre;
    } else {
      ResourcesReadBack(msg, pre, rs, n, Room(cap));
      assert rs == rs[..n] + rs[n..];
      ResourcesConcat(rs[..n], rs[n..]);
      pre' := pre + EncodeResources(rs[..n]);
    }
  }

  lemma NoBytesExactly(rs: seq<Resource>)
    ensures EncodeResources(rs) == [] <==> rs == []
  {
    if rs != [] {
      HeaderSize(rs[0]);
    }
  }

  /** The message's resources in one sequence. */
  function AllResources(m: Message): seq<Resource> {
    m.answers + m.authorities + m.additionals
  }

  /** The resources the additionals are read from, and those left over. */
  function Leftover(m: Message, caps: Caps): (r: (seq<Resource>, seq<Resource>, seq<Resource>))
    ensures |r.0| >= |m.authorities| + |m.additionals| && |r.1| >= |m.additionals|
  {
    var b := Past(AllResources(m), |m.answers|, caps.answers);
    var c := Past(b, |m.authorities|, caps.authorities);
    (b, c, Past(c, |m.additionals|, caps.additionals))
  }

  /** What the sections hand out: the resources at their turn, which are their own unless a nil one came before. */
  function Handed(m: Message, caps: Caps): Message {
    var (b, c, _) := Leftover(m, caps);
    Message(m.questions[..Min(|m.questions|, caps.questions)], AllResources(m)[..Min(|m.answers|, Room(caps.answers))],
            b[..Min(|m.authorities|, Room(caps.authorities))], c[..Min(|m.additionals|, Room(caps.additionals))])
  }

  /** What decoding an encoded message gives, whichever sections are nil. */
  lemma DecodeEncoded(m: Message, txid: u16, flags: u16, caps: Caps)
    requires WellFormed(m) && |Encode(m, txid, flags)| <= MAX16
    ensures var r := Decode(Encode(m, txid, flags), caps);
            && r.Ok? && r.value == Handed(m, caps)
            && r.next == |Encode(m, txid, flags)| - |EncodeResources(Leftover(m, caps).2)|
  {
    hide QuestionsUpTo, EncodeQuestions, EncodeResources, AllConsistent, IsName, Get16, Encode, EncodeBody, Section,
         Past, Room;
    var msg, rs := Encode(m, txid, flags), AllResources(m);
    CountsReadBack(m, txid, flags);
    var q := EncodeQuestions(m.questions);
    BodyIs(m, txid, flags);
    var h, r := msg[..SIZE_HEADER], EncodeResources(rs);
    assert msg == h + q + r == (h + q) + r;
    QuestionsReadBack(msg, h, m.questions, r, caps.questions);
    JoinedConsistent(m);
    var b, c := Leftover(m, caps).0, Leftover(m, caps).1;
    var p := SectionReads(msg, h + q, rs, |m.answers|, caps.answers);
    p := SectionReads(msg, p, b, |m.authorities|, caps.authorities);
    p := SectionReads(msg, p, c, |m.additionals|, caps.additionals);
  }

  lemma JoinedConsistent(m: Message)
    requires AllConsistent(m.answers) && AllConsistent(m.authorities) && AllConsistent(m.additionals)
    ensures AllConsistent(AllResources(m))
  {
    hide Consistent;
  }

  /** Every nil section is an empty one. */
  predicate NilEmpty(m: Message, caps: Caps) {
    && (caps.answers.None? ==> m.answers == []) && (caps.authorities.None? ==> m.authorities == [])
    && (caps.additionals.None? ==> m.additionals == [])
  }

  /**
    Decoding inverts encoding, every section whole when it fits and cut to what is kept otherwise and all bytes
    consumed, if and only if every section passed as nil is empty: a nil one is not skipped.
  */
  lemma DecodeInvertsEncode(m: Message, txid: u16, flags: u16, caps: Caps)
    requires WellFormed(m) && |Encode(m, txid, flags)| <= MAX16
    ensures Decode(Encode(m, txid, flags), caps) == Ok(Cut(m, caps), |Encode(m, txid, flags)|) <==> NilEmpty(m, caps)
  {
    hide Decode, EncodeResources, WellFormed, Encode, Room;
    DecodeEncoded(m, txid, flags, caps);
    NoBytesExactly(Leftover(m, caps).2);
    if NilEmpty(m, caps) {
      HandedIsCut(m, caps);
    }
  }

  /** The front of a concatenation, and what is past it. */
  lemma FrontOf(a: seq<Resource>, b: seq<Resource>, n: nat, cap: Option<nat>)
    requires n <= |a| && (cap.None? ==> a == [])
    ensures (a + b)[..n] == a[..n] && Past(a + b, |a|, cap) == b
  {
  }

  lemma HandedIsCut(m: Message, caps: Caps)
    requires NilEmpty(m, caps)
    ensures Handed(m, caps) == Cut(m, caps)
  {
    hide Room, Past;
    RoomOfNil(caps.answers);
    RoomOfNil(caps.authorities);
    RoomOfNil(caps.additionals);
    assert AllResources(m) == m.answers + (m.authorities + m.additionals);
    FrontOf(m.answers, m.authorities + m.additionals, Min(|m.answers|, Room(caps.answers)), caps.answers);
    FrontOf(m.authorities, m.additionals, Min(|m.authorities|, Room(caps.authorities)), caps.authorities);
  }

  lemma RoomOfNil(cap: Option<nat>)
    ensures cap.None? ==> Room(cap) == 0
  {
  }

  /**
    The flag that a section was cut never lies when set. When it is not, the message comes back whole if and only if
    no capacity loses its section's count in its low 16 bits.
  */
  lemma IncompleteExactly(m: Message, txid: u16, flags: u16, caps: Caps)
    requires WellFormed(m) && |Encode(m, txid, flags)| <= MAX16
    ensures |Encode(m, txid, flags)| >= SIZE_HEADER
    ensures var msg := Encode(m, txid, flags);
            var r := Decode(msg, caps);
            && r.Ok? && (Incomplete(msg, caps) ==> r.value != m)
            && (!Incomplete(msg, caps) ==>
                  (r.value == m <==>
                    && |m.answers| <= Room(caps.answers) && |m.authorities| <= Room(caps.authorities)
                    && |m.additionals| <= Room(caps.additionals)))
  {
    hide Encode, Get16, EncodeBody, Decode, WellFormed;
    CountableMessage(m);
    CountsReadBack(m, txid, flags);
    DecodeEncoded(m, txid, flags, caps);
    if NilEmpty(m, caps) {
      HandedIsCut(m, caps);
    }
  }

  lemma CountableMessage(m: Message)
    requires WellFormed(m)
    ensures Countable(m)
  {
  }

  /** A capacity of 2^16 keeps nothing, and nothing says so. */
  lemma LargeCapacityKeepsNothing(m: Message, txid: u16, flags: u16)
    requires WellFormed(m) && |Encode(m, txid, flags)| <= MAX16 && m.answers != []
    ensures var caps := Caps(MAX16, Some(0x1_0000), Some(MAX16), Some(MAX16));
            && |Encode(m, txid, flags)| >= SIZE_HEADER && !Incomplete(Encode(m, txid, flags), caps)
            && Decode(Encode(m, txid, flags), caps) == Ok(m.(answers := []), |Encode(m, txid, flags)|)
  {
    hide Encode, Get16, EncodeBody, Decode;
    var caps := Caps(MAX16, Some(0x1_0000), Some(MAX16), Some(MAX16));
    CountsReadBack(m, txid, flags);
    DecodeInvertsEncode(m, txid, flags, caps);
    assert Cut(m, caps) == m.(answers := []);
  }

  lemma BodyIs(m: Message, txid: u16, flags: u16)
    requires Countable(m)
    ensures var msg := Encode(m, txid, flags);
            && |msg| >= SIZE_HEADER
            && msg == msg[..SIZE_HEADER] + EncodeQuestions(m.questions) + EncodeResources(AllResources(m))
  {
    hide EncodeQuestions, EncodeResources;
    var msg, body := Encode(m, txid, flags), EncodeBody(m);
    assert msg == msg[..SIZE_HEADER] + body;
    ResourcesConcat(m.answers + m.authorities, m.additionals);
    ResourcesConcat(m.answers, m.authorities);
  }
}
