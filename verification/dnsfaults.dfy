/**
  Where decoding an arbitrary DNS message departs from RFC 1035 or panics (dns/dns.go), with the exact
  condition.
*/
module DnsFaults {
  import opened Bytes
  import opened Options
  import opened DnsWire
  import opened DnsMessages

  // ---- where a name ends

  /** End of the name at `off` as section 4.1.4 of RFC 1035 has it: past its terminator or past its first pointer. */
  function NameEnd(msg: seq<byte>, off: nat): Option<nat>
    requires off <= |msg|
    decreases |msg| - off
  {
    if off == |msg| then None
    else if msg[off] == 0 then Some(off + 1)
    else if msg[off] >= 192 then (if off + 2 <= |msg| then Some(off + 2) else None)
    else if msg[off] < 64 && off + 1 + msg[off] <= |msg| then NameEnd(msg, off + 1 + msg[off])
    else None
  }

  /** Where the name at `off` has its terminator or its first pointer. */
  function NameStop(msg: seq<byte>, off: nat): (r: nat)
    requires off <= |msg|
    ensures off <= r <= |msg|
    decreases |msg| - off
  {
    if off < |msg| && 0 < msg[off] < 64 && off + 1 + msg[off] <= |msg| then NameStop(msg, off + 1 + msg[off]) else off
  }

  predicate PointsToZero(msg: seq<byte>, at: nat) {
    at + 2 <= |msg| && msg[at] == 192 && msg[at + 1] == 0
  }

  lemma {:induction false} LabelsEnd(msg: seq<byte>, off: nat, left: nat)
    requires off <= |msg| && Labels(msg, off, left).Walk?
    ensures NameEnd(msg, off).Some?
    ensures var (next, stop) := (Labels(msg, off, left).next, NameStop(msg, off));
            next == NameEnd(msg, off).value - if PointsToZero(msg, stop) then 1 else 0
    decreases |msg| - off
  {
    if NextLabel(msg, off).Label? {
      LabelsEnd(msg, off + 1 + |NextLabel(msg, off).text|, left);
    }
  }

  /**
    What follows a name is looked for where the name ends, if and only if the name does not stop at a pointer to
    zero.
  */
  lemma NameEndExactly(msg: seq<byte>, off: nat)
    requires off <= |msg| && VisitAll(msg, off).Walk?
    ensures NameEnd(msg, off).Some?
    ensures VisitAll(msg, off).next == NameEnd(msg, off).value <==> !PointsToZero(msg, NameStop(msg, off))
  {
    LabelsEnd(msg, off, MAX_JUMPS);
  }

  /** A name `A` ended by a pointer to zero: the pointer's second byte is taken for what follows. */
  lemma PointerToZero()
    ensures VisitAll([1, 65, 192, 0, 9], 0) == Walk([[65]], 3) && NameEnd([1, 65, 192, 0, 9], 0) == Some(4)
  {
    var msg: seq<byte> := [1, 65, 192, 0, 9];
    assert msg[1..2] == [65];
    assert NextLabel(msg, 0) == Label([65]) && NextLabel(msg, 2) == Terminator;
    assert NameEnd(msg, 2) == Some(4);
  }

  // ---- panics

  /** What is done with one record: kept or skipped. */
  datatype Record = KeepQuestion | SkipQuestion_ | KeepResource | SkipResource_

  /** The name is read, and the fixed fields behind it run past what the offset arithmetic noticed. */
  predicate Overruns(msg: seq<byte>, off: nat, rec: Record)
    requires off <= |msg|
  {
    var w := VisitAll(msg, off);
    w.Walk? &&
    match rec
    case KeepQuestion => w.next + 4 > MAX16
    case SkipQuestion_ => false
    case KeepResource => w.next + 10 > MAX16
    case SkipResource_ => w.next + 10 > |msg| && w.next + 8 <= MAX16
  }

  /** Where the record after the one at `off` starts. */
  function After(msg: seq<byte>, off: nat, rec: Record): (r: Decoded<()>)
    requires off <= |msg|
    ensures r.Ok? ==> r.next <= |msg|
  {
    match rec
    case KeepQuestion => var q := DecodeQuestion(msg, off); if q.Ok? then Ok((), q.next) else Fail(q.err)
    case SkipQuestion_ => SkipQuestion(msg, off)
    case KeepResource => var q := DecodeResource(msg, off); if q.Ok? then Ok((), q.next) else Fail(q.err)
    case SkipResource_ => SkipResource(msg, off)
  }

  lemma WalksDoNotPanic(msg: seq<byte>, off: nat, left: nat)
    requires off <= |msg|
    ensures Labels(msg, off, left) != WalkErr(Panic)
    decreases left, |msg| - off
  {
    match NextLabel(msg, off)
    case LabelErr(_) =>
    case Terminator =>
    case Pointer(target) =>
      if target < |msg| && left > 0 {
        WalksDoNotPanic(msg, target, left - 1);
      }
    case Label(text) => WalksDoNotPanic(msg, off + 1 + |text|, left);
  }

  /** Reading one record panics exactly when it overruns. */
  lemma RecordPanicsExactly(msg: seq<byte>, off: nat, rec: Record)
    requires off <= |msg|
    ensures After(msg, off, rec) == Fail(Panic) <==> Overruns(msg, off, rec)
  {
    hide Labels, Get16, Get32, Wire;
    WalksDoNotPanic(msg, off, MAX_JUMPS);
  }

  function Repeat(rec: Record, n: nat): (r: seq<Record>)
    ensures |r| == n && forall i :: 0 <= i < n ==> r[i] == rec
  {
    seq(n, i => rec)
  }

  /** What is done with a section of `n` records of which `room` are kept. */
  function Plan(n: nat, room: nat, keep: Record, skip: Record): seq<Record> {
    Repeat(keep, Min(n, room)) + Repeat(skip, n - Min(n, room))
  }

  function ResourcePlan(n: nat, cap: Option<nat>): seq<Record> {
    if cap.None? then [] else Plan(n, Room(cap), KeepResource, SkipResource_)
  }

  /** What is done with every record of a message, in order. */
  function MessagePlan(msg: seq<byte>, caps: Caps): seq<Record>
    requires |msg| >= SIZE_HEADER
  {
    Plan(Get16(msg, 4), caps.questions, KeepQuestion, SkipQuestion_) + ResourcePlan(Get16(msg, 6), caps.answers)
    + ResourcePlan(Get16(msg, 8), caps.authorities) + ResourcePlan(Get16(msg, 10), caps.additionals)
  }

  /** Reading the records from `off` on: where they end, or why the first failing one fails. */
  function ReadAll(msg: seq<byte>, off: nat, plan: seq<Record>): (r: Decoded<()>)
    requires off <= |msg|
    ensures r.Ok? ==> r.next <= |msg|
    decreases |plan|
  {
    if plan == [] then Ok((), off)
    else
      var r := After(msg, off, plan[0]);
      if r.Fail? then r else ReadAll(msg, r.next, plan[1..])
  }

  /** Every record before the `i`th is read, and that one starts at `at` and overruns. */
  ghost predicate OverrunsAt(msg: seq<byte>, off: nat, plan: seq<Record>, i: nat, at: nat)
    requires off <= |msg|
  {
    && i < |plan| && at <= |msg| && Overruns(msg, at, plan[i])
    && ReadAll(msg, off, plan[..i]).Ok? && ReadAll(msg, off, plan[..i]).next == at
  }

  /** Reading records panics exactly when, after some records that are read, one overruns. */
  lemma {:induction false} ReadPanicsExactly(msg: seq<byte>, off: nat, plan: seq<Record>)
    requires off <= |msg|
    ensures ReadAll(msg, off, plan) == Fail(Panic) <==> exists i: nat, at: nat :: OverrunsAt(msg, off, plan, i, at)
    decreases |plan|
  {
    hide After, Overruns;
    if plan != [] {
      var r := After(msg, off, plan[0]);
      RecordPanicsExactly(msg, off, plan[0]);
      assert plan[..0] == [];
      if r.Fail? {
        if r.err == Panic {
          assert OverrunsAt(msg, off, plan, 0, off);
        } else {
          forall i: nat, at: nat
            ensures !OverrunsAt(msg, off, plan, i, at)
          {
            if 0 < i < |plan| {
              assert plan[..i][0] == plan[0];
            }
          }
        }
      } else {
        ReadPanicsExactly(msg, r.next, plan[1..]);
        if i: nat, at: nat :| OverrunsAt(msg, off, plan, i, at) {
          assert i > 0;
          LaterOverrun(msg, off, plan, r.next, i - 1, at);
        }
        if i: nat, at: nat :| OverrunsAt(msg, r.next, plan[1..], i, at) {
          LaterOverrun(msg, off, plan, r.next, i, at);
        }
      }
    }
  }

  lemma LaterOverrun(msg: seq<byte>, off: nat, plan: seq<Record>, next: nat, i: nat, at: nat)
    requires off <= |msg| && plan != [] && After(msg, off, plan[0]).Ok? && After(msg, off, plan[0]).next == next
    ensures OverrunsAt(msg, off, plan, i + 1, at) <==> OverrunsAt(msg, next, plan[1..], i, at)
  {
    hide After, Overruns;
    if i + 1 < |plan| {
      assert plan[..i + 1][0] == plan[0] && plan[..i + 1][1..] == plan[1..][..i];
    }
  }

  /** Two ways of reading that end at the same place or fail alike. */
  predicate Alike<T>(r: Decoded<T>, s: Decoded<()>) {
    if r.Ok? then s.Ok? && s.next == r.next else s == Fail(r.err)
  }

  lemma PlanStep(n: nat, room: nat, keep: Record, skip: Record)
    requires n > 0
    ensures var plan := Plan(n, room, keep, skip);
            plan != [] && plan[0] == (if room > 0 then keep else skip)
              && plan[1..] == Plan(n - 1, if room > 0 then room - 1 else 0, keep, skip)
  {
  }

  lemma {:induction false} QuestionsByPlan(msg: seq<byte>, off: nat, n: nat, room: nat)
    requires off <= |msg|
    ensures Alike(QuestionsUpTo(msg, off, n, room), ReadAll(msg, off, Plan(n, room, KeepQuestion, SkipQuestion_)))
    decreases n
  {
    hide DecodeQuestion, SkipQuestion, Plan;
    if n == 0 {
      NoPlan(room, KeepQuestion, SkipQuestion_);
    } else {
      PlanStep(n, room, KeepQuestion, SkipQuestion_);
      var q := After(msg, off, if room > 0 then KeepQuestion else SkipQuestion_);
      if q.Ok? {
        QuestionsByPlan(msg, q.next, n - 1, if room > 0 then room - 1 else 0);
      }
    }
  }

  lemma {:induction false} ResourcesByPlan(msg: seq<byte>, off: nat, n: nat, room: nat)
    requires off <= |msg|
    ensures Alike(ResourcesUpTo(msg, off, n, room), ReadAll(msg, off, Plan(n, room, KeepResource, SkipResource_)))
    decreases n
  {
    hide DecodeResource, SkipResource, Plan;
    if n == 0 {
      NoPlan(room, KeepResource, SkipResource_);
    } else {
      PlanStep(n, room, KeepResource, SkipResource_);
      var q := After(msg, off, if room > 0 then KeepResource else SkipResource_);
      if q.Ok? {
        ResourcesByPlan(msg, q.next, n - 1, if room > 0 then room - 1 else 0);
      }
    }
  }

  lemma NoPlan(room: nat, keep: Record, skip: Record)
    ensures Plan(0, room, keep, skip) == []
  {
  }

  lemma SectionByPlan(msg: seq<byte>, off: nat, n: nat, cap: Option<nat>)
    requires off <= |msg|
    ensures Alike(Section(msg, off, n, cap), ReadAll(msg, off, ResourcePlan(n, cap)))
  {
    hide ResourcesUpTo, Plan;
    if cap.Some? {
      ResourcesByPlan(msg, off, n, Room(cap));
    }
  }

  lemma {:induction false} ReadAppended(msg: seq<byte>, off: nat, a: seq<Record>, b: seq<Record>)
    requires off <= |msg|
    ensures var r := ReadAll(msg, off, a); ReadAll(msg, off, a + b) == if r.Fail? then r else ReadAll(msg, r.next, b)
    decreases |a|
  {
    hide After;
    if a == [] {
      assert a + b == b;
    } else {
      assert (a + b)[1..] == a[1..] + b;
      var r := After(msg, off, a[0]);
      if r.Ok? {
        ReadAppended(msg, r.next, a[1..], b);
      }
    }
  }

  lemma DecodeByPlan(msg: seq<byte>, caps: Caps)
    requires |msg| >= SIZE_HEADER
    ensures Alike(Decode(msg, caps), ReadAll(msg, SIZE_HEADER, MessagePlan(msg, caps)))
  {
    hide QuestionsUpTo, Section, Plan, ResourcePlan, ReadAll, Get16;
    var p, a, b, c := Plan(Get16(msg, 4), caps.questions, KeepQuestion, SkipQuestion_),
      ResourcePlan(Get16(msg, 6), caps.answers),
                      ResourcePlan(Get16(msg, 8), caps.authorities), ResourcePlan(Get16(msg, 10), caps.additionals);
    ReadAppended(msg, SIZE_HEADER, p + a + b, c);
    ReadAppended(msg, SIZE_HEADER, p + a, b);
    ReadAppended(msg, SIZE_HEADER, p, a);
    QuestionsByPlan(msg, SIZE_HEADER, Get16(msg, 4), caps.questions);
    var q := QuestionsUpTo(msg, SIZE_HEADER, Get16(msg, 4), caps.questions);
    if q.Ok? {
      SectionByPlan(msg, q.next, Get16(msg, 6), caps.answers);
      var x := Section(msg, q.next, Get16(msg, 6), caps.answers);
      if x.Ok? {
        SectionByPlan(msg, x.next, Get16(msg, 8), caps.authorities);
        var y := Section(msg, x.next, Get16(msg, 8), caps.authorities);
        if y.Ok? {
          SectionByPlan(msg, y.next, Get16(msg, 10), caps.additionals);
        }
      }
    }
  }

  /** Decoding a message panics exactly when, after records that are read, one overruns. */
  lemma DecodePanicsExactly(msg: seq<byte>, caps: Caps)
    ensures Decode(msg, caps) == Fail(Panic) <==>
            |msg| >= SIZE_HEADER && exists i: nat, at: nat ::
              OverrunsAt(msg, SIZE_HEADER, MessagePlan(msg, caps), i, at)
  {
    hide OverrunsAt, MessagePlan, ReadAll, QuestionsUpTo, Section;
    if |msg| >= SIZE_HEADER {
      DecodeByPlan(msg, caps);
      ReadPanicsExactly(msg, SIZE_HEADER, MessagePlan(msg, caps));
    }
  }

  /** A header that promises one answer, a root name, and nothing more: skipping the answer panics. */
  lemma TruncatedAnswerPanics()
    ensures var msg: seq<byte> := [0, 0, 0, 0, 0, 0, 0, 1, 0, 0, 0, 0, 0];
            Decode(msg, Caps(0, Some(0), Some(0), Some(0))) == Fail(Panic)
  {
    var msg: seq<byte> := [0, 0, 0, 0, 0, 0, 0, 1, 0, 0, 0, 0, 0];
    assert VisitAll(msg, 12) == Walk([], 13);
    assert SkipResource(msg, 12) == Fail(Panic);
    assert ResourcesUpTo(msg, 12, 1, 0) == Fail(Panic);
  }

  /** A message with room to spare below 2^16 bytes whose records are all kept is decoded or refused, never a panic. */
  lemma KeptNeverPanics(msg: seq<byte>, caps: Caps)
    requires |msg| + 10 <= MAX16
    requires |msg| >= SIZE_HEADER ==>
               Get16(msg, 6) <= Room(caps.answers) && Get16(msg, 8) <= Room(caps.authorities)
                 && Get16(msg, 10) <= Room(caps.additionals)
    ensures Decode(msg, caps) != Fail(Panic)
  {
    hide Decode, Get16, ReadAll, Room, Labels;
    DecodePanicsExactly(msg, caps);
    if |msg| >= SIZE_HEADER {
      forall i: nat, at: nat
        ensures !OverrunsAt(msg, SIZE_HEADER, MessagePlan(msg, caps), i, at)
      {
        if i < |MessagePlan(msg, caps)| {
          NothingSkipped(msg, caps, i);
        }
      }
    }
  }

  lemma NothingSkipped(msg: seq<byte>, caps: Caps, i: nat)
    requires |msg| >= SIZE_HEADER && i < |MessagePlan(msg, caps)|
    requires Get16(msg, 6) <= Room(caps.answers) && Get16(msg, 8) <= Room(caps.authorities)
             && Get16(msg, 10) <= Room(caps.additionals)
    ensures MessagePlan(msg, caps)[i] != SkipResource_
  {
    hide Get16, Room;
  }

  /** The largest message that `Decode` looks at, promising questions with root names and zeros for types. */
  function Largest(): (msg: seq<byte>)
    ensures |msg| == MAX16 && forall i :: 0 <= i < MAX16 ==> msg[i] == if i == 4 || i == 5 then 255 else 0
  {
    seq(MAX16, i => if i == 4 || i == 5 then 255 else 0)
  }

  lemma {:induction false} LastQuestionWraps(off: nat, n: nat)
    requires SIZE_HEADER <= off <= 65532 && off % 5 == 2 && n * 5 > 65532 - off
    ensures QuestionsUpTo(Largest(), off, n, n) == Fail(Panic)
    decreases n
  {
    hide Largest, Wire, Get16, Decode;
    var msg := Largest();
    assert NextLabel(msg, off) == Terminator;
    assert VisitAll(msg, off) == Walk([], off + 1);
    if off < 65532 {
      LastQuestionWraps(off + 5, n - 1);
    }
  }

  /** There the offset of a question's fields wraps, and reading them panics. */
  lemma LargestPanics()
    ensures Decode(Largest(), Caps(MAX16, Some(0), Some(0), Some(0))) == Fail(Panic)
  {
    hide Largest, QuestionsUpTo, Section;
    assert Get16(Largest(), 4) == MAX16;
    LastQuestionWraps(SIZE_HEADER, MAX16);
  }

  /** With a nil slice for the answers, the answers are handed out as the authorities. */
  lemma NilAnswersShift(m: Message, txid: u16, flags: u16)
    requires WellFormed(m) && |Encode(m, txid, flags)| <= MAX16 && |m.answers| == |m.authorities|
    ensures var r := Decode(Encode(m, txid, flags), Caps(MAX16, None, Some(MAX16), Some(MAX16)));
            r.Ok? && r.value.authorities == m.answers
  {
    hide Decode, Encode, EncodeResources, WellFormed;
    var caps := Caps(MAX16, None, Some(MAX16), Some(MAX16));
    CountableSections(m);
    DecodeEncoded(m, txid, flags, caps);
    assert AllResources(m)[..|m.answers|] == m.answers;
  }

  lemma CountableSections(m: Message)
    requires WellFormed(m)
    ensures |m.authorities| <= MAX16
  {
  }
}
