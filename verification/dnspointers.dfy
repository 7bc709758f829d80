/**
  Compressed names (section 4.1.4 of RFC 1035): what labels a place in a message spells, and that `dns/dns.go` reads
  them, wherever its pointers lead.
*/
module DnsPointers {
  import opened Bytes
  import opened DnsWire

  /** `part` lies at `off`. */
  predicate LiesAt(msg: seq<byte>, off: nat, part: seq<byte>) {
    off + |part| <= |msg| && msg[off..off + |part|] == part
  }

  /** A pointer to offset `t`: two bits set, and the offset in the other fourteen. */
  function PointerTo(t: nat): seq<byte>
    requires t < 0x4000
  {
    Be16(0xC000 + t)
  }

  predicate EndsAt(msg: seq<byte>, off: nat) {
    LiesAt(msg, off, [0]) || LiesAt(msg, off, PointerTo(0))
  }

  /**
    From `off` on the message spells `labels`: each behind its length, the last before a zero byte, with at most
    `left` pointers on the way. A pointer to the start of the message counts as an end, as in the source.
  */
  ghost predicate Spells(msg: seq<byte>, off: nat, labels: seq<seq<byte>>, left: nat)
    decreases left, |labels|
  {
    || (labels == [] && EndsAt(msg, off))
    || (labels != [] && IsLabel(labels[0]) && LiesAt(msg, off, [|labels[0]|] + labels[0])
        && Spells(msg, off + 1 + |labels[0]|, labels[1..], left))
    || (left > 0 && exists t :: 0 < t < 0x4000 && t < |msg| && LiesAt(msg, off, PointerTo(t))
                               && Spells(msg, t, labels, left - 1))
  }

  lemma EndReads(msg: seq<byte>, off: nat)
    requires off <= |msg|
    ensures EndsAt(msg, off) <==> NextLabel(msg, off) == Terminator
  {
    assert off < |msg| ==> msg[off..off + 1] == [msg[off]];
    assert off + 2 <= |msg| ==> msg[off..off + 2] == [msg[off], msg[off + 1]];
  }

  lemma PointerReads(msg: seq<byte>, off: nat, t: nat)
    requires off <= |msg| && 0 < t < 0x4000
    ensures LiesAt(msg, off, PointerTo(t)) <==> NextLabel(msg, off) == Pointer(t)
  {
    assert off + 2 <= |msg| ==> msg[off..off + 2] == [msg[off], msg[off + 1]];
  }

  lemma LabelReads(msg: seq<byte>, off: nat, text: seq<byte>)
    requires off <= |msg| && IsLabel(text)
    ensures LiesAt(msg, off, [|text|] + text) <==> NextLabel(msg, off) == Label(text)
  {
    var n := |text|;
    if off + 1 + n <= |msg| {
      assert msg[off..off + 1 + n] == [msg[off]] + msg[off + 1..off + 1 + n];
    }
  }

  /** The walk finds exactly the labels that are spelled. */
  lemma {:induction false} LabelsExactly(msg: seq<byte>, off: nat, labels: seq<seq<byte>>, left: nat)
    requires off <= |msg|
    ensures Spells(msg, off, labels, left) <==> Labels(msg, off, left).Walk? && Labels(msg, off, left).labels == labels
    decreases left, |msg| - off
  {
    hide NextLabel, LiesAt, PointerTo, EndsAt;
    EndReads(msg, off);
    match NextLabel(msg, off) {
      case Pointer(target) =>
        PointerReads(msg, off, target);
        OnlyPointer(msg, off, labels, left, target);
        if left > 0 && target < |msg| {
          LabelsExactly(msg, target, labels, left - 1);
        }
      case Label(text) =>
        LabelReads(msg, off, text);
        OnlyLabel(msg, off, labels, left, text);
        if labels != [] && labels[0] == text {
          LabelsExactly(msg, off + 1 + |text|, labels[1..], left);
          assert labels == [text] + labels[1..];
        } else {
          assert forall rest: seq<seq<byte>> :: ([text] + rest)[0] == text;
        }
      case _ => OnlyEnd(msg, off, labels, left);
    }
  }

  lemma OnlyPointer(msg: seq<byte>, off: nat, labels: seq<seq<byte>>, left: nat, target: nat)
    requires off <= |msg| && NextLabel(msg, off) == Pointer(target) && target < 0x4000
    ensures Spells(msg, off, labels, left) <==> left > 0 && target < |msg| && Spells(msg, target, labels, left - 1)
  {
    hide NextLabel, LiesAt, PointerTo, EndsAt;
    EndReads(msg, off);
    PointerReads(msg, off, target);
    if labels != [] && IsLabel(labels[0]) {
      LabelReads(msg, off, labels[0]);
    }
    forall t | 0 < t < 0x4000 && LiesAt(msg, off, PointerTo(t))
      ensures t == target
    {
      PointerReads(msg, off, t);
    }
  }

  lemma OnlyLabel(msg: seq<byte>, off: nat, labels: seq<seq<byte>>, left: nat, text: seq<byte>)
    requires off <= |msg| && NextLabel(msg, off) == Label(text)
    ensures Spells(msg, off, labels, left) <==>
            labels != [] && labels[0] == text && Spells(msg, off + 1 + |text|, labels[1..], left)
  {
    hide NextLabel, LiesAt, PointerTo, EndsAt;
    EndReads(msg, off);
    LabelReads(msg, off, text);
    if labels != [] && IsLabel(labels[0]) {
      LabelReads(msg, off, labels[0]);
    }
    forall t | 0 < t < 0x4000
      ensures !LiesAt(msg, off, PointerTo(t))
    {
      PointerReads(msg, off, t);
    }
  }

  lemma OnlyEnd(msg: seq<byte>, off: nat, labels: seq<seq<byte>>, left: nat)
    requires off <= |msg| && (NextLabel(msg, off).Terminator? || NextLabel(msg, off).LabelErr?)
    ensures Spells(msg, off, labels, left) <==> labels == [] && NextLabel(msg, off).Terminator?
  {
    hide NextLabel, LiesAt, PointerTo, EndsAt;
    EndReads(msg, off);
    if labels != [] && IsLabel(labels[0]) {
      LabelReads(msg, off, labels[0]);
    }
    forall t | 0 < t < 0x4000
      ensures !LiesAt(msg, off, PointerTo(t))
    {
      PointerReads(msg, off, t);
    }
  }

  /** A name is decoded, to its uncompressed form, if and only if the message spells one within ten pointers. */
  lemma NameExactly(msg: seq<byte>, off: nat, labels: seq<seq<byte>>)
    requires off <= |msg| <= MAX16
    ensures Spells(msg, off, labels, MAX_JUMPS) <==>
            DecodeName(msg, off).Ok? && AreLabels(labels) && DecodeName(msg, off).value == Wire(labels)
  {
    hide Labels, Wire, Spells;
    LabelsExactly(msg, off, labels, MAX_JUMPS);
    if DecodeName(msg, off).Ok? && AreLabels(labels) {
      WireDistinct(Labels(msg, off, MAX_JUMPS).labels, labels);
    }
  }

  /** Different names have different wire forms. */
  lemma WireDistinct(a: seq<seq<byte>>, b: seq<seq<byte>>)
    requires AreLabels(a) && AreLabels(b)
    ensures Wire(a) == Wire(b) ==> a == b
  {
    hide Labels, Wire;
    var w := Wire(a);
    assert [] + w + [] == w;
    WalkWire(w, [], a, [], 0);
    if w == Wire(b) {
      WalkWire(w, [], b, [], 0);
    }
  }

  // ---- the usual forms

  /** Labels behind their lengths, without an end. */
  function Chain(labels: seq<seq<byte>>): seq<byte>
    requires AreLabels(labels)
  {
    if labels == [] then [] else [|labels[0]|] + labels[0] + Chain(labels[1..])
  }

  lemma {:induction false} WireSpells(msg: seq<byte>, off: nat, labels: seq<seq<byte>>, left: nat)
    requires AreLabels(labels) && LiesAt(msg, off, Wire(labels))
    ensures Spells(msg, off, labels, left)
  {
    hide Spells, Labels;
    var w := Wire(labels);
    assert msg == msg[..off] + w + msg[off + |w|..];
    WalkWire(msg, msg[..off], labels, msg[off + |w|..], left);
    LabelsExactly(msg, off, labels, left);
  }

  /** Labels of its own and then a pointer to a name elsewhere: both together, and what follows is past the pointer. */
  lemma {:induction false} CompressedWalk(msg: seq<byte>, off: nat, prefix: seq<seq<byte>>, suffix: seq<seq<byte>>,
                                          t: nat, left: nat)
    requires AreLabels(prefix) && 0 < t < 0x4000 && t < |msg| && LiesAt(msg, off, Chain(prefix) + PointerTo(t))
    requires Spells(msg, t, suffix, left)
    ensures off <= |msg| && Labels(msg, off, left + 1) == Walk(prefix + suffix, off + |Chain(prefix)| + 2)
    decreases |prefix|
  {
    hide PointerTo, NextLabel, LiesAt, Spells;
    Two(t);
    Within(msg, off, Chain(prefix) + PointerTo(t));
    if prefix == [] {
      assert prefix + suffix == suffix && Chain(prefix) + PointerTo(t) == PointerTo(t);
      PointerReads(msg, off, t);
      LabelsExactly(msg, t, suffix, left);
    } else {
      var text, more := prefix[0], Chain(prefix[1..]) + PointerTo(t);
      assert Chain(prefix) + PointerTo(t) == ([|text|] + text) + more;
      Apart(msg, off, [|text|] + text, more);
      LabelReads(msg, off, text);
      CompressedWalk(msg, off + 1 + |text|, prefix[1..], suffix, t, left);
      assert [text] + (prefix[1..] + suffix) == prefix + suffix;
    }
  }

  lemma Within(msg: seq<byte>, off: nat, part: seq<byte>)
    requires LiesAt(msg, off, part)
    ensures off + |part| <= |msg|
  {
  }

  lemma Two(t: nat)
    requires t < 0x4000
    ensures |PointerTo(t)| == 2
  {
  }

  lemma Apart(msg: seq<byte>, off: nat, a: seq<byte>, b: seq<byte>)
    requires LiesAt(msg, off, a + b)
    ensures LiesAt(msg, off, a) && LiesAt(msg, off + |a|, b)
  {
    var part := msg[off..off + |a + b|];
    assert msg[off..off + |a|] == part[..|a|] && msg[off + |a|..off + |a| + |b|] == part[|a|..];
  }

  /** The record lies between `pre` and `post`. */
  predicate Laid(msg: seq<byte>, pre: seq<byte>, r: Resource, post: seq<byte>) {
    msg == pre + EncodeResource(r) + post && |msg| <= MAX16 && r.length == |r.data|
  }

  lemma LaidFields(msg: seq<byte>, pre: seq<byte>, r: Resource, post: seq<byte>)
    requires Laid(msg, pre, r, post)
    ensures var at := |pre| + |r.name|;
            && at + 10 + r.length <= |msg| <= MAX16 && at + 10 + r.length == |pre| + |EncodeResource(r)|
            && Get16(msg, at) == r.typ && Get16(msg, at + 2) == r.class_ && Get32(msg, at + 4) == r.ttl
            && Get16(msg, at + 8) == r.length
  {
    hide EncodeHeader, Get16, Get32;
    HeaderSize(r);
    assert msg == pre + EncodeHeader(r) + (r.data + post);
    HeaderReadsBack(msg, pre, r, r.data + post);
  }

  lemma CompressedName(msg: seq<byte>, pre: seq<byte>, r: Resource, post: seq<byte>,
                       prefix: seq<seq<byte>>, suffix: seq<seq<byte>>, t: nat)
    requires AreLabels(prefix) && 0 < t < 0x4000 && t < |msg| && Spells(msg, t, suffix, MAX_JUMPS - 1)
    requires r.name == Chain(prefix) + PointerTo(t) && Laid(msg, pre, r, post)
    ensures AreLabels(prefix + suffix) && DecodeName(msg, |pre|) == Ok(Wire(prefix + suffix), |pre| + |r.name|)
  {
    hide PointerTo, Spells, Labels, Wire, Chain, Be16, Be32;
    Two(t);
    var rest := Be16(r.typ) + Be16(r.class_) + Be32(r.ttl) + Be16(r.length) + r.data + post;
    assert msg == pre + r.name + rest;
    assert LiesAt(msg, |pre|, r.name);
    CompressedWalk(msg, |pre|, prefix, suffix, t, MAX_JUMPS - 1);
  }

  lemma LaidData(msg: seq<byte>, pre: seq<byte>, r: Resource, post: seq<byte>)
    requires Laid(msg, pre, r, post)
    ensures var at := |pre| + |r.name| + 10; at + r.length <= |msg| && msg[at..at + r.length] == r.data
  {
    hide EncodeHeader;
    HeaderSize(r);
    assert msg == pre + EncodeHeader(r) + (r.data + post);
  }

  lemma RecordDecoded(msg: seq<byte>, off: nat, at: nat, r: Resource, full: seq<byte>)
    requires off <= |msg| <= MAX16 && DecodeName(msg, off) == Ok(full, at) && at + 10 + r.length <= |msg| && r.typ != 5
    requires Get16(msg, at) == r.typ && Get16(msg, at + 2) == r.class_ && Get32(msg, at + 4) == r.ttl
    requires Get16(msg, at + 8) == r.length && msg[at + 10..at + 10 + r.length] == r.data
    ensures DecodeResource(msg, off) == Ok(r.(name := full), at + 10 + r.length)
  {
    hide DecodeName, Get16, Get32;
  }

  /** A record whose name is compressed: the name in full, and the other fields as they lie behind the pointer. */
  lemma CompressedResource(msg: seq<byte>, pre: seq<byte>, r: Resource, post: seq<byte>,
                           prefix: seq<seq<byte>>, suffix: seq<seq<byte>>, t: nat)
    requires AreLabels(prefix) && 0 < t < 0x4000 && t < |msg| && Spells(msg, t, suffix, MAX_JUMPS - 1)
    requires r.name == Chain(prefix) + PointerTo(t) && Laid(msg, pre, r, post) && r.typ != 5
    ensures AreLabels(prefix + suffix)
    ensures DecodeResource(msg, |pre|) == Ok(r.(name := Wire(prefix + suffix)), |pre| + |EncodeResource(r)|)
  {
    hide PointerTo, Spells, Wire, EncodeResource, Get16, Get32, Chain, AreLabels, DecodeName, DecodeResource, Laid;
    LaidFields(msg, pre, r, post);
    LaidData(msg, pre, r, post);
    CompressedName(msg, pre, r, post, prefix, suffix, t);
    RecordDecoded(msg, |pre|, |pre| + |r.name|, r, Wire(prefix + suffix));
  }

  /** The data of a CNAME record, compressed or not, is expanded and its length with it. */
  lemma CnameExpands(msg: seq<byte>, pre: seq<byte>, r: Resource, post: seq<byte>, full: seq<byte>,
                     labels: seq<seq<byte>>)
    requires Laid(msg, pre, r, post) && r.typ == 5
    requires DecodeName(msg, |pre|) == Ok(full, |pre| + |r.name|)
    requires Spells(msg, |pre| + |r.name| + 10, labels, MAX_JUMPS)
    ensures AreLabels(labels)
    ensures var w := Wire(labels);
            DecodeResource(msg, |pre|) ==
            Ok(r.(name := full, data := w, length := |w| % 0x1_0000), |pre| + |EncodeResource(r)|)
  {
    hide Spells, DecodeName, Wire, EncodeResource, Get16, Get32, AreLabels, DecodeResource, Laid;
    LaidFields(msg, pre, r, post);
    NameExactly(msg, |pre| + |r.name| + 10, labels);
    CnameDecoded(msg, |pre|, |pre| + |r.name|, r, full, Wire(labels));
  }

  lemma CnameDecoded(msg: seq<byte>, off: nat, at: nat, r: Resource, full: seq<byte>, w: seq<byte>)
    requires off <= |msg| <= MAX16 && DecodeName(msg, off) == Ok(full, at) && at + 10 + r.length <= |msg|
    requires Get16(msg, at) == r.typ == 5 && Get16(msg, at + 2) == r.class_ && Get32(msg, at + 4) == r.ttl
    requires Get16(msg, at + 8) == r.length && DecodeName(msg, at + 10).Ok? && DecodeName(msg, at + 10).value == w
    ensures DecodeResource(msg, off) == Ok(r.(name := full, data := w, length := |w| % 0x1_0000), at + 10 + r.length)
  {
    hide DecodeName, Get16, Get32;
  }
}
