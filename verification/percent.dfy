/** Percent decoding of URLs (http/httpraw/headerv1.go, section 2.1 of RFC 3986). */
module PercentUrl {
  import opened Bytes

  const PERCENT: byte := 37
  const PLUS: byte := 43
  const SPACE: byte := 32

  datatype Decoded = Decoded(text: seq<byte>, ok: bool)

  predicate IsHex(c: byte) {
    48 <= c <= 57 || 97 <= c <= 102 || 65 <= c <= 70
  }

  function Unhex(c: byte): (d: nat)
    requires IsHex(c)
    ensures d < 16
  {
    if c <= 57 then c - 48 else if c >= 97 then c - 97 + 10 else c - 65 + 10
  }

  function Plain(c: byte, plus: bool): byte {
    if plus && c == PLUS then SPACE else c
  }

  /** An escape at the front of `v`. */
  predicate Escaped(v: seq<byte>) {
    |v| >= 3 && IsHex(v[1]) && IsHex(v[2])
  }

  function Escape(v: seq<byte>): byte
    requires Escaped(v)
  {
    Unhex(v[1]) * 16 + Unhex(v[2])
  }

  /** The decoded bytes, up to the first malformed escape if there is one. */
  function Decode(v: seq<byte>, plus: bool): (r: Decoded)
    ensures |r.text| <= |v|
    decreases |v|
  {
    if v == [] then Decoded([], true)
    else if v[0] != PERCENT then
      var r := Decode(v[1..], plus);
      Decoded([Plain(v[0], plus)] + r.text, r.ok)
    else if !Escaped(v) then Decoded([], false)
    else
      var r := Decode(v[3..], plus);
      Decoded([Escape(v)] + r.text, r.ok)
  }

  // ---- encoding, for the round trip

  /** How a byte is written: as it is, a space as a plus, or escaped with digits of either case. */
  datatype Style = Raw | AsPlus | Upper | Lower

  function Hex(d: nat, lower: bool): byte
    requires d < 16
  {
    if d < 10 then 48 + d else (if lower then 97 else 65) + d - 10
  }

  /** Writes each byte in the style asked for, but always escapes those decoding would change. */
  function Encode(t: seq<byte>, plus: bool, style: byte -> Style): seq<byte> {
    if t == [] then []
    else WriteByte(t[0], plus, style(t[0])) + Encode(t[1..], plus, style)
  }

  function WriteByte(c: byte, plus: bool, style: Style): seq<byte> {
    if c == PERCENT || (plus && c == PLUS) || style.Upper? || style.Lower? then
      [PERCENT, Hex(c / 16, style.Lower?), Hex(c % 16, style.Lower?)]
    else if plus && c == SPACE && style.AsPlus? then [PLUS]
    else [c]
  }

  lemma HexUnhex(d: nat, lower: bool)
    requires d < 16
    ensures IsHex(Hex(d, lower)) && Unhex(Hex(d, lower)) == d
  {
  }

  /** The bytes taken for digits are the 22 that write one. */
  lemma HexExactly(c: byte)
    ensures IsHex(c) <==> exists d, lower :: 0 <= d < 16 && Hex(d, lower) == c
  {
    if IsHex(c) {
      assert Hex(Unhex(c), c >= 97) == c;
    }
  }

  lemma ByteReadsBack(c: byte, plus: bool, style: Style, rest: seq<byte>)
    ensures var r := Decode(rest, plus); Decode(WriteByte(c, plus, style) + rest, plus) == Decoded([c] + r.text, r.ok)
  {
    hide Hex, Unhex, IsHex;
    var w := WriteByte(c, plus, style);
    if |w| == 3 {
      HexUnhex(c / 16, style.Lower?);
      HexUnhex(c % 16, style.Lower?);
      EscapeReadsBack(w[1], w[2], plus, rest);
    } else {
      assert (w + rest)[1..] == rest && Plain(w[0], plus) == c;
    }
  }

  lemma EscapeReadsBack(h: byte, l: byte, plus: bool, rest: seq<byte>)
    requires IsHex(h) && IsHex(l)
    ensures var r := Decode(rest, plus);
            Decode([PERCENT, h, l] + rest, plus) == Decoded([Unhex(h) * 16 + Unhex(l)] + r.text, r.ok)
  {
    hide Unhex, IsHex;
    var v := [PERCENT, h, l] + rest;
    assert v[3..] == rest;
    assert Escaped(v) && Escape(v) == Unhex(h) * 16 + Unhex(l);
  }

  /** Decoding inverts every way of writing a text, so an escaped plus stays a plus. */
  lemma {:induction false} DecodeInvertsEncode(t: seq<byte>, plus: bool, style: byte -> Style)
    ensures Decode(Encode(t, plus, style), plus) == Decoded(t, true)
  {
    hide WriteByte;
    if t != [] {
      DecodeInvertsEncode(t[1..], plus, style);
      ByteReadsBack(t[0], plus, style(t[0]), Encode(t[1..], plus, style));
      assert t == [t[0]] + t[1..];
    }
  }

  /** Decoding stops at a percent sign that two digits do not follow, and keeps what came before. */
  lemma MalformedStops(t: seq<byte>, plus: bool, style: byte -> Style, bad: seq<byte>)
    requires bad != [] && bad[0] == PERCENT && !Escaped(bad)
    ensures Decode(Encode(t, plus, style) + bad, plus) == Decoded(t, false)
    decreases |t|
  {
    hide WriteByte;
    if t == [] {
      assert [] + bad == bad;
    } else {
      MalformedStops(t[1..], plus, style, bad);
      var w, rest := WriteByte(t[0], plus, style(t[0])), Encode(t[1..], plus, style);
      ByteReadsBack(t[0], plus, style(t[0]), rest + bad);
      assert w + rest + bad == w + (rest + bad) && t == [t[0]] + t[1..];
    }
  }

  /** "%2F+%7e" is a slash, a space and a tilde in a form, and keeps its plus elsewhere. */
  lemma DecodedExample()
    ensures Decode([37, 50, 70, 43, 37, 55, 101], true) == Decoded([47, 32, 126], true)
    ensures Decode([37, 50, 70, 43, 37, 55, 101], false) == Decoded([47, 43, 126], true)
  {
    var v: seq<byte> := [37, 50, 70, 43, 37, 55, 101];
    assert v[3..] == [43, 37, 55, 101] && v[3..][1..] == [37, 55, 101] && v[3..][1..][3..] == [];
  }

  // ---- walking a value

  /** Decoding goes on past a stretch without escapes. */
  lemma {:induction false} PlainRun(v: seq<byte>, plus: bool, k: nat)
    requires k <= |v| && forall i :: 0 <= i < k ==> v[i] != PERCENT
    ensures Decode(v, plus) == Decoded(Plains(v[..k], plus) + Decode(v[k..], plus).text, Decode(v[k..], plus).ok)
    decreases k
  {
    if k == 0 {
      assert v[0..] == v;
    } else {
      PlainRun(v[1..], plus, k - 1);
      assert v[1..][k - 1..] == v[k..] && v[..k][1..] == v[1..][..k - 1];
      var tail := Decode(v[k..], plus).text;
      assert [Plain(v[0], plus)] + (Plains(v[1..][..k - 1], plus) + tail) ==
        [Plain(v[0], plus)] + Plains(v[1..][..k - 1], plus) + tail;
    }
  }

  function Plains(v: seq<byte>, plus: bool): (r: seq<byte>)
    ensures |r| == |v| && forall i :: 0 <= i < |v| ==> r[i] == Plain(v[i], plus)
  {
    if v == [] then [] else [Plain(v[0], plus)] + Plains(v[1..], plus)
  }

  /** `EqualDecodedPercentURL`: whether the value decodes, and to `want`. */
  method EqualDecoded(v: seq<byte>, want: seq<byte>, plus: bool) returns (equal: bool)
    ensures equal <==> Decode(v, plus) == Decoded(want, true)
  {
    hide Unhex, IsHex;
    var i, w := 0, 0;
    assert v[0..] == v && want[0..] == want;
    while i < |v|
      invariant 0 <= i <= |v| && 0 <= w <= |want|
      invariant Decode(v, plus) == Decoded(want, true) <==> Decode(v[i..], plus) == Decoded(want[w..], true)
      decreases |v| - i
    {
      var c;
      ghost var rest := v[i..];
      if v[i] == PERCENT {
        if i + 2 >= |v| || !IsHex(v[i + 1]) || !IsHex(v[i + 2]) {
          return false;
        }
        c := Unhex(v[i + 1]) * 16 + Unhex(v[i + 2]);
        assert rest[3..] == v[i + 3..];
        i := i + 3;
      } else {
        c := Plain(v[i], plus);
        assert rest[1..] == v[i + 1..];
        i := i + 1;
      }
      Cons(c, Decode(v[i..], plus), want[w..]);
      if w >= |want| || want[w] != c {
        return false;
      }
      assert want[w..][1..] == want[w + 1..];
      w := w + 1;
    }
    return w == |want|;
  }

  lemma Cons(c: byte, r: Decoded, want: seq<byte>)
    ensures Decoded([c] + r.text, r.ok) == Decoded(want, true) <==>
            want != [] && want[0] == c && r == Decoded(want[1..], true)
  {
    if want != [] {
      assert want == [want[0]] + want[1..];
    }
  }

  // ---- in place

  /**
    `copyPlusDecoded`: `k` bytes from `from` on to `n` on; the two buffers may be one as long as it copies
    backwards.
  */
  method CopyPlus(dst: array<byte>, n: nat, src: array<byte>, from: nat, k: nat, plus: bool)
    requires n + k <= dst.Length && from + k <= src.Length && (dst == src ==> n <= from)
    modifies dst
    ensures dst[..n + k] == old(dst[..n]) + Plains(old(src[from..from + k]), plus)
    ensures dst[n + k..] == old(dst[n + k..])
  {
    hide Plains;
    CopyBytes(dst, n, src, from, k);
    ghost var run := old(src[from..from + k]);
    ghost var before := old(dst[..n]);
    if plus {
      for i := 0 to k
        invariant dst[..n + i] == before + Plains(run[..i], plus)
        invariant dst[n + i..n + k] == run[i..] && dst[n + k..] == old(dst[n + k..])
      {
        PlainsAppend(run, i, plus);
        assert dst[n + i] == dst[n + i..n + k][0] == run[i];
        assert dst[n + i + 1..n + k] == dst[n + i..n + k][1..];
        if dst[n + i] == PLUS {
          dst[n + i] := SPACE;
        }
        assert dst[..n + i + 1] == dst[..n + i] + [dst[n + i]];
      }
      assert run[..k] == run;
    } else {
      PlainsSame(run);
      assert dst[..n + k] == dst[..n] + dst[n..n + k];
    }
  }

  lemma PlainsAppend(run: seq<byte>, i: nat, plus: bool)
    requires i < |run|
    ensures Plains(run[..0], plus) == [] && Plains(run[..i + 1], plus) == Plains(run[..i], plus) + [Plain(run[i], plus)]
  {
  }

  lemma PlainsSame(run: seq<byte>)
    ensures Plains(run, false) == run
  {
  }

  method CopyBytes(dst: array<byte>, n: nat, src: array<byte>, from: nat, k: nat)
    requires n + k <= dst.Length && from + k <= src.Length && (dst == src ==> n <= from)
    modifies dst
    ensures dst[..n] == old(dst[..n]) && dst[n..n + k] == old(src[from..from + k]) && dst[n + k..] == old(dst[n + k..])
  {
    ghost var run := src[from..from + k];
    for i := 0 to k
      invariant dst[..n] == old(dst[..n]) && dst[n..n + i] == run[..i]
      invariant forall j :: n + i <= j < dst.Length ==> dst[j] == old(dst[j])
    {
      assert src[from + i] == run[i];
      dst[n + i] := src[from + i];
    }
  }

  method IndexPercent(src: array<byte>, from: nat, len: nat) returns (i: nat)
    requires from <= len <= src.Length
    ensures from <= i <= len && (i < len ==> src[i] == PERCENT) && PERCENT !in src[from..i]
  {
    i := from;
    while i < len && src[i] != PERCENT
      invariant from <= i <= len && PERCENT !in src[from..i]
    {
      i := i + 1;
    }
  }

  /** Copies up to the next escape, or to the end of the value. */
  method CopyRun(dst: array<byte>, n: nat, src: array<byte>, read: nat, len: nat, plus: bool) returns (escape: nat)
    requires n <= read <= len <= src.Length && len <= dst.Length
    modifies dst
    ensures read <= escape <= len && dst[len..] == old(dst[len..])
    ensures var unread, k := old(src[read..len]), escape - read;
            && (escape < len ==> unread[k] == PERCENT) && PERCENT !in unread[..k]
            && dst[..n + k] == old(dst[..n]) + Plains(unread[..k], plus) && src[escape..len] == unread[k..]
  {
    hide Plains;
    escape := IndexPercent(src, read, len);
    Within(src, read, escape, len);
    Beyond(dst, n + escape - read, escape, len);
    CopyPlus(dst, n, src, read, escape - read, plus);
    Beyond(dst, n + escape - read, escape, len);
  }

  lemma Beyond(a: array<byte>, p: nat, q: nat, r: nat)
    requires p <= q <= r <= a.Length
    ensures a[q..r] == a[p..][q - p..r - p] && a[r..] == a[p..][r - p..]
  {
  }

  lemma Within(a: array<byte>, p: nat, q: nat, r: nat)
    requires p <= q <= r <= a.Length
    ensures a[p..r][..q - p] == a[p..q] && a[p..r][q - p..] == a[q..r] && (q < r ==> a[p..r][q - p] == a[q])
  {
  }

  /**
    `CopyDecodedPercentURL` of `src[..len]` into `dst`, which may be the same buffer: the result does not
    depend on whether it is.
  */
  method CopyDecoded(dst: array<byte>, src: array<byte>, len: nat, plus: bool) returns (n: nat, ok: bool)
    requires len <= src.Length && len <= dst.Length
    modifies dst
    ensures n <= len && Decoded(dst[..n], ok) == Decode(old(src[..len]), plus)
    ensures dst[len..] == old(dst[len..])
  {
    hide Unhex, IsHex, Decode, Escape, Plains, Onto;
    ghost var v := src[..len];
    var read: nat := 0;
    n := 0;
    assert v[0..] == v && dst[..0] == [];
    OntoNothing(Decode(v, plus));
    while true
      invariant n <= read <= len && |v| == len
      invariant src[read..len] == v[read..] && dst[len..] == old(dst[len..])
      invariant Decode(v, plus) == Onto(dst[..n], Decode(v[read..], plus))
      decreases len - read
    {
      ghost var done := dst[..n];
      ghost var unread := src[read..len];
      var escape := CopyRun(dst, n, src, read, len, plus);
      Unread(v, unread, read, escape);
      RunStep(v, plus, read, escape - read, done);
      n := n + escape - read;
      EscapeStep(v, plus, escape, dst[..n]);
      if escape == len {
        return n, true;
      }
      Ahead(src, v, escape);
      if escape + 2 >= len || !IsHex(src[escape + 1]) || !IsHex(src[escape + 2]) {
        return n, false;
      }
      StoreByte(dst, n, src, escape, len);
      n := n + 1;
      read := escape + 3;
    }
  }

  /** The escape at `at`, decoded into `dst[n]`. */
  method StoreByte(dst: array<byte>, n: nat, src: array<byte>, at: nat, len: nat)
    requires n <= at && at + 2 < len <= src.Length && len <= dst.Length && IsHex(src[at + 1]) && IsHex(src[at + 2])
    modifies dst
    ensures dst[..n + 1] == old(dst[..n]) + [Unhex(old(src[at + 1])) * 16 + Unhex(old(src[at + 2]))]
    ensures src[at + 3..len] == old(src[at..len])[3..] && dst[len..] == old(dst[len..])
  {
    dst[n] := Unhex(src[at + 1]) * 16 + Unhex(src[at + 2]);
  }

  lemma Unread(v: seq<byte>, unread: seq<byte>, read: nat, escape: nat)
    requires read <= escape <= |v| && unread == v[read..]
    ensures unread[..escape - read] == v[read..escape] && unread[escape - read..] == v[escape..]
    ensures escape < |v| ==> v[escape] == unread[escape - read]
  {
  }

  lemma Ahead(src: array<byte>, v: seq<byte>, at: nat)
    requires at < |v| <= src.Length && src[at..|v|] == v[at..]
    ensures at + 2 < |v| ==> src[at + 1] == v[at + 1] && src[at + 2] == v[at + 2] && v[at..][3..] == v[at + 3..]
  {
    if at + 2 < |v| {
      assert src[at..|v|][1] == src[at + 1] && src[at..|v|][2] == src[at + 2];
    }
  }

  /** What is decoded already, and then the rest. */
  ghost function Onto(done: seq<byte>, r: Decoded): Decoded {
    Decoded(done + r.text, r.ok)
  }

  lemma OntoNothing(r: Decoded)
    ensures Onto([], r) == r
  {
    assert [] + r.text == r.text;
  }

  lemma RunStep(v: seq<byte>, plus: bool, read: nat, k: nat, done: seq<byte>)
    requires read + k <= |v| && PERCENT !in v[read..read + k]
    ensures Onto(done, Decode(v[read..], plus)) ==
            Onto(done + Plains(v[read..read + k], plus), Decode(v[read + k..], plus))
  {
    hide Decode;
    assert forall i :: 0 <= i < k ==> v[read..][i] == v[read..read + k][i];
    PlainRun(v[read..], plus, k);
    assert v[read..][..k] == v[read..read + k] && v[read..][k..] == v[read + k..];
    var rest := Decode(v[read + k..], plus).text;
    assert done + (Plains(v[read..read + k], plus) + rest) == done + Plains(v[read..read + k], plus) + rest;
  }

  lemma EscapeStep(v: seq<byte>, plus: bool, at: nat, done: seq<byte>)
    requires at <= |v| && (at < |v| ==> v[at] == PERCENT)
    ensures at == |v| ==> Onto(done, Decode(v[at..], plus)) == Decoded(done, true)
    ensures at < |v| && !(at + 2 < |v| && IsHex(v[at + 1]) && IsHex(v[at + 2])) ==>
            Onto(done, Decode(v[at..], plus)) == Decoded(done, false)
    ensures at + 2 < |v| && IsHex(v[at + 1]) && IsHex(v[at + 2]) ==>
              Onto(done, Decode(v[at..], plus)) ==
                Onto(done + [Unhex(v[at + 1]) * 16 + Unhex(v[at + 2])], Decode(v[at + 3..], plus))
  {
    hide Unhex, IsHex;
    assert done + [] == done;
    if at + 2 < |v| && IsHex(v[at + 1]) && IsHex(v[at + 2]) {
      var c := Unhex(v[at + 1]) * 16 + Unhex(v[at + 2]);
      assert v[at..][3..] == v[at + 3..];
      var rest := Decode(v[at + 3..], plus).text;
      assert done + ([c] + rest) == done + [c] + rest;
    }
  }
}
