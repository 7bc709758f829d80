/**
  The Internet checksum (crc.go) and the packets it protects (internet/stack-ip4.go, ipv4/frame.go):
  what is sent passes the receiver's tests.
*/
module Checksums {
  import opened Bytes

  const MAX32 := 0x1_0000_0000

  /** Sum of the 16-bit words, an odd last byte being the high half of its word. */
  function WordSum(b: seq<byte>): nat {
    if b == [] then 0
    else if |b| == 1 then b[0] as int * 256
    else Get16(b, 0) + WordSum(b[2..])
  }

  /** `sum16`: ones' complement of the folded sum. */
  function Sum16(sum: nat): u16
    requires sum < MAX32
  {
    var s := sum % 0x1_0000 + sum / 0x1_0000;
    0xffff - (s + s / 0x1_0000) % 0x1_0000
  }

  function NeverZero(sum: u16): u16 {
    if sum == 0 then 0xffff else sum
  }

  /** The fold keeps the sum modulo 65535, and zero only for zero. */
  lemma FoldIsCongruent(sum: nat)
    requires sum < MAX32
    ensures (0xffff - Sum16(sum)) % 0xffff == sum % 0xffff
    ensures Sum16(sum) == 0xffff <==> sum == 0
  {
    hide Sum16;
    var h, l := sum / 0x1_0000, sum % 0x1_0000;
    assert sum == 0xffff * h + (l + h);
    ModShift(l + h, h);
    SecondFold(sum, l + h);
  }

  lemma SecondFold(sum: nat, s: nat)
    requires sum < MAX32 && s == sum % 0x1_0000 + sum / 0x1_0000
    ensures 0xffff - Sum16(sum) == if s < 0x1_0000 then s else s - 0xffff
    ensures s == 0 <==> sum == 0
  {
    assert s <= 0x1_fffe;
  }

  lemma ModShift(a: nat, k: nat)
    ensures (0xffff * k + a) % 0xffff == a % 0xffff
  {
  }

  /** A sum checks out exactly when it is a positive multiple of 65535. */
  lemma ZeroExactly(sum: nat)
    requires sum < MAX32
    ensures Sum16(sum) == 0 <==> sum > 0 && sum % 0xffff == 0
  {
    hide Sum16;
    FoldIsCongruent(sum);
  }

  /** The checksum of a sum, added to it, checks out; so does the substitute for zero. */
  lemma SumThenCheck(sum: nat)
    requires sum + 0xffff < MAX32
    ensures Sum16(sum + Sum16(sum)) == 0 && Sum16(sum + NeverZero(Sum16(sum))) == 0
  {
    hide Sum16;
    FoldIsCongruent(sum);
    AddComplement(sum, Sum16(sum));
    ZeroExactly(sum + Sum16(sum));
    ZeroExactly(sum + NeverZero(Sum16(sum)));
  }

  lemma AddComplement(sum: nat, c: u16)
    requires (0xffff - c) % 0xffff == sum % 0xffff
    ensures (sum + c) % 0xffff == 0
    ensures c == 0 ==> (sum + 0xffff) % 0xffff == 0
  {
  }

  // ---- sums of buffers

  function Put16(b: seq<byte>, off: nat, v: u16): (r: seq<byte>)
    requires off + 2 <= |b|
    ensures |r| == |b|
  {
    b[off := v / 256][off + 1 := v % 256]
  }

  lemma {:induction false} SumBound(b: seq<byte>)
    ensures WordSum(b) <= (|b| + 1) / 2 * 0xffff
    decreases |b|
  {
    if |b| >= 2 {
      SumBound(b[2..]);
    }
  }

  /** A word at an even offset counts as itself. */
  lemma {:induction false} PutSum(b: seq<byte>, off: nat, v: u16)
    requires off % 2 == 0 && off + 2 <= |b|
    ensures WordSum(Put16(b, off, v)) == WordSum(b) - Get16(b, off) + v
    decreases off
  {
    var r := Put16(b, off, v);
    if off == 0 {
      assert r[2..] == b[2..];
    } else {
      PutSum(b[2..], off - 2, v);
      assert r[2..] == Put16(b[2..], off - 2, v);
    }
  }

  lemma PutGet(b: seq<byte>, off: nat, v: u16)
    requires off + 2 <= |b|
    ensures Get16(Put16(b, off, v), off) == v
    ensures Put16(Put16(b, off, 0), off, v) == Put16(b, off, v)
  {
  }

  /** A buffer with the checksum of itself and `extra` stored at an even offset checks out. */
  lemma StoredSumChecks(b: seq<byte>, off: nat, extra: nat, c: u16)
    requires off % 2 == 0 && off + 2 <= |b|
    requires extra + WordSum(Put16(b, off, 0)) + 0xffff < MAX32
    requires c == Sum16(extra + WordSum(Put16(b, off, 0))) || c == NeverZero(Sum16(extra + WordSum(Put16(b, off, 0))))
    ensures extra + WordSum(Put16(b, off, c)) < MAX32 && Sum16(extra + WordSum(Put16(b, off, c))) == 0
  {
    hide Sum16, WordSum, Put16, Get16;
    var z := Put16(b, off, 0);
    PutGet(b, off, 0);
    PutGet(b, off, c);
    PutSum(z, off, c);
    SumThenCheck(extra + WordSum(z));
  }

  /**
    Changing one word of a buffer that checks out goes unnoticed exactly when the words agree modulo 65535 and
    not all is zero.
  */
  lemma OneWordDetected(b: seq<byte>, off: nat, extra: nat, v: u16)
    requires off % 2 == 0 && off + 2 <= |b| && extra + WordSum(b) + 0xffff < MAX32
    requires Sum16(extra + WordSum(b)) == 0
    ensures extra + WordSum(Put16(b, off, v)) < MAX32
    ensures Sum16(extra + WordSum(Put16(b, off, v))) == 0 <==>
            v % 0xffff == Get16(b, off) % 0xffff && extra + WordSum(Put16(b, off, v)) > 0
  {
    hide Sum16, WordSum, Put16, Get16;
    PutSum(b, off, v);
    var s, w := extra + WordSum(b), Get16(b, off);
    ZeroExactly(s);
    ZeroExactly(s - w + v);
    Difference(s, w, v);
  }

  lemma Difference(s: nat, w: u16, v: u16)
    requires s % 0xffff == 0
    ensures (s - w + v) % 0xffff == 0 <==> v % 0xffff == w % 0xffff
  {
  }

  /** Go's truncation to 32 bits. */
  function Wrap32(x: nat): u32 {
    x % MAX32
  }

  lemma WrapWrap(x: nat, y: nat)
    ensures Wrap32(Wrap32(x) + y) == Wrap32(x + y)
  {
  }

  lemma WrapSmall(x: nat)
    ensures x < MAX32 ==> Wrap32(x) == x
  {
  }

  /** The running sum of `CRC791`, a 32-bit accumulator. */
  class Crc791 {
    var sum: u32

    constructor ()
      ensures sum == 0
    {
      sum := 0;
    }

    /** Adds the words of a buffer of even length. */
    method WriteEven(b: seq<byte>)
      requires |b| % 2 == 0
      modifies this
      ensures sum == Wrap32(old(sum) + WordSum(b))
    {
      sum := SumWriteEven(sum, b);
    }

    method AddUint16(v: u16)
      modifies this
      ensures sum == Wrap32(old(sum) + v)
    {
      sum := Wrap32(sum + v);
    }

    method Sum() returns (r: u16)
      ensures r == Sum16(sum)
    {
      r := Sum16(sum);
    }

    /** The checksum with a payload of any length added; the running sum stays. */
    method PayloadSum16(b: seq<byte>) returns (r: u16)
      ensures r == Sum16(Wrap32(sum + WordSum(b)))
    {
      hide Sum16, Wrap32;
      var odd := |b| % 2;
      var s := SumWriteEven(sum, b[..|b| - odd]);
      SumSplit(b);
      if odd > 0 {
        WrapWrap(sum + WordSum(b[..|b| - 1]), b[|b| - 1] as int * 256);
        s := Wrap32(s + b[|b| - 1] as int * 256);
      }
      r := Sum16(s);
    }
  }

  /** `sumWriteEven`, on a 32-bit accumulator that wraps. */
  method SumWriteEven(start: u32, b: seq<byte>) returns (sum: u32)
    requires |b| % 2 == 0
    ensures sum == Wrap32(start + WordSum(b))
  {
    hide Get16, Wrap32;
    WrapSmall(start);
    sum := start;
    var i := 0;
    assert b[0..] == b;
    while i < |b|
      invariant 0 <= i <= |b| && i % 2 == 0
      invariant sum == Wrap32(sum) && Wrap32(sum + WordSum(b[i..])) == Wrap32(start + WordSum(b))
    {
      assert b[i..][2..] == b[i + 2..] && Get16(b[i..], 0) == Get16(b, i) by { SameWord(b, i); }
      WrapWrap(sum + Get16(b, i), WordSum(b[i + 2..]));
      WrapSmall(Wrap32(sum + Get16(b, i)));
      sum := Wrap32(sum + Get16(b, i));
      i := i + 2;
    }
  }

  lemma SameWord(b: seq<byte>, i: nat)
    requires i + 2 <= |b|
    ensures Get16(b[i..], 0) == Get16(b, i)
  {
  }

  lemma {:induction false} SumSplit(b: seq<byte>)
    ensures |b| % 2 == 0 ==> b[..|b|] == b
    ensures |b| % 2 == 1 ==> WordSum(b) == WordSum(b[..|b| - 1]) + b[|b| - 1] as int * 256
    decreases |b|
  {
    if |b| % 2 == 1 && |b| > 1 {
      SumSplit(b[2..]);
      assert b[2..][..|b| - 3] == b[..|b| - 1][2..];
      assert Get16(b[..|b| - 1], 0) == Get16(b, 0);
    }
  }

  // ---- packets

  const TCP: u16 := 6
  const UDP: u16 := 17
  const SIZE_IP := 20

  /** A frame whose size fields the receiver's validation accepts. */
  predicate Sized(f: seq<byte>) {
    |f| >= SIZE_IP && SIZE_IP <= HeaderLength(f) <= Get16(f, 2) <= |f|
  }

  function HeaderLength(f: seq<byte>): nat
    requires |f| >= SIZE_IP
  {
    f[0] as int % 16 * 4
  }

  function Payload(f: seq<byte>): seq<byte>
    requires Sized(f)
  {
    f[HeaderLength(f)..Get16(f, 2)]
  }

  /** Sum of the pseudo header over a transport segment of `length`. */
  function PseudoSum(f: seq<byte>, length: u16): nat
    requires |f| >= SIZE_IP
  {
    WordSum(f[12..20]) + length + f[9] as int
  }

  lemma SumsFit(f: seq<byte>, length: u16, b: seq<byte>)
    requires |f| >= SIZE_IP && |b| <= 0xffff
    ensures PseudoSum(f, length) + WordSum(b) + 0xffff < MAX32
    ensures WordSum(f[..SIZE_IP]) + 0xffff < MAX32
  {
    hide WordSum;
    SumBound(f[12..20]);
    SumBound(b);
    SumBound(f[..SIZE_IP]);
  }

  /** The checksum tests of `demux4`; other protocols have none of their own. */
  predicate Checks(f: seq<byte>)
    requires Sized(f)
  {
    SumsFit(f, 0, []);
    Sum16(WordSum(f[..SIZE_IP])) == 0 && TransportChecks(f)
  }

  predicate TransportChecks(f: seq<byte>)
    requires Sized(f)
  {
    var p := Payload(f);
    if f[9] as int == TCP then
      SumsFit(f, |p|, p);
      Sum16(PseudoSum(f, |p|) + WordSum(p)) == 0
    else if f[9] as int == UDP then
      |p| >= 8 && 8 <= Get16(p, 4) <= |p|
      && var u := p[..Get16(p, 4)]; SumsFit(f, |u|, u); Sum16(PseudoSum(f, |u|) + WordSum(u)) == 0
    else true
  }

  // ---- valid packets that are refused

  lemma {:induction false} SumConcat(a: seq<byte>, b: seq<byte>)
    requires |a| % 2 == 0
    ensures WordSum(a + b) == WordSum(a) + WordSum(b)
    decreases |a|
  {
    if a == [] {
      assert a + b == b;
    } else {
      SumConcat(a[2..], b);
      assert (a + b)[2..] == a[2..] + b && Get16(a + b, 0) == Get16(a, 0);
    }
  }

  /** The header checksum of RFC 791, over the whole header. */
  predicate HeaderCorrect(f: seq<byte>)
    requires Sized(f)
  {
    SumBound(f[..HeaderLength(f)]);
    Sum16(WordSum(f[..HeaderLength(f)])) == 0
  }

  /**
    Only the first 20 bytes are summed: a correct header passes if and only if its options sum to a multiple of
    65535.
  */
  lemma OptionsExactly(f: seq<byte>)
    requires Sized(f) && HeaderCorrect(f)
    ensures WordSum(f[..SIZE_IP]) < MAX32
    ensures Sum16(WordSum(f[..SIZE_IP])) == 0 <==> WordSum(f[SIZE_IP..HeaderLength(f)]) % 0xffff == 0
  {
    hide Sum16;
    var a, b := f[..SIZE_IP], f[SIZE_IP..HeaderLength(f)];
    assert f[..HeaderLength(f)] == a + b;
    SumConcat(a, b);
    SumBound(a + b);
    assert Get16(a, 0) > 0 && WordSum(a) >= Get16(a, 0);
    ZeroExactly(WordSum(a));
    ZeroExactly(WordSum(a + b));
    SplitMultiple(WordSum(a), WordSum(b));
  }

  lemma SplitMultiple(a: nat, b: nat)
    requires (a + b) % 0xffff == 0
    ensures a % 0xffff == 0 <==> b % 0xffff == 0
  {
  }

  /**
    Without a checksum of its own, which RFC 768 writes as zero, a datagram passes if and only if it sums to a
    multiple of 65535.
  */
  lemma UncheckedExactly(f: seq<byte>)
    requires Sized(f) && f[9] as int == UDP && |Payload(f)| >= 8 && 8 <= Get16(Payload(f), 4) <= |Payload(f)|
    requires Get16(Payload(f), 6) == 0
    ensures var u := Payload(f)[..Get16(Payload(f), 4)];
            TransportChecks(f) <==> (PseudoSum(f, |u|) + WordSum(u)) % 0xffff == 0
  {
    hide Sum16, WordSum;
    var u := Payload(f)[..Get16(Payload(f), 4)];
    SumsFit(f, |u|, u);
    ZeroExactly(PseudoSum(f, |u|) + WordSum(u));
  }

  const WITH_OPTION: seq<byte> := [70, 0, 0, 24, 0, 0, 0, 0, 64, 1, 99, 225, 10, 0, 0, 1, 10, 0, 0, 2, 1, 1, 1, 1]
  const WITHOUT_SUM: seq<byte> := [69, 0, 0, 28, 0, 0, 0, 0, 64, 17, 102, 207, 10, 0, 0, 1, 10, 0, 0, 2, 0, 7, 0, 7,
    0, 8, 0, 0]

  lemma Sum4(b: seq<byte>)
    requires |b| >= 4
    ensures WordSum(b) == Get16(b, 0) + Get16(b, 2) + WordSum(b[4..])
  {
    assert b[2..][2..] == b[4..] && Get16(b[2..], 0) == Get16(b, 2);
  }

  lemma Sum20(b: seq<byte>)
    requires |b| >= 20
    ensures WordSum(b) == Get16(b, 0) + Get16(b, 2) + Get16(b, 4) + Get16(b, 6) + Get16(b, 8) + Get16(b, 10)
                          + Get16(b, 12) + Get16(b, 14) + Get16(b, 16) + Get16(b, 18) + WordSum(b[20..])
  {
    hide WordSum;
    Sum4(b);
    Sum4(b[4..]);
    Sum4(b[4..][4..]);
    Sum4(b[8..][4..]);
    Sum4(b[12..][4..]);
    assert b[4..][4..] == b[8..] && b[8..][4..] == b[12..] && b[12..][4..] == b[16..] && b[16..][4..] == b[20..];
  }

  lemma OptionSums()
    ensures WordSum(WITH_OPTION) == 65535 && WordSum(WITH_OPTION[..SIZE_IP]) == 65021
            && WITH_OPTION[..24] == WITH_OPTION
  {
    hide WordSum;
    Sum20(WITH_OPTION);
    Sum4(WITH_OPTION[20..]);
    Sum20(WITH_OPTION[..20]);
    NothingSums(WITH_OPTION[20..][4..]);
    NothingSums(WITH_OPTION[..20][20..]);
  }

  lemma NothingSums(b: seq<byte>)
    ensures b == [] ==> WordSum(b) == 0
  {
  }

  lemma UnsummedHeader()
    ensures WordSum(WITHOUT_SUM[..SIZE_IP]) == 65535
  {
    hide WordSum;
    var b := WITHOUT_SUM[..20];
    Sum20(b);
    NothingSums(b[20..]);
  }

  lemma Sum8(b: seq<byte>)
    requires |b| == 8
    ensures WordSum(b) == Get16(b, 0) + Get16(b, 2) + Get16(b, 4) + Get16(b, 6)
  {
    hide WordSum;
    Sum4(b);
    Sum4(b[4..]);
    assert Get16(b[4..], 0) == Get16(b, 4) && Get16(b[4..], 2) == Get16(b, 6);
    NothingSums(b[4..][4..]);
  }

  lemma UnsummedRest()
    ensures WordSum(WITHOUT_SUM[12..20]) == 5123 && WordSum(WITHOUT_SUM[20..28]) == 22
  {
    hide WordSum;
    assert WITHOUT_SUM[12..20] == [10, 0, 0, 1, 10, 0, 0, 2];
    assert WITHOUT_SUM[20..28] == [0, 7, 0, 7, 0, 8, 0, 0];
    Sum8(WITHOUT_SUM[12..20]);
    Sum8(WITHOUT_SUM[20..28]);
  }

  lemma Shapes()
    ensures Sized(WITH_OPTION) && HeaderLength(WITH_OPTION) == 24
    ensures Sized(WITHOUT_SUM) && HeaderLength(WITHOUT_SUM) == 20 && WITHOUT_SUM[9] as int == UDP
    ensures Payload(WITHOUT_SUM) == WITHOUT_SUM[20..28] && Get16(WITHOUT_SUM[20..28], 4) == 8
            && Get16(WITHOUT_SUM[20..28], 6) == 0
    ensures WITHOUT_SUM[20..28][..8] == WITHOUT_SUM[20..28]
  {
  }

  /** A header is judged by two sums, of all of it and of its first 20 bytes. */
  lemma HeaderJudged(f: seq<byte>, whole: nat, fixed: nat)
    requires Sized(f) && WordSum(f[..HeaderLength(f)]) == whole && WordSum(f[..SIZE_IP]) == fixed
    ensures whole == 0xffff ==> HeaderCorrect(f)
    ensures fixed % 0xffff != 0 ==> !Checks(f)
  {
    hide WordSum, Sum16, TransportChecks;
    SumBound(f[..HeaderLength(f)]);
    SumBound(f[..SIZE_IP]);
    ZeroExactly(whole);
    ZeroExactly(fixed);
  }

  /** A correct header with four bytes of options: refused. */
  lemma OptionsRefused()
    ensures Sized(WITH_OPTION) && HeaderCorrect(WITH_OPTION) && !Checks(WITH_OPTION)
  {
    hide *;
    Shapes();
    OptionSums();
    HeaderJudged(WITH_OPTION, 65535, 65021);
  }

  /** A datagram whose checksum was not computed: refused. */
  lemma UncheckedRefused()
    ensures Sized(WITHOUT_SUM) && HeaderCorrect(WITHOUT_SUM) && !Checks(WITHOUT_SUM)
  {
    hide WordSum, HeaderLength, Sized, TransportChecks, Get16, Payload;
    Shapes();
    UnsummedHeader();
    UnsummedRest();
    UncheckedExactly(WITHOUT_SUM);
  }

  /** The frame is ready to be finished: version and header length set, `n` payload bytes in place. */
  predicate Ready(f: seq<byte>, proto: u16, n: nat) {
    && SIZE_IP + n <= |f| && SIZE_IP + n <= 0xffff && f[0] == 0x45 && proto < 256
    && (proto == TCP ==> n >= 20) && (proto == UDP ==> n >= 8)
  }

  function WithLength(f: seq<byte>, proto: u16, n: nat): (r: seq<byte>)
    requires Ready(f, proto, n)
    ensures |r| == |f|
  {
    Put16(f, 2, SIZE_IP + n)[9 := proto]
  }

  function WithHeaderSum(f: seq<byte>): (r: seq<byte>)
    requires |f| >= SIZE_IP
    ensures |r| == |f|
  {
    var z := Put16(f, 10, 0);
    SumsFit(z, 0, []);
    Put16(f, 10, Sum16(WordSum(z[..SIZE_IP])))
  }

  /** The transport checksum, stored `at` bytes into the segment of `n` bytes; UDP never stores zero. */
  function WithSum(f: seq<byte>, n: nat, at: nat, udp: bool): (r: seq<byte>)
    requires SIZE_IP + n <= |f| && SIZE_IP + n <= 0xffff && at + 2 <= n
    ensures |r| == |f|
  {
    var z := Put16(f, SIZE_IP + at, 0);
    var p := z[SIZE_IP..SIZE_IP + n];
    SumsFit(z, n, p);
    var sum := Sum16(PseudoSum(z, n) + WordSum(p));
    Put16(f, SIZE_IP + at, if udp then NeverZero(sum) else sum)
  }

  /** `encapsulate4` once the payload is written. */
  function Encapsulated(f: seq<byte>, proto: u16, n: nat): seq<byte>
    requires Ready(f, proto, n)
  {
    var h := WithHeaderSum(WithLength(f, proto, n));
    if proto == TCP then WithSum(h, n, 16, false)
    else if proto == UDP then WithSum(Put16(h, SIZE_IP + 4, n), n, 6, true)
    else h
  }

  /** The fields of the header that the length and protocol set, and those it leaves. */
  lemma LengthFields(f: seq<byte>, proto: u16, n: nat)
    requires Ready(f, proto, n)
    ensures var g := WithLength(f, proto, n);
            g[0] == 0x45 && Get16(g, 2) == SIZE_IP + n && g[9] as int == proto && g[12..] == f[12..]
  {
  }

  lemma HeaderSumFields(f: seq<byte>)
    requires |f| >= SIZE_IP
    ensures var g := WithHeaderSum(f);
            g[..10] == f[..10] && g[12..] == f[12..]
  {
    hide WordSum, Sum16;
  }

  lemma HeaderSumChecks(f: seq<byte>)
    requires |f| >= SIZE_IP
    ensures var g := WithHeaderSum(f);
            WordSum(g[..SIZE_IP]) < MAX32 && Sum16(WordSum(g[..SIZE_IP])) == 0
  {
    hide WordSum, Sum16;
    var b, g := f[..SIZE_IP], WithHeaderSum(f);
    var z := Put16(f, 10, 0);
    SumsFit(z, 0, []);
    assert z[..SIZE_IP] == Put16(b, 10, 0);
    StoredSumChecks(b, 10, 0, Sum16(WordSum(Put16(b, 10, 0))));
    assert g[..SIZE_IP] == Put16(b, 10, Sum16(WordSum(Put16(b, 10, 0))));
  }

  /** A stored transport checksum checks out over the segment. */
  lemma WithSumChecks(f: seq<byte>, n: nat, at: nat, udp: bool)
    requires SIZE_IP + n <= |f| && SIZE_IP + n <= 0xffff && at + 2 <= n && at % 2 == 0
    ensures var g := WithSum(f, n, at, udp);
            var p := g[SIZE_IP..SIZE_IP + n];
            && g[..SIZE_IP] == f[..SIZE_IP] && p == Put16(f[SIZE_IP..SIZE_IP + n], at, Get16(p, at))
            && PseudoSum(g, n) + WordSum(p) < MAX32 && Sum16(PseudoSum(g, n) + WordSum(p)) == 0
  {
    hide WordSum, Sum16;
    var b, g := f[SIZE_IP..SIZE_IP + n], WithSum(f, n, at, udp);
    var z := Put16(f, SIZE_IP + at, 0);
    assert z[SIZE_IP..SIZE_IP + n] == Put16(b, at, 0);
    assert g[..SIZE_IP] == z[..SIZE_IP] == f[..SIZE_IP];
    assert g[12..20] == z[12..20] == g[..SIZE_IP][12..20];
    assert g[9] == z[9];
    SumsFit(z, n, Put16(b, at, 0));
    var c := Get16(g, SIZE_IP + at);
    PutGet(f, SIZE_IP + at, c);
    assert g[SIZE_IP..SIZE_IP + n] == Put16(b, at, c);
    StoredIs(f, n, at, udp);
    StoredSumChecks(b, at, PseudoSum(z, n), c);
  }

  lemma StoredIs(f: seq<byte>, n: nat, at: nat, udp: bool)
    requires SIZE_IP + n <= |f| && SIZE_IP + n <= 0xffff && at + 2 <= n
    ensures var z := Put16(f, SIZE_IP + at, 0);
            var s := PseudoSum(z, n) + WordSum(z[SIZE_IP..SIZE_IP + n]);
            s < MAX32 && (Get16(WithSum(f, n, at, udp), SIZE_IP + at) == if udp then NeverZero(Sum16(s)) else Sum16(s))
  {
    hide WordSum, Sum16, Put16;
    var z := Put16(f, SIZE_IP + at, 0);
    SumsFit(z, n, z[SIZE_IP..SIZE_IP + n]);
    var c := Sum16(PseudoSum(z, n) + WordSum(z[SIZE_IP..SIZE_IP + n]));
    PutGet(f, SIZE_IP + at, if udp then NeverZero(c) else c);
  }

  lemma FinishedHeader(f: seq<byte>, proto: u16, n: nat)
    requires Ready(f, proto, n)
    ensures var h := WithHeaderSum(WithLength(f, proto, n));
            && |h| == |f| && h[0] == 0x45 && Get16(h, 2) == SIZE_IP + n && h[9] as int == proto
            && WordSum(h[..SIZE_IP]) < MAX32 && Sum16(WordSum(h[..SIZE_IP])) == 0
  {
    hide WordSum, Sum16, WithLength, WithHeaderSum;
    var g := WithLength(f, proto, n);
    LengthFields(f, proto, n);
    HeaderSumFields(g);
    HeaderSumChecks(g);
    var h := WithHeaderSum(g);
    assert h[..10][0] == h[0] && h[..10][9] == h[9] && h[..10][2] == h[2] && h[..10][3] == h[3];
  }

  lemma SameHeader(f: seq<byte>, g: seq<byte>)
    requires |f| == |g| && |f| >= SIZE_IP && f[..SIZE_IP] == g[..SIZE_IP]
    ensures f[0] == g[0] && f[9] == g[9] && Get16(f, 2) == Get16(g, 2)
  {
    assert f[0] == f[..SIZE_IP][0] && f[9] == f[..SIZE_IP][9] && f[2] == f[..SIZE_IP][2] && f[3] == f[..SIZE_IP][3];
  }

  /** The pseudo header of RFC 793 and RFC 768: both addresses, a zero byte, the protocol and the segment's length. */
  function PseudoBytes(f: seq<byte>, length: u16): seq<byte>
    requires |f| >= SIZE_IP
  {
    f[12..16] + f[16..20] + [0, f[9]] + Be16(length)
  }

  lemma PseudoIsHeader(f: seq<byte>, length: u16)
    requires |f| >= SIZE_IP
    ensures PseudoSum(f, length) == WordSum(PseudoBytes(f, length))
  {
    hide Get16;
    var a, b, c := f[12..20], [0, f[9]], Be16(length);
    assert PseudoBytes(f, length) == a + (b + c) by { assert f[12..16] + f[16..20] == a; }
    SumConcat(a, b + c);
    SumConcat(b, c);
    WordIs(b);
    WordIs(c);
    assert Get16(b, 0) == f[9] as int && Get16(c, 0) == length by { Words(f[9], length); }
  }

  lemma WordIs(b: seq<byte>)
    requires |b| == 2
    ensures WordSum(b) == Get16(b, 0)
  {
    hide Get16;
    assert b[2..] == [];
  }

  lemma Words(proto: byte, length: u16)
    ensures Get16([0, proto], 0) == proto as int && Get16(Be16(length), 0) == length
  {
  }

  /** Finishing a packet sets its length, protocol and checksums, and the UDP length; every other byte stays. */
  lemma EmittedTouches(f: seq<byte>, proto: u16, n: nat, i: nat)
    requires Ready(f, proto, n) && i < |f| && Encapsulated(f, proto, n)[i] != f[i]
    ensures i in {2, 3, 9, 10, 11} || (proto == TCP && i in {36, 37}) || (proto == UDP && i in {24, 25, 26, 27})
  {
    hide WordSum, Sum16, PseudoSum;
  }

  /** A UDP packet is never sent with the checksum that means there is none. */
  lemma UdpSumStored(f: seq<byte>, n: nat)
    requires Ready(f, UDP, n)
    ensures Get16(Encapsulated(f, UDP, n), 26) != 0
  {
    hide WordSum, Sum16, WithLength, WithHeaderSum, Get16, PseudoSum, WithSum;
    StoredIs(Put16(WithHeaderSum(WithLength(f, UDP, n)), SIZE_IP + 4, n), n, 6, true);
  }

  /** The part of a packet its transport checksum covers, besides the pseudo header. */
  function Covered(f: seq<byte>): seq<byte>
    requires Sized(f) && (f[9] as int == UDP ==> |Payload(f)| >= 8 && Get16(Payload(f), 4) <= |Payload(f)|)
  {
    if f[9] as int == UDP then Payload(f)[..Get16(Payload(f), 4)] else Payload(f)
  }

  /** A segment that was accepted is not once one of its words changed, unless by 65535, or is the UDP length. */
  lemma DamageDetected(f: seq<byte>, k: nat, v: u16)
    requires Sized(f) && TransportChecks(f) && (f[9] as int == TCP || (f[9] as int == UDP && k != 4))
    requires k % 2 == 0 && k + 2 <= |Covered(f)| && v % 0xffff != Get16(Covered(f), k) % 0xffff
    ensures var g := Put16(f, HeaderLength(f) + k, v); Sized(g) && !TransportChecks(g)
  {
    hide WordSum, Sum16, PseudoSum;
    var p, u, g := Payload(f), Covered(f), Put16(f, HeaderLength(f) + k, v);
    assert Sized(g) && g[9] == f[9] && HeaderLength(g) == HeaderLength(f) && Get16(g, 2) == Get16(f, 2);
    assert Payload(g) == Put16(p, k, v);
    if f[9] as int == UDP {
      assert Get16(Payload(g), 4) == Get16(p, 4);
      assert Put16(p, k, v)[..|u|] == Put16(u, k, v);
    }
    assert f[..SIZE_IP] == g[..SIZE_IP];
    PseudoSame(f, g, |u|);
    SumsFit(f, |u|, u);
    OneWordDetected(u, k, PseudoSum(f, |u|), v);
  }

  /** Every packet that is sent passes the receiver's header and transport tests, whatever its payload. */
  lemma EmittedChecks(f: seq<byte>, proto: u16, n: nat)
    requires Ready(f, proto, n)
    ensures Sized(Encapsulated(f, proto, n)) && Checks(Encapsulated(f, proto, n))
  {
    hide WordSum, Sum16, WithSum, WithLength, WithHeaderSum, Get16, Put16, PseudoSum;
    var h, e := WithHeaderSum(WithLength(f, proto, n)), Encapsulated(f, proto, n);
    FinishedHeader(f, proto, n);
    if proto == TCP {
      WithSumChecks(h, n, 16, false);
      SameHeader(h, e);
    } else if proto == UDP {
      var g := Put16(h, SIZE_IP + 4, n);
      PutHeader(h, n);
      WithSumChecks(g, n, 6, true);
      SameHeader(h, e);
      LengthStays(g, e, n);
    }
  }

  lemma PutHeader(h: seq<byte>, n: u16)
    requires |h| >= SIZE_IP + 8
    ensures Put16(h, SIZE_IP + 4, n)[..SIZE_IP] == h[..SIZE_IP] && Get16(Put16(h, SIZE_IP + 4, n), SIZE_IP + 4) == n
  {
    PutGet(h, SIZE_IP + 4, n);
  }

  /** The UDP length survives the storing of the checksum behind it. */
  lemma LengthStays(g: seq<byte>, e: seq<byte>, n: nat)
    requires |g| == |e| && SIZE_IP + n <= |g| && 8 <= n <= 0xffff && Get16(g, SIZE_IP + 4) == n
    requires var p := e[SIZE_IP..SIZE_IP + n]; p == Put16(g[SIZE_IP..SIZE_IP + n], 6, Get16(p, 6))
    ensures Get16(e[SIZE_IP..SIZE_IP + n], 4) == n && e[SIZE_IP..SIZE_IP + n][..n] == e[SIZE_IP..SIZE_IP + n]
  {
    var p, q := e[SIZE_IP..SIZE_IP + n], g[SIZE_IP..SIZE_IP + n];
    assert p[4] == q[4] == g[SIZE_IP + 4] && p[5] == q[5] == g[SIZE_IP + 5];
  }

  // ---- in place

  method Store16(frame: array<byte>, off: nat, v: u16)
    requires off + 2 <= frame.Length
    modifies frame
    ensures frame[..] == Put16(old(frame[..]), off, v)
  {
    frame[off], frame[off + 1] := v / 256, v % 256;
  }

  method StoreHeaderSum(frame: array<byte>)
    requires frame.Length >= SIZE_IP
    modifies frame
    ensures frame[..] == WithHeaderSum(old(frame[..]))
  {
    hide WordSum, Sum16;
    ghost var f := frame[..];
    Store16(frame, 10, 0);
    SumsFit(frame[..], 0, []);
    var crc := new Crc791();
    assert frame[..SIZE_IP] == frame[..][..SIZE_IP];
    crc.WriteEven(frame[..SIZE_IP]);
    var sum := crc.Sum();
    Store16(frame, 10, sum);
    PutGet(f, 10, sum);
  }

  method PseudoHeader(frame: array<byte>, length: u16) returns (crc: Crc791)
    requires frame.Length >= SIZE_IP
    ensures fresh(crc) && crc.sum == PseudoSum(frame[..], length)
  {
    hide WordSum;
    SumsFit(frame[..], length, []);
    assert frame[12..20] == frame[..][12..20];
    crc := new Crc791();
    crc.WriteEven(frame[12..20]);
    crc.AddUint16(length);
    crc.AddUint16(frame[9]);
  }

  method StoreSum(frame: array<byte>, n: nat, at: nat, udp: bool)
    requires SIZE_IP + n <= frame.Length && SIZE_IP + n <= 0xffff && at + 2 <= n
    modifies frame
    ensures frame[..] == WithSum(old(frame[..]), n, at, udp)
  {
    hide WordSum, Sum16, PseudoSum;
    ghost var f := frame[..];
    var crc := PseudoHeader(frame, n);
    Store16(frame, SIZE_IP + at, 0);
    ghost var z := frame[..];
    PseudoSame(f, z, n);
    assert frame[SIZE_IP..SIZE_IP + n] == z[SIZE_IP..SIZE_IP + n];
    SumsFit(z, n, z[SIZE_IP..SIZE_IP + n]);
    var sum := crc.PayloadSum16(frame[SIZE_IP..SIZE_IP + n]);
    if udp {
      sum := NeverZero(sum);
    }
    Store16(frame, SIZE_IP + at, sum);
    PutGet(f, SIZE_IP + at, sum);
  }

  lemma PseudoSame(f: seq<byte>, z: seq<byte>, n: u16)
    requires |f| == |z| && |f| >= SIZE_IP && f[..SIZE_IP] == z[..SIZE_IP]
    ensures PseudoSum(f, n) == PseudoSum(z, n)
  {
    assert f[12..20] == f[..SIZE_IP][12..20] == z[12..20];
    SameHeader(f, z);
  }

  /** Finishes a packet whose payload of `n` bytes a protocol has written. */
  method Encapsulate(frame: array<byte>, proto: u16, n: nat)
    requires Ready(frame[..], proto, n)
    modifies frame
    ensures frame[..] == Encapsulated(old(frame[..]), proto, n)
    ensures Sized(frame[..]) && Checks(frame[..])
  {
    hide WordSum, Sum16, WithSum, WithHeaderSum, Sized, Checks;
    EmittedChecks(frame[..], proto, n);
    ghost var f := frame[..];
    Store16(frame, 2, SIZE_IP + n);
    frame[9] := proto;
    assert frame[..] == WithLength(f, proto, n);
    StoreHeaderSum(frame);
    if proto == TCP {
      StoreSum(frame, n, 16, false);
    } else if proto == UDP {
      Store16(frame, SIZE_IP + 4, n);
      StoreSum(frame, n, 6, true);
    }
  }

  /** The tests of `demux4` on a frame that arrived. */
  method Demux(frame: array<byte>) returns (ok: bool)
    requires Sized(frame[..])
    ensures ok == Checks(frame[..])
  {
    hide WordSum, Sum16, PseudoSum;
    ghost var f := frame[..];
    SumsFit(f, 0, []);
    var crc := new Crc791();
    assert frame[..SIZE_IP] == f[..SIZE_IP];
    crc.WriteEven(frame[..SIZE_IP]);
    var sum := crc.Sum();
    if sum != 0 {
      return false;
    }
    var p := frame[HeaderLength(frame[..])..Get16(frame[..], 2)];
    assert p == Payload(f);
    if frame[9] as int == TCP {
      crc := PseudoHeader(frame, |p|);
      SumsFit(f, |p|, p);
      sum := crc.PayloadSum16(p);
      return sum == 0;
    } else if frame[9] as int == UDP {
      if |p| < 8 || Get16(p, 4) < 8 || Get16(p, 4) > |p| {
        return false;
      }
      var u := p[..Get16(p, 4)];
      crc := PseudoHeader(frame, |u|);
      SumsFit(f, |u|, u);
      sum := crc.PayloadSum16(u);
      return sum == 0;
    }
    return true;
  }
}
