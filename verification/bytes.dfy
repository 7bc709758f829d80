/** The octets every buffer of the stack holds, and the operations on them that are shared. */
module Bytes {
  type byte = x: int | 0 <= x < 256

  const CR: byte := 13
  const LF: byte := 10

  /** `c` with the `|d|` elements from index `at` on replaced by `d`. */
  function Splice<T>(c: seq<T>, at: nat, d: seq<T>): (r: seq<T>)
    requires at + |d| <= |c|
    ensures |r| == |c|
    ensures forall k :: 0 <= k < |c| ==> r[k] == if at <= k < at + |d| then d[k - at] else c[k]
  {
    c[..at] + d + c[at + |d|..]
  }

  function Min(a: int, b: int): int {
    if a < b then a else b
  }

  type u16 = x: int | 0 <= x < 0x1_0000
  type u32 = x: int | 0 <= x < 0x1_0000_0000

  /** Big-endian, as network headers have it. */
  function Be16(v: u16): seq<byte> {
    [v / 256, v % 256]
  }

  function Get16(b: seq<byte>, off: nat): u16
    requires off + 2 <= |b|
  {
    var high: int := b[off];
    high * 256 + b[off + 1]
  }

  /** First `c` at or after `from`, or the length. */
  function Find(d: seq<byte>, c: byte, from: nat): (i: nat)
    requires from <= |d|
    ensures from <= i <= |d| && (i < |d| ==> d[i] == c)
    ensures forall j :: from <= j < i ==> d[j] != c
    decreases |d| - from
  {
    if from == |d| || d[from] == c then from else Find(d, c, from + 1)
  }

  method IndexByte(d: seq<byte>, c: byte, from: nat) returns (i: nat)
    requires from <= |d|
    ensures i == Find(d, c, from)
  {
    i := from;
    while i < |d| && d[i] != c
      invariant from <= i <= |d| && Find(d, c, from) == Find(d, c, i)
    {
      i := i + 1;
    }
  }
}
