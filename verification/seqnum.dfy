/** Sequence numbers of tcp/valuesize.go: 32-bit values compared modulo 2^32. */
module SeqNum {

  const MOD: int := 0x1_0000_0000
  const HALF: int := 0x8000_0000

  type Value = v: int | 0 <= v < 0x1_0000_0000
  type Size = s: int | 0 <= s < 0x1_0000_0000

  /** Go's truncation of an integer to uint32. */
  function Wrap(x: int): (v: Value)
    decreases if x < 0 then MOD - x else x
  {
    if x < 0 then Wrap(x + MOD) else if x < MOD then x else Wrap(x - MOD)
  }

  lemma {:induction false} WrapIsMod(x: int)
    ensures Wrap(x) == x % MOD
    decreases if x < 0 then MOD - x else x
  {
    if x < 0 {
      WrapIsMod(x + MOD);
    } else if x >= MOD {
      WrapIsMod(x - MOD);
    }
  }

  lemma WrapAdd(x: int, y: int)
    ensures Wrap(Wrap(x) + y) == Wrap(x + y)
  {
    WrapIsMod(x);
    WrapIsMod(Wrap(x) + y);
    WrapIsMod(x + y);
  }

  /** Go's reinterpretation of a uint32 as an int32. */
  function Int32(v: Value): int
  {
    if v < HALF then v else v - MOD
  }

  predicate LessThan(v: Value, w: Value) {
    Int32(Wrap(v - w)) < 0
  }

  predicate LessThanEq(v: Value, w: Value) {
    v == w || LessThan(v, w)
  }

  predicate InRange(v: Value, a: Value, b: Value) {
    Wrap(v - a) < Wrap(b - a)
  }

  predicate InWindow(v: Value, first: Value, size: Size) {
    InRange(v, first, Add(first, size))
  }

  function Add(v: Value, s: Size): Value {
    Wrap(v + s)
  }

  function Sizeof(v: Value, w: Value): Size {
    Wrap(w - v)
  }

  /** The two ways to reach a difference: any two representatives less than a turn apart. */
  lemma WrapDiff(base: int, i: int, j: int)
    ensures Wrap(Wrap(base + i) - Wrap(base + j)) == Wrap(i - j)
  {
    WrapIsMod(base + i);
    WrapIsMod(base + j);
    WrapIsMod(Wrap(base + i) - Wrap(base + j));
    WrapIsMod(i - j);
  }

  /** Modular order is the order of unwrapped positions less than half a turn apart. */
  lemma OrderExact(base: int, i: int, j: int)
    requires -HALF < i - j < HALF
    ensures LessThan(Wrap(base + i), Wrap(base + j)) <==> i < j
    ensures LessThanEq(Wrap(base + i), Wrap(base + j)) <==> i <= j
    ensures Wrap(base + i) == Wrap(base + j) <==> i == j
  {
    WrapDiff(base, i, j);
  }

  /** Order is antisymmetric except between values exactly half a turn apart. */
  lemma OrderAntisymmetric(v: Value, w: Value)
    ensures LessThan(v, w) && LessThan(w, v) <==> Sizeof(v, w) == HALF
  {
    WrapIsMod(v - w);
    WrapIsMod(w - v);
  }

  lemma AddThenSizeof(v: Value, n: Size)
    ensures Sizeof(v, Add(v, n)) == n
  {
    WrapAdd(v + n, 0 - v);
  }

  /** A window test on unwrapped positions, exact as long as the window does not reach a full turn round. */
  lemma WindowExact(base: int, i: int, j: int, n: Size)
    requires n - MOD <= i - j < MOD
    ensures InWindow(Wrap(base + i), Wrap(base + j), n) <==> j <= i < j + n
  {
    WrapDiff(base, i, j);
    AddThenSizeof(Wrap(base + j), n);
  }

  lemma SizeofExact(base: int, i: int, j: int)
    requires 0 <= j - i < MOD
    ensures Sizeof(Wrap(base + i), Wrap(base + j)) == j - i
  {
    WrapDiff(base, j, i);
  }

  lemma AddExact(base: int, i: int, n: Size)
    ensures Add(Wrap(base + i), n) == Wrap(base + (i + n))
  {
    WrapAdd(base + i, n);
  }

  lemma WrapTurn(x: int)
    ensures Wrap(x - MOD) == Wrap(x) == Wrap(x + MOD)
  {
    WrapIsMod(x);
    WrapIsMod(x - MOD);
    WrapIsMod(x + MOD);
  }

  lemma WrapCancel(v: Value, y: int)
    ensures Wrap(v - Wrap(y) + y) == v
  {
    WrapIsMod(y);
    WrapIsMod(v - Wrap(y) + y);
  }
}
