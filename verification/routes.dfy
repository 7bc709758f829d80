/**
  Route patterns of http/httphi/mux.go: which paths a pattern matches, what it binds and how it is
  scored. `MuxSlice` picks by score; the score is proved sound for language inclusion.
*/
module Routes {

  /** Index of the first slash, or the length. */
  function SlashAt(s: string): (i: nat)
    ensures i <= |s| && '/' !in s[..i] && (i < |s| ==> s[i] == '/')
  {
    if s == "" || s[0] == '/' then 0
    else
      var i := 1 + SlashAt(s[1..]);
      assert s[..i] == [s[0]] + s[1..][..i - 1];
      i
  }

  function First(s: string): string {
    s[..SlashAt(s)]
  }

  predicate More(s: string) {
    SlashAt(s) < |s|
  }

  function Rest(s: string): string
    requires More(s)
  {
    s[SlashAt(s) + 1..]
  }

  /** The segments of a path, at least one. */
  function Split(s: string): (segs: seq<string>)
    ensures segs != [] && forall i :: 0 <= i < |segs| ==> '/' !in segs[i]
  {
    if More(s) then [First(s)] + Split(Rest(s)) else [First(s)]
  }

  function Join(segs: seq<string>): string
    requires segs != []
  {
    if |segs| == 1 then segs[0] else segs[0] + "/" + Join(segs[1..])
  }

  lemma {:induction false} SlashAfter(s: string, t: string)
    requires '/' !in s
    ensures SlashAt(s + "/" + t) == |s| && SlashAt(s) == |s|
  {
    var u := s + "/" + t;
    assert s == "" || s[0] != '/';
    if s != "" {
      assert u[1..] == s[1..] + "/" + t;
      SlashAfter(s[1..], t);
    }
  }

  lemma {:induction false} SplitJoin(segs: seq<string>)
    requires segs != [] && forall i :: 0 <= i < |segs| ==> '/' !in segs[i]
    ensures Split(Join(segs)) == segs
  {
    if |segs| > 1 {
      SplitJoin(segs[1..]);
      var t := Join(segs[1..]);
      SlashAfter(segs[0], t);
      assert First(Join(segs)) == segs[0] && Rest(Join(segs)) == t;
    } else {
      SlashAfter(segs[0], "");
      assert First(segs[0]) == segs[0] && segs == [segs[0]];
    }
  }

  lemma {:induction false} JoinSplit(s: string)
    ensures Join(Split(s)) == s
    decreases |s|
  {
    if More(s) {
      JoinSplit(Rest(s));
      assert Split(s)[1..] == Split(Rest(s));
      assert s == First(s) + "/" + Rest(s);
    }
  }

  // ---- patterns

  datatype Wildcard = Literal | Single(name: string) | Multi(name: string)

  function WildcardOf(segment: string): Wildcard {
    if |segment| < 2 || segment[0] != '{' || segment[|segment| - 1] != '}' then Literal
    else
      var name := segment[1..|segment| - 1];
      if |name| >= 3 && name[|name| - 3..] == "..." then Multi(name[..|name| - 3]) else Single(name)
  }

  predicate IsEnd(w: Wildcard) {
    !w.Literal? && w.name == "$"
  }

  datatype Elem = Lit(text: string) | Any

  /** How a pattern ends: spent on its last segment, open, at the path's end, or in a way no path does. */
  datatype Tail = Exact | Open | Ended | Never

  datatype Shape = Shape(elems: seq<Elem>, tail: Tail)

  /** The shape of what follows a pattern's leading slash. */
  function ShapeOf(p: string): Shape
    decreases |p|
  {
    if p == "" then Shape([], Open)
    else
      var w := WildcardOf(First(p));
      if IsEnd(w) then Shape([], if More(p) then Never else Ended)
      else if w.Multi? then Shape([], Open)
      else
        var e := if w.Single? then Any else Lit(First(p));
        if More(p) then Shape([e] + ShapeOf(Rest(p)).elems, ShapeOf(Rest(p)).tail) else Shape([e], Exact)
  }

  predicate FitsElem(e: Elem, seg: string) {
    match e
    case Lit(text) => seg == text
    case Any => seg != ""
  }

  predicate FitsAll(elems: seq<Elem>, segs: seq<string>)
    requires |elems| <= |segs|
  {
    forall i :: 0 <= i < |elems| ==> FitsElem(elems[i], segs[i])
  }

  /** The path segments a shape matches. */
  predicate Fits(sh: Shape, segs: seq<string>) {
    var n := |sh.elems|;
    match sh.tail
    case Exact => |segs| == n && FitsAll(sh.elems, segs)
    case Open => |segs| > n && FitsAll(sh.elems, segs)
    case Ended => |segs| == n + 1 && segs[n] == "" && FitsAll(sh.elems, segs)
    case Never => false
  }

  predicate Rooted(s: string) {
    s != "" && s[0] == '/'
  }

  /** The paths a pattern matches. */
  predicate Matches(pattern: string, path: string) {
    Rooted(pattern) && Rooted(path) && Fits(ShapeOf(pattern[1..]), Split(path[1..]))
  }

  function Weight(e: Elem): nat {
    if e.Lit? then 2 else 1
  }

  function Weights(elems: seq<Elem>): nat {
    if elems == [] then 0 else Weight(elems[0]) + Weights(elems[1..])
  }

  function Score(sh: Shape): nat {
    Weights(sh.elems) + if sh.tail.Open? then 0 else 1
  }

  /** What `patternSpecificity` computes. */
  function Specificity(pattern: string): nat {
    if Rooted(pattern) then Score(ShapeOf(pattern[1..])) else 0
  }

  /** Facts of every pattern's shape: no slash in a literal, and a spent pattern does not end in an empty literal. */
  ghost predicate Shapely(sh: Shape) {
    && (forall i :: 0 <= i < |sh.elems| ==> sh.elems[i].Lit? ==> '/' !in sh.elems[i].text)
    && (sh.tail.Exact? ==> sh.elems != [] && sh.elems[|sh.elems| - 1] != Lit(""))
  }

  lemma {:induction false} ShapeIsShapely(p: string)
    ensures Shapely(ShapeOf(p))
    decreases |p|
  {
    if p != "" {
      var w := WildcardOf(First(p));
      if !IsEnd(w) && !w.Multi? && More(p) {
        ShapeIsShapely(Rest(p));
      }
    }
  }

  // ---- inclusion

  /** A segment that fits `e` and, where `e` leaves a choice, does not fit a literal `f`. */
  function Telling(e: Elem, f: Elem): string {
    match e
    case Lit(text) => text
    case Any => if f.Lit? then f.text + "x" else "x"
  }

  /** Segments fitting `elems` that tell them apart from `other`, followed by `last`. */
  function Witness(elems: seq<Elem>, other: seq<Elem>, last: seq<string>): seq<string>
  {
    seq(|elems|, i requires 0 <= i < |elems| => Telling(elems[i], if i < |other| then other[i] else Any)) + last
  }

  lemma TellingFits(e: Elem, f: Elem)
    ensures FitsElem(e, Telling(e, f))
    ensures FitsElem(f, Telling(e, f)) ==> Weight(e) >= Weight(f) && (Weight(e) == Weight(f) ==> e == f)
  {
  }

  /** Elementwise at least as heavy means heavier in sum, strictly when longer or different. */
  lemma {:induction false} WeightsCompare(a: seq<Elem>, b: seq<Elem>)
    requires |a| >= |b|
    requires forall i :: 0 <= i < |b| ==>
             Weight(a[i]) >= Weight(b[i]) && (Weight(a[i]) == Weight(b[i]) ==> a[i] == b[i])
    ensures Weights(a) >= Weights(b) && (a != b ==> Weights(a) > Weights(b))
  {
    if b != [] {
      WeightsCompare(a[1..], b[1..]);
      assert a == [a[0]] + a[1..] && b == [b[0]] + b[1..];
    }
  }

  /** A path every shape but an impossible one matches: the witness read as a path. */
  lemma WitnessPath(p: string, q: string, last: seq<string>) returns (path: string)
    requires Rooted(p) && ShapeOf(p[1..]).tail != Never && (last == [] || last == [""] || last == ["x"])
    requires var t := ShapeOf(p[1..]).tail;
             (t.Exact? ==> last == []) && (t.Ended? ==> last == [""]) && (t.Open? ==> last != [])
    ensures var w := Witness(ShapeOf(p[1..]).elems, ShapeOf(q).elems, last);
            Matches(p, path) && Rooted(path) && Split(path[1..]) == w
  {
    hide ShapeOf, Split, Join;
    var sh, other := ShapeOf(p[1..]), ShapeOf(q).elems;
    var w := Witness(sh.elems, other, last);
    ShapeIsShapely(p[1..]);
    ShapeIsShapely(q);
    forall i | 0 <= i < |sh.elems|
      ensures FitsElem(sh.elems[i], w[i]) && '/' !in w[i]
    {
      TellingFits(sh.elems[i], if i < |other| then other[i] else Any);
    }
    SplitJoin(w);
    path := "/" + Join(w);
    assert path[1..] == Join(w);
  }

  /** When the witness of `p` fits `q`, `p` is at least as heavy where they overlap. */
  lemma WitnessCompares(p: Shape, q: Shape, last: seq<string>)
    requires |q.elems| <= |p.elems| && FitsAll(q.elems, Witness(p.elems, q.elems, last))
    ensures Weights(p.elems) >= Weights(q.elems) && (p.elems != q.elems ==> Weights(p.elems) > Weights(q.elems))
  {
    hide Weights;
    forall i | 0 <= i < |q.elems|
      ensures Weight(p.elems[i]) >= Weight(q.elems[i])
              && (Weight(p.elems[i]) == Weight(q.elems[i]) ==> p.elems[i] == q.elems[i])
    {
      TellingFits(p.elems[i], q.elems[i]);
      assert FitsElem(q.elems[i], Witness(p.elems, q.elems, last)[i]);
    }
    WeightsCompare(p.elems, q.elems);
  }

  /** A witness that ends in a non-empty segment. */
  lemma WitnessEnds(p: Shape, q: Shape)
    requires Shapely(p) && p.tail.Exact?
    ensures var w := Witness(p.elems, q.elems, []); |w| == |p.elems| > 0 && w[|w| - 1] != ""
  {
  }

  lemma EmptyEndNotSpent(q: Shape, segs: seq<string>)
    requires Shapely(q) && q.tail.Exact? && segs != [] && segs[|segs| - 1] == ""
    ensures !Fits(q, segs)
  {
    if |segs| == |q.elems| {
      assert !FitsElem(q.elems[|q.elems| - 1], segs[|segs| - 1]);
    }
  }

  /** If the witnesses of `p` all fit `q`, the score of `p` is higher or the shapes are equal. */
  lemma ScoresByWitness(p: Shape, q: Shape)
    requires Shapely(p) && Shapely(q) && p.tail != Never
    requires p.tail.Exact? ==> Fits(q, Witness(p.elems, q.elems, []))
    requires p.tail.Ended? ==> Fits(q, Witness(p.elems, q.elems, [""]))
    requires p.tail.Open? ==> Fits(q, Witness(p.elems, q.elems, [""])) && Fits(q, Witness(p.elems, q.elems, ["x"]))
    ensures Score(p) > Score(q) || p == q
  {
    hide Weights, FitsAll, FitsElem, Shapely;
    match p.tail {
      case Exact =>
        WitnessEnds(p, q);
        WitnessCompares(p, q, []);
      case Ended =>
        if q.tail.Exact? {
          EmptyEndNotSpent(q, Witness(p.elems, q.elems, [""]));
        }
        WitnessCompares(p, q, [""]);
      case Open =>
        if q.tail.Exact? {
          EmptyEndNotSpent(q, Witness(p.elems, q.elems, [""]));
        }
        WitnessCompares(p, q, [""]);
    }
  }

  ghost predicate Included(p: string, q: string) {
    forall path :: Matches(p, path) ==> Matches(q, path)
  }

  /** A pattern no path matches: `{$}` followed by more. */
  predicate Impossible(p: string) {
    !Rooted(p) || ShapeOf(p[1..]).tail == Never
  }

  lemma ImpossibleExactly(p: string)
    ensures Impossible(p) <==> forall path :: !Matches(p, path)
  {
    hide ShapeOf;
    if !Impossible(p) {
      var t := ShapeOf(p[1..]).tail;
      var path := WitnessPath(p, "", if t.Exact? then [] else [""]);
      assert Matches(p, path);
    }
  }

  /**
    The score is sound for language inclusion: a pattern that matches something, and whose paths are a
    strict subset of another's, scores higher.
  */
  lemma SpecificityIsSound(p: string, q: string)
    requires !Impossible(p) && Included(p, q) && !Included(q, p)
    ensures Specificity(p) > Specificity(q)
  {
    hide ShapeOf, Fits, Score, Witness;
    var sp := ShapeOf(p[1..]);
    var path := WitnessPath(p, "", if sp.tail.Exact? then [] else [""]);
    assert Matches(q, path);
    var sq := ShapeOf(q[1..]);
    ShapeIsShapely(p[1..]);
    ShapeIsShapely(q[1..]);
    if sp.tail.Exact? {
      var w := WitnessPath(p, q[1..], []);
      assert Matches(q, w);
    } else {
      var w := WitnessPath(p, q[1..], [""]);
      assert Matches(q, w);
      if sp.tail.Open? {
        var w' := WitnessPath(p, q[1..], ["x"]);
        assert Matches(q, w');
      }
    }
    ScoresByWitness(sp, sq);
  }

  /** Without that condition it is not: an impossible pattern matches a subset of anything and may score low. */
  lemma ImpossibleScoresLow()
    ensures Included("/{$}/x", "/a") && !Included("/a", "/{$}/x") && Specificity("/{$}/x") < Specificity("/a")
  {
    hide Split, ShapeOf, Binds, SlashAt;
    NeverShape();
    LiteralShape("/a"[1..]);
    SplitOne();
    assert Weights([Lit("a")]) == 2 + Weights([]);
    LiteralMatches("/a", "/a");
  }

  /** A literal of `n + 1` segments. */
  function Ladder(n: nat): string {
    if n == 0 then "a" else "a/" + Ladder(n - 1)
  }

  lemma {:induction false} LadderScores(n: nat)
    ensures ShapeOf(Ladder(n)).tail.Exact? && Weights(ShapeOf(Ladder(n)).elems) == 2 * (n + 1)
  {
    hide SlashAt;
    var t := if n == 0 then "" else Ladder(n - 1);
    SlashAfter("a", t);
    if n > 0 {
      LadderScores(n - 1);
      assert Ladder(n) == "a" + "/" + t && First(Ladder(n)) == "a" && Rest(Ladder(n)) == t;
      assert ShapeOf(Ladder(n)).elems[1..] == ShapeOf(t).elems;
    } else {
      assert First("a") == "a" && ShapeOf("a") == Shape([Lit("a")], Exact) && [Lit("a")][1..] == [];
    }
  }

  /** A pattern that matches something but not what `p` does, and outscores it. */
  lemma Outscored(p: string) returns (q: string)
    requires Impossible(p)
    ensures Included(p, q) && !Included(q, p) && Specificity(q) > Specificity(p)
  {
    hide Matches, ShapeOf;
    var n := Specificity(p);
    q := "/" + Ladder(n);
    assert q[1..] == Ladder(n);
    LadderScores(n);
    ImpossibleExactly(p);
    ImpossibleExactly(q);
  }

  /** The score is sound for a pattern, against every other, if and only if the pattern matches something. */
  lemma SpecificityExactly(p: string)
    ensures !Impossible(p) <==> forall q :: Included(p, q) && !Included(q, p) ==> Specificity(p) > Specificity(q)
  {
    hide Impossible, Specificity, Matches;
    if Impossible(p) {
      var q := Outscored(p);
      assert Included(p, q) && !Included(q, p);
    } else {
      forall q | Included(p, q) && !Included(q, p)
        ensures Specificity(p) > Specificity(q)
      {
        SpecificityIsSound(p, q);
      }
    }
  }

  lemma NeverShape()
    ensures ShapeOf("/{$}/x"[1..]) == Shape([], Never)
  {
    var p := "/{$}/x"[1..];
    SlashAfter("{$}", "x");
    assert p == "{$}" + "/" + "x" && First(p) == "{$}" && "{$}"[1..2] == "$";
  }

  lemma SplitOne()
    ensures Split("/a"[1..]) == ["a"]
  {
    SlashAfter("a", "");
    assert "/a"[1..] == "a" && First("a") == "a";
  }

  // ---- walking a pattern

  /** One step of the walk over a pattern and a path in parallel. */
  lemma FitsStep(p: string, path: string)
    requires p != "" && !IsEnd(WildcardOf(First(p))) && !WildcardOf(First(p)).Multi?
    ensures var e := if WildcardOf(First(p)).Single? then Any else Lit(First(p));
            Fits(ShapeOf(p), Split(path)) <==>
              FitsElem(e, First(path)) && More(p) == More(path)
                && (More(p) ==> Fits(ShapeOf(Rest(p)), Split(Rest(path))))
  {
    hide WildcardOf;
    var e := if WildcardOf(First(p)).Single? then Any else Lit(First(p));
    if More(p) {
      var r := ShapeOf(Rest(p));
      ShapeIsShapely(Rest(p));
      if More(path) {
        ConsFits(e, r, First(path), Split(Rest(path)));
      }
    } else {
      assert FitsAll([e], [First(path)]) <==> FitsElem([e][0], [First(path)][0]);
    }
  }

  lemma ConsFits(e: Elem, r: Shape, seg: string, segs: seq<string>)
    ensures Fits(Shape([e] + r.elems, r.tail), [seg] + segs) <==> FitsElem(e, seg) && Fits(r, segs)
  {
    var elems, all := [e] + r.elems, [seg] + segs;
    if |r.elems| <= |segs| {
      assert FitsAll(elems, all) <==> FitsElem(e, seg) && FitsAll(r.elems, segs) by {
        if FitsAll(elems, all) {
          assert FitsElem(elems[0], all[0]);
          forall i | 0 <= i < |r.elems|
            ensures FitsElem(r.elems[i], segs[i])
          {
            assert FitsElem(elems[i + 1], all[i + 1]);
          }
        }
      }
    }
  }

  /** A value bound to a wildcard's name. */
  datatype PathValue = PathValue(key: string, value: string)

  const UNSET := PathValue("", "")

  /** Number of values the walk over a matching path binds. */
  function Binds(p: string): nat
    decreases |p|
  {
    if p == "" || IsEnd(WildcardOf(First(p))) then 0
    else
      match WildcardOf(First(p))
      case Multi(name) => if name == "" then 0 else 1
      case Single(_) => 1 + if More(p) then Binds(Rest(p)) else 0
      case Literal => if More(p) then Binds(Rest(p)) else 0
  }

  /** The values bound, in order. */
  function Bindings(p: string, path: string): seq<PathValue>
    decreases |p|
  {
    if p == "" || IsEnd(WildcardOf(First(p))) then []
    else
      var rest := if More(p) && More(path) then Bindings(Rest(p), Rest(path)) else [];
      match WildcardOf(First(p))
      case Multi(name) => if name == "" then [] else [PathValue(name, path)]
      case Single(name) => [PathValue(name, First(path))] + rest
      case Literal => rest
  }

  lemma {:induction false} BindingsCount(p: string, path: string)
    requires Fits(ShapeOf(p), Split(path))
    ensures |Bindings(p, path)| == Binds(p)
    decreases |p|
  {
    hide WildcardOf, Fits;
    if p != "" && !IsEnd(WildcardOf(First(p))) && !WildcardOf(First(p)).Multi? {
      FitsStep(p, path);
      if More(p) {
        BindingsCount(Rest(p), Rest(path));
      }
    }
  }

  /** The pattern with its wildcards replaced by values, and an unnamed remainder by `rest`. */
  function Refill(p: string, vals: seq<PathValue>, rest: string): string
    decreases |p|
  {
    if p == "" then rest
    else
      var w := WildcardOf(First(p));
      var value := if vals == [] then "" else vals[0].value;
      if IsEnd(w) then ""
      else if w.Multi? then (if w.name == "" then rest else value)
      else
        var vals' := if w.Single? && vals != [] then vals[1..] else vals;
        (if w.Single? then value else First(p)) + if More(p) then "/" + Refill(Rest(p), vals', rest) else ""
  }

  /** The bound values are right: put back into the pattern they give the path. */
  lemma {:induction false} BindingsRefill(p: string, path: string) returns (rest: string)
    requires Fits(ShapeOf(p), Split(path))
    ensures Refill(p, Bindings(p, path), rest) == path
    decreases |p|
  {
    hide WildcardOf, Fits;
    rest := path;
    if p != "" {
      var w := WildcardOf(First(p));
      if IsEnd(w) {
        EndedIsEmpty(p, path);
      } else if !w.Multi? {
        FitsStep(p, path);
        if More(p) {
          rest := BindingsRefill(Rest(p), Rest(path));
          RefillStep(p, path, rest);
        }
      }
    }
  }

  lemma RefillStep(p: string, path: string, rest: string)
    requires p != "" && More(p) && More(path) && !IsEnd(WildcardOf(First(p))) && !WildcardOf(First(p)).Multi?
    requires WildcardOf(First(p)).Literal? ==> First(path) == First(p)
    requires Refill(Rest(p), Bindings(Rest(p), Rest(path)), rest) == Rest(path)
    ensures Refill(p, Bindings(p, path), rest) == path
  {
    hide WildcardOf, SlashAt, First, Rest, More;
    var b, more := Bindings(p, path), Bindings(Rest(p), Rest(path));
    CutJoins(path);
    if WildcardOf(First(p)).Single? {
      assert b != [] && b[0].value == First(path) && b[1..] == more;
    }
  }

  lemma CutJoins(s: string)
    requires More(s)
    ensures First(s) + ("/" + Rest(s)) == s && |Rest(s)| < |s|
  {
  }

  lemma EndedIsEmpty(p: string, path: string)
    requires p != "" && IsEnd(WildcardOf(First(p)))
    ensures Fits(ShapeOf(p), Split(path)) <==> !More(p) && path == ""
  {
  }

  /** `countPathValues`: named wildcards of the whole pattern. */
  function CountValues(p: string): nat
    decreases |p|
  {
    if p == "" then 0
    else (if Named(WildcardOf(First(p))) then 1 else 0) + if More(p) then CountValues(Rest(p)) else 0
  }

  predicate Named(w: Wildcard) {
    !w.Literal? && w.name != "" && w.name != "$"
  }

  /** Wildcards `{}`, bound under the empty name and not counted, ahead of the pattern's end. */
  function Unnamed(p: string): nat
    decreases |p|
  {
    if p == "" || IsEnd(WildcardOf(First(p))) || WildcardOf(First(p)).Multi? then 0
    else (if WildcardOf(First(p)) == Single("") then 1 else 0) + if More(p) then Unnamed(Rest(p)) else 0
  }

  /** Named wildcards past the pattern's end, counted and never bound. */
  function Unreached(p: string): nat
    decreases |p|
  {
    if p == "" || !More(p) then 0
    else if IsEnd(WildcardOf(First(p))) || WildcardOf(First(p)).Multi? then CountValues(Rest(p))
    else Unreached(Rest(p))
  }

  /** Sizing by `countPathValues` is enough exactly when `{}` wildcards do not outnumber the named ones past the end. */
  lemma {:induction false} CountBalance(p: string)
    ensures Binds(p) + Unreached(p) == CountValues(p) + Unnamed(p)
    ensures Binds(p) <= CountValues(p) <==> Unnamed(p) <= Unreached(p)
    decreases |p|
  {
    hide WildcardOf;
    if p != "" && More(p) {
      CountBalance(Rest(p));
    }
  }

  // ---- literal patterns

  predicate IsWildcardPattern(p: string) {
    '{' in p || (p != "" && p[|p| - 1] == '/')
  }

  function Lits(segs: seq<string>): seq<Elem> {
    if segs == [] then [] else [Lit(segs[0])] + Lits(segs[1..])
  }

  lemma {:induction false} LitsFit(a: seq<string>, b: seq<string>)
    ensures |Lits(a)| == |a|
    ensures |a| == |b| ==> (FitsAll(Lits(a), b) <==> a == b)
  {
    if a != [] {
      LitsFit(a[1..], if b == [] then [] else b[1..]);
      if b != [] {
        ConsFits(Lit(a[0]), Shape(Lits(a[1..]), Exact), b[0], b[1..]);
        assert a == [a[0]] + a[1..] && b == [b[0]] + b[1..];
      }
    }
  }

  lemma NoWildcard(s: string)
    requires '{' !in s
    ensures WildcardOf(s).Literal?
  {
  }

  /** A pattern without wildcards is its segments. */
  lemma {:induction false} LiteralShape(p: string)
    requires p != "" && '{' !in p && p[|p| - 1] != '/'
    ensures ShapeOf(p) == Shape(Lits(Split(p)), Exact) && Binds(p) == 0
    decreases |p|
  {
    hide WildcardOf, SlashAt;
    NoWildcard(First(p));
    if More(p) {
      LiteralShape(Rest(p));
      assert Split(p)[1..] == Split(Rest(p));
    } else {
      assert Lits([First(p)]) == [Lit(First(p))] + Lits([First(p)][1..]);
    }
  }

  /** For a pattern without wildcards the matcher is string comparison, so the fast path is no shortcut. */
  lemma LiteralMatches(p: string, path: string)
    requires Rooted(p) && !IsWildcardPattern(p)
    ensures Matches(p, path) <==> p == path
    ensures Binds(p[1..]) == 0
  {
    hide ShapeOf, Split, Join;
    var t := p[1..];
    LiteralShape(t);
    if Rooted(path) {
      var a, b := Split(t), Split(path[1..]);
      JoinSplit(t);
      JoinSplit(path[1..]);
      LitsFit(a, b);
      assert p == [p[0]] + t && path == [path[0]] + path[1..];
    }
  }
}
