/** `SetPathValues`, the pattern scans and `MuxSlice` (http/httphi/mux.go). */
module Muxes {
  import opened Routes

  datatype Method =
    | MethUndefined | MethGet | MethHead | MethPost | MethPut | MethPatch
    | MethDelete | MethConnect | MethOptions | MethTrace
    | MethUnknown

  /** Binds while walking, before the match is known; `n` values were written. */
  method SetPathValuesRaw(dst: array<PathValue>, pattern: string, path: string)
      returns (n: nat, matched: bool, tooShort: bool)
    modifies dst
    ensures n <= dst.Length && dst[n..] == old(dst[n..])
    ensures matched <==> Matches(pattern, path) && Binds(pattern[1..]) <= dst.Length
    ensures matched ==> dst[..n] == Bindings(pattern[1..], path[1..])
    ensures tooShort ==> Rooted(pattern) && Binds(pattern[1..]) > dst.Length
  {
    hide Fits, WildcardOf, Split, ShapeOf, Matches, Binds, Bindings, SlashAt, First, Rest, More;
    n, tooShort := 0, false;
    MatchesFits(pattern, path);
    if |pattern| == 0 || pattern[0] != '/' || |path| == 0 || path[0] != '/' {
      return 0, false, false;
    }
    var p, r := pattern[1..], path[1..];
    while true
      invariant n <= dst.Length && dst[n..] == old(dst[n..])
      invariant Matches(pattern, path) <==> Fits(ShapeOf(p), Split(r))
      invariant Binds(pattern[1..]) == n + Binds(p)
      invariant Bindings(pattern[1..], path[1..]) == dst[..n] + Bindings(p, r)
      decreases |p|
    {
      FitsCases(p, r);
      BindCases(p, r);
      if |p| == 0 {
        return n, true, false;
      }
      var w := WildcardOf(First(p));
      if IsEnd(w) {
        return n, !More(p) && |r| == 0, false;
      } else if w.Multi? {
        if w.name != "" {
          if n >= dst.Length {
            return n, false, true;
          }
          Put(dst, n, PathValue(w.name, r));
          n := n + 1;
        }
        return n, true, false;
      } else if w.Single? {
        if |First(r)| == 0 {
          return n, false, false;
        }
        if n >= dst.Length {
          return n, false, true;
        }
        Put(dst, n, PathValue(w.name, First(r)));
        n := n + 1;
      } else if First(r) != First(p) {
        return n, false, false;
      }
      if More(p) != More(r) {
        return n, false, false;
      } else if !More(p) {
        return n, true, false;
      }
      p, r := Rest(p), Rest(r);
    }
  }

  method Put(dst: array<PathValue>, n: nat, v: PathValue)
    requires n < dst.Length
    modifies dst
    ensures dst[..n + 1] == old(dst[..n]) + [v] && dst[n + 1..] == old(dst[n..])[1..]
  {
    dst[n] := v;
  }

  /** What each kind of segment binds. */
  lemma BindCases(p: string, r: string)
    ensures p == "" || IsEnd(WildcardOf(First(p))) ==> Binds(p) == 0 && Bindings(p, r) == []
    ensures p != "" && !IsEnd(WildcardOf(First(p))) && WildcardOf(First(p)).Multi? ==>
              var name := WildcardOf(First(p)).name;
              Bindings(p, r) == (if name == "" then [] else [PathValue(name, r)]) && Binds(p) == |Bindings(p, r)|
    ensures p != "" && !IsEnd(WildcardOf(First(p))) && !WildcardOf(First(p)).Multi? ==>
              var w := WildcardOf(First(p));
              && Binds(p) == (if w.Single? then 1 else 0) + (if More(p) then Binds(Rest(p)) else 0)
              && Bindings(p, r) == (if w.Single? then [PathValue(w.name, First(r))] else [])
                                   + if More(p) && More(r) then Bindings(Rest(p), Rest(r)) else []
    ensures More(p) ==> |Rest(p)| < |p|
  {
    hide WildcardOf;
  }

  lemma MatchesFits(pattern: string, path: string)
    ensures Matches(pattern, path) <==> Rooted(pattern) && Rooted(path) && Fits(ShapeOf(pattern[1..]), Split(path[1..]))
  {
  }

  /** The walk's decision at each kind of segment. */
  lemma FitsCases(p: string, r: string)
    ensures p == "" ==> Fits(ShapeOf(p), Split(r))
    ensures p != "" && IsEnd(WildcardOf(First(p))) ==> (Fits(ShapeOf(p), Split(r)) <==> !More(p) && r == "")
    ensures p != "" && !IsEnd(WildcardOf(First(p))) && WildcardOf(First(p)).Multi? ==> Fits(ShapeOf(p), Split(r))
    ensures p != "" && !IsEnd(WildcardOf(First(p))) && !WildcardOf(First(p)).Multi? ==>
              (Fits(ShapeOf(p), Split(r)) <==>
                FitsElem(if WildcardOf(First(p)).Single? then Any else Lit(First(p)), First(r))
                && More(p) == More(r) && (More(p) ==> Fits(ShapeOf(Rest(p)), Split(Rest(r)))))
  {
    hide WildcardOf;
    if p != "" {
      if IsEnd(WildcardOf(First(p))) {
        EndedIsEmpty(p, r);
      } else if !WildcardOf(First(p)).Multi? {
        FitsStep(p, r);
      }
    }
  }

  /** Leaves no values behind when the pattern does not match. */
  method SetPathValues(dst: array<PathValue>, pattern: string, path: string) returns (matched: bool, tooShort: bool)
    modifies dst
    ensures matched <==> Matches(pattern, path) && Binds(pattern[1..]) <= dst.Length
    ensures matched ==> Binds(pattern[1..]) == |Bindings(pattern[1..], path[1..])|
    ensures matched ==> dst[..] == Bindings(pattern[1..], path[1..]) + old(dst[..])[Binds(pattern[1..])..]
    ensures !matched ==> exists n :: 0 <= n <= dst.Length && dst[n..] == old(dst[n..]) && Cleared(dst[..n])
    ensures tooShort ==> !matched
  {
    hide Matches, Bindings, Binds;
    var n;
    n, matched, tooShort := SetPathValuesRaw(dst, pattern, path);
    if matched {
      MatchBinds(pattern, path);
      assert dst[..] == dst[..n] + dst[n..];
    } else {
      ghost var kept := dst[n..];
      for i := 0 to n
        invariant Cleared(dst[..i]) && dst[n..] == kept
      {
        dst[i] := UNSET;
      }
    }
  }

  predicate Cleared(vals: seq<PathValue>) {
    forall i :: 0 <= i < |vals| ==> vals[i] == UNSET
  }

  lemma MatchBinds(pattern: string, path: string)
    requires Matches(pattern, path)
    ensures |Bindings(pattern[1..], path[1..])| == Binds(pattern[1..])
  {
    BindingsCount(pattern[1..], path[1..]);
  }

  /** `patternSpecificity`. */
  method PatternSpecificity(pattern: string) returns (spec: nat)
    ensures spec == Specificity(pattern)
  {
    hide WildcardOf;
    spec := 0;
    if |pattern| == 0 || pattern[0] != '/' {
      return;
    }
    var p := pattern[1..];
    while true
      invariant Specificity(pattern) == spec + Score(ShapeOf(p))
      decreases |p|
    {
      if |p| == 0 {
        return;
      }
      var w := WildcardOf(First(p));
      if IsEnd(w) {
        return spec + 1;
      } else if w.Multi? {
        return;
      } else if w.Single? {
        spec := spec + 1;
      } else {
        spec := spec + 2;
      }
      ScoreStep(p);
      if !More(p) {
        return spec + 1;
      }
      p := Rest(p);
    }
  }

  lemma ScoreStep(p: string)
    requires p != "" && !IsEnd(WildcardOf(First(p))) && !WildcardOf(First(p)).Multi?
    ensures Score(ShapeOf(p)) == (if WildcardOf(First(p)).Single? then 1 else 2) +
            if More(p) then Score(ShapeOf(Rest(p))) else 1
  {
    hide WildcardOf;
    var e := if WildcardOf(First(p)).Single? then Any else Lit(First(p));
    if More(p) {
      var t := ShapeOf(Rest(p)).elems;
      assert ([e] + t)[1..] == t;
    } else {
      assert ShapeOf(p) == Shape([e], Exact) && Weights([e]) == Weight(e) + Weights([e][1..]) && [e][1..] == [];
    }
  }

  /** `countPathValues`. */
  method CountPathValues(pattern: string) returns (n: nat)
    ensures n == if Rooted(pattern) then CountValues(pattern[1..]) else 0
  {
    hide WildcardOf;
    n := 0;
    if |pattern| == 0 || pattern[0] != '/' {
      return;
    }
    var p := pattern[1..];
    while |p| > 0
      invariant CountValues(pattern[1..]) == n + CountValues(p)
    {
      if Named(WildcardOf(First(p))) {
        n := n + 1;
      }
      if !More(p) {
        break;
      }
      p := Rest(p);
    }
  }

  datatype Endpoint = Endpoint(method_: Method, path: string, handler: nat, pathVals: nat, spec: nat) {
    ghost predicate Ok() {
      Rooted(path) && spec == Specificity(path) && pathVals == CountValues(path[1..])
    }
  }

  /** A registration that serves the request, given room for `k` path values. */
  predicate Serves(e: Endpoint, m: Method, path: string, k: nat) {
    (e.method_ == MethUndefined || e.method_ == m) && Matches(e.path, path) && Binds(e.path[1..]) <= k
  }

  /** The registration among the first `n` that wins: the highest score, the earliest of equals. */
  ghost predicate Best(handlers: seq<Endpoint>, n: nat, m: Method, path: string, k: nat, best: int)
    requires n <= |handlers|
  {
    && -1 <= best < n
    && (best == -1 ==> forall i :: 0 <= i < n ==> !Serves(handlers[i], m, path, k))
    && (best >= 0 ==>
          && Serves(handlers[best], m, path, k)
          && forall i :: 0 <= i < n && Serves(handlers[i], m, path, k) ==>
               handlers[i].spec < handlers[best].spec || (handlers[i].spec == handlers[best].spec && best <= i))
  }

  lemma BestOfNone(handlers: seq<Endpoint>, m: Method, path: string, k: nat)
    ensures Best(handlers, 0, m, path, k, -1)
  {
  }

  lemma BestServes(handlers: seq<Endpoint>, m: Method, path: string, k: nat, best: int)
    requires Best(handlers, |handlers|, m, path, k, best) && best >= 0
    ensures best < |handlers| && Matches(handlers[best].path, path) && Binds(handlers[best].path[1..]) <= k
    ensures Rooted(handlers[best].path) && Rooted(path)
  {
  }

  lemma BestKeeps(handlers: seq<Endpoint>, i: nat, m: Method, path: string, k: nat, best: int)
    requires i < |handlers| && Best(handlers, i, m, path, k, best)
    requires !Serves(handlers[i], m, path, k) || (best >= 0 && handlers[i].spec <= handlers[best].spec)
    ensures Best(handlers, i + 1, m, path, k, best)
  {
    hide Serves;
  }

  lemma BestTakes(handlers: seq<Endpoint>, i: nat, m: Method, path: string, k: nat, best: int)
    requires i < |handlers| && Best(handlers, i, m, path, k, best)
    requires Serves(handlers[i], m, path, k) && (best == -1 || handlers[i].spec > handlers[best].spec)
    ensures Best(handlers, i + 1, m, path, k, i)
  {
    hide Serves;
  }

  /** No registration that serves the request matches strictly fewer paths than the winner. */
  lemma WinnerIsMostSpecific(handlers: seq<Endpoint>, m: Method, path: string, k: nat, best: nat, i: nat)
    requires Best(handlers, |handlers|, m, path, k, best) && (forall j :: 0 <= j < |handlers| ==> handlers[j].Ok())
    requires i < |handlers| && Serves(handlers[i], m, path, k)
    ensures !(Included(handlers[i].path, handlers[best].path) && !Included(handlers[best].path, handlers[i].path))
  {
    hide Matches, Specificity, Binds;
    var p, q := handlers[i].path, handlers[best].path;
    assert handlers[i].Ok() && handlers[best].Ok();
    if Included(p, q) && !Included(q, p) {
      ImpossibleExactly(p);
      SpecificityIsSound(p, q);
    }
  }

  /**
    A registration is served by some request, given room for `k` values, if and only if it matches something and
    fits.
  */
  lemma ServedExactly(e: Endpoint, k: nat)
    requires e.Ok()
    ensures (exists m, path :: Serves(e, m, path, k)) <==> !Impossible(e.path) && Binds(e.path[1..]) <= k
    ensures k == e.pathVals ==>
              ((exists m, path :: Serves(e, m, path, k)) <==>
                !Impossible(e.path) && Unnamed(e.path[1..]) <= Unreached(e.path[1..]))
  {
    hide Matches, Binds, Specificity, CountValues, Impossible, Unnamed, Unreached;
    ImpossibleExactly(e.path);
    CountBalance(e.path[1..]);
    if !Impossible(e.path) && Binds(e.path[1..]) <= k {
      var path :| Matches(e.path, path);
      assert Serves(e, e.method_, path, k);
    }
  }

  /** The pattern `/{}` matches paths and is never served with the room the mux asks for. */
  lemma UnnamedNeverServed(handler: nat, m: Method, path: string)
    ensures var e := Endpoint(MethUndefined, "/{}", handler, CountValues("/{}"[1..]), Specificity("/{}"));
            e.Ok() && !Impossible(e.path) && !Serves(e, m, path, e.pathVals)
  {
    hide Matches, Specificity;
    var p := "/{}"[1..];
    assert p == "{}" && "{}"[1..1] == "";
    SlashAfter("{}", "");
    assert First(p) == "{}" && WildcardOf("{}") == Single("");
  }

  class MuxSlice {
    var handlers: seq<Endpoint>

    ghost predicate Valid()
      reads this
    {
      && (forall i :: 0 <= i < |handlers| ==> handlers[i].Ok())
      && forall i, j :: 0 <= i < j < |handlers| ==>
         handlers[i].method_ != handlers[j].method_ || handlers[i].path != handlers[j].path
    }

    constructor ()
      ensures Valid() && handlers == []
    {
      handlers := [];
    }

    /** Registers; `ok` is false where the source panics. */
    method Handle(m: Method, path: string, handler: nat) returns (ok: bool)
      requires Valid()
      modifies this
      ensures Valid()
      ensures ok <==>
              Rooted(path) && forall i :: 0 <= i < |old(handlers)| ==>
              old(handlers)[i].method_ != m || old(handlers)[i].path != path
      ensures handlers ==
              if ok then old(handlers) + [Endpoint(m, path, handler, CountValues(path[1..]), Specificity(path))]
              else old(handlers)
    {
      hide Specificity, CountValues;
      if |path| == 0 || path[0] != '/' {
        return false;
      }
      for i := 0 to |handlers|
        invariant handlers == old(handlers)
        invariant forall j :: 0 <= j < i ==> handlers[j].method_ != m || handlers[j].path != path
      {
        if handlers[i].method_ == m && handlers[i].path == path {
          return false;
        }
      }
      var pathVals := CountPathValues(path);
      var spec := PatternSpecificity(path);
      handlers := handlers + [Endpoint(m, path, handler, pathVals, spec)];
      return true;
    }

    method MaxPathValues() returns (most: int)
      ensures handlers == [] ==> most == -1
      ensures forall i :: 0 <= i < |handlers| ==> handlers[i].pathVals <= most
      ensures handlers != [] ==> most == 0 || exists i :: 0 <= i < |handlers| && handlers[i].pathVals == most
    {
      if |handlers| == 0 {
        return -1;
      }
      most := 0;
      for i := 0 to |handlers|
        invariant forall j :: 0 <= j < i ==> handlers[j].pathVals <= most
        invariant most == 0 || exists j :: 0 <= j < i && handlers[j].pathVals == most
      {
        if handlers[i].pathVals > most {
          most := handlers[i].pathVals;
        }
      }
    }

    /** Whether one registration's pattern takes the path; `dst` is scratch. */
    method Try(e: Endpoint, path: string, dst: array<PathValue>) returns (ok: bool)
      requires Rooted(e.path)
      modifies dst
      ensures ok <==> Matches(e.path, path) && Binds(e.path[1..]) <= dst.Length
    {
      hide Matches, Binds, Bindings, IsWildcardPattern;
      if IsWildcardPattern(e.path) {
        var tooShort;
        ok, tooShort := SetPathValues(dst, e.path, path);
      } else {
        LiteralMatches(e.path, path);
        ok := path == e.path;
      }
    }

    /** The winning registration, or -1; a winner with wildcards leaves its bindings and nothing else. */
    method LookupHandler(m: Method, path: string, dst: array<PathValue>) returns (best: int)
      requires Valid()
      modifies dst
      ensures Best(handlers, |handlers|, m, path, dst.Length, best)
      ensures best >= 0 && IsWildcardPattern(handlers[best].path) ==>
                var b := Bindings(handlers[best].path[1..], path[1..]);
                |b| <= dst.Length && dst[..|b|] == b && Cleared(dst[|b|..])
    {
      hide Matches, Binds, Bindings, IsWildcardPattern, Specificity, CountValues, Best;
      best := -1;
      BestOfNone(handlers, m, path, dst.Length);
      for i := 0 to |handlers|
        invariant Best(handlers, i, m, path, dst.Length, best) && -1 <= best < i
      {
        var e := handlers[i];
        assert e.Ok();
        var ok := false;
        if (e.method_ == MethUndefined || e.method_ == m) && !(best >= 0 && e.spec <= handlers[best].spec) {
          ok := Try(e, path, dst);
        }
        if ok {
          BestTakes(handlers, i, m, path, dst.Length, best);
          best := i;
        } else {
          BestKeeps(handlers, i, m, path, dst.Length, best);
        }
      }
      if best >= 0 && IsWildcardPattern(handlers[best].path) {
        BestServes(handlers, m, path, dst.Length, best);
        Bind(handlers[best].path, path, dst);
      }
    }

    /** The winner's values alone. */
    method Bind(pattern: string, path: string, dst: array<PathValue>)
      requires Rooted(pattern) && Rooted(path) && Matches(pattern, path) && Binds(pattern[1..]) <= dst.Length
      modifies dst
      ensures var b := Bindings(pattern[1..], path[1..]);
              |b| <= dst.Length && dst[..|b|] == b && Cleared(dst[|b|..])
    {
      hide Matches, Binds, Bindings;
      for i := 0 to dst.Length
        invariant Cleared(dst[..i])
      {
        dst[i] := UNSET;
      }
      assert dst[..dst.Length] == dst[..];
      ghost var clear := dst[..];
      var matched, tooShort := SetPathValues(dst, pattern, path);
      ghost var b := Bindings(pattern[1..], path[1..]);
      assert dst[|b|..] == clear[|b|..];
    }
  }
}
