/**
  What a route pattern says, written and read back: words, `{name}`, `{name...}`, `{$}` and a trailing
  slash, and the paths and bindings each stands for (http/httphi/mux.go).
*/
module RoutePatterns {
  import opened Routes

  datatype Piece = Word(text: string) | OneOf(name: string)

  /** A pattern ends with its last piece, with a wildcard for all that is left, with the path's end, or in a slash. */
  datatype Ending = Whole | AnyRest(name: string) | PathEnd | Slash

  function PieceText(x: Piece): string {
    match x
    case Word(text) => text
    case OneOf(name) => "{" + name + "}"
  }

  function EndingText(e: Ending): string {
    match e
    case AnyRest(name) => "{" + name + "...}"
    case PathEnd => "{$}"
    case Whole => ""
    case Slash => ""
  }

  function Write(pieces: seq<Piece>, e: Ending): string {
    if pieces == [] then EndingText(e)
    else PieceText(pieces[0]) + if |pieces| == 1 && e.Whole? then "" else "/" + Write(pieces[1..], e)
  }

  // ---- which patterns are written

  predicate Braced(s: string) {
    |s| >= 2 && s[0] == '{' && s[|s| - 1] == '}'
  }

  predicate Dotted(s: string) {
    |s| >= 3 && s[|s| - 3..] == "..."
  }

  predicate LegalPiece(x: Piece) {
    match x
    case Word(text) => '/' !in text && !Braced(text)
    case OneOf(name) => '/' !in name && name != "$" && !Dotted(name)
  }

  predicate Legal(pieces: seq<Piece>, e: Ending) {
    && (forall i :: 0 <= i < |pieces| ==> LegalPiece(pieces[i]))
    && (e.AnyRest? ==> '/' !in e.name && e.name != "$")
    && (e.Whole? ==> pieces != [] && pieces[|pieces| - 1] != Word(""))
  }

  // ---- what they mean

  /** What a pattern asks of a path: words as they are, one non-empty segment per wildcard, then the ending. */
  predicate Meant(pieces: seq<Piece>, e: Ending, segs: seq<string>) {
    if pieces == [] then
      match e
      case Whole => segs == []
      case PathEnd => segs == [""]
      case AnyRest(_) => segs != []
      case Slash => segs != []
    else
      && segs != []
      && (if pieces[0].Word? then segs[0] == pieces[0].text else segs[0] != "")
      && Meant(pieces[1..], e, segs[1..])
  }

  /** What its wildcards are bound to. */
  function Bound(pieces: seq<Piece>, e: Ending, segs: seq<string>): seq<PathValue> {
    if segs == [] then []
    else if pieces == [] then
      if e.AnyRest? && e.name != "" then [PathValue(e.name, Join(segs))] else []
    else
      (if pieces[0].OneOf? then [PathValue(pieces[0].name, segs[0])] else []) + Bound(pieces[1..], e, segs[1..])
  }

  // ---- reading them

  lemma PieceReads(x: Piece)
    requires LegalPiece(x)
    ensures '/' !in PieceText(x)
    ensures WildcardOf(PieceText(x)) == if x.Word? then Literal else Single(x.name)
  {
    if x.OneOf? {
      assert ("{" + x.name + "}")[1..|x.name| + 1] == x.name;
    }
  }

  lemma EndingReads(e: Ending)
    requires e.AnyRest? ==> '/' !in e.name
    ensures '/' !in EndingText(e)
    ensures e.AnyRest? ==> WildcardOf(EndingText(e)) == Multi(e.name)
    ensures e.PathEnd? ==> WildcardOf(EndingText(e)) == Single("$")
  {
    if e.AnyRest? {
      var name := e.name + "...";
      var t := EndingText(e);
      assert t == "{" + name + "}" && t[1..|t| - 1] == name;
      assert name[|name| - 3..] == "..." && name[..|name| - 3] == e.name;
    } else if e.PathEnd? {
      assert "{$}"[1..2] == "$";
    }
  }

  lemma FirstCuts(x: string, rest: string)
    requires '/' !in x
    ensures First(x) == x && !More(x)
    ensures var p := x + ("/" + rest); First(p) == x && More(p) && Rest(p) == rest
  {
    hide SlashAt;
    SlashAfter(x, rest);
    assert x + ("/" + rest) == x + "/" + rest;
  }

  /** Cutting a written pattern gives its first piece and the pattern of the others. */
  lemma WriteCuts(pieces: seq<Piece>, e: Ending)
    requires Legal(pieces, e) && pieces != []
    ensures var p := Write(pieces, e);
            First(p) == PieceText(pieces[0]) && More(p) == !(|pieces| == 1 && e.Whole?)
              && (More(p) ==> Rest(p) == Write(pieces[1..], e))
  {
    hide SlashAt, WildcardOf, EndingText, PieceText, First, More, Rest, Braced, Dotted;
    var x := PieceText(pieces[0]);
    PieceReads(pieces[0]);
    FirstCuts(x, Write(pieces[1..], e));
    assert x + "" == x;
  }

  lemma LegalRest(pieces: seq<Piece>, e: Ending)
    requires Legal(pieces, e) && pieces != []
    ensures |pieces| > 1 || !e.Whole? ==> Legal(pieces[1..], e)
    ensures Write(pieces, e) != ""
  {
    hide LegalPiece;
    if |pieces| > 1 {
      assert pieces[1..][|pieces| - 2] == pieces[|pieces| - 1];
    }
  }

  /** Cutting a path into segments, one at a time. */
  lemma SplitCuts(path: string)
    ensures var segs := Split(path);
            segs != [] && segs[0] == First(path) && (More(path) <==> segs[1..] != [])
              && (More(path) ==> segs[1..] == Split(Rest(path)))
  {
    hide SlashAt;
  }

  lemma EndingMatches(e: Ending, path: string)
    requires Legal([], e)
    ensures Fits(ShapeOf(EndingText(e)), Split(path)) <==> Meant([], e, Split(path))
    ensures Bindings(EndingText(e), path) == Bound([], e, Split(path))
  {
    hide SlashAt, WildcardOf, Join;
    EndingReads(e);
    var p := EndingText(e);
    SlashAfter(p, "");
    assert First(p) == p && !More(p);
    JoinSplit(path);
    if !e.Slash? {
      assert p != "";
    }
    if e.PathEnd? {
      var segs := Split(path);
      assert Fits(Shape([], Ended), segs) <==> |segs| == 1 && segs[0] == "";
    }
  }

  /** A pattern matches the paths its pieces and its ending mean, and binds what they say. */
  lemma {:induction false} WrittenMeans(pieces: seq<Piece>, e: Ending, path: string)
    requires Legal(pieces, e)
    ensures Fits(ShapeOf(Write(pieces, e)), Split(path)) <==> Meant(pieces, e, Split(path))
    ensures Meant(pieces, e, Split(path)) ==> Bindings(Write(pieces, e), path) == Bound(pieces, e, Split(path))
    decreases |pieces|
  {
    hide SlashAt, WildcardOf, Fits, First, More, Rest, Split, ShapeOf, EndingText, Braced, Dotted;
    if pieces == [] {
      EndingMatches(e, path);
    } else {
      var p := Write(pieces, e);
      WriteCuts(pieces, e);
      LegalRest(pieces, e);
      PieceReads(pieces[0]);
      FitsStep(p, path);
      SplitCuts(path);
      if More(p) && More(path) {
        WrittenMeans(pieces[1..], e, Rest(path));
      }
    }
  }

  /** The same of whole patterns and paths, with their leading slash. */
  lemma PatternMeans(pieces: seq<Piece>, e: Ending, segs: seq<string>)
    requires Legal(pieces, e) && segs != [] && forall i :: 0 <= i < |segs| ==> '/' !in segs[i]
    ensures Matches("/" + Write(pieces, e), "/" + Join(segs)) <==> Meant(pieces, e, segs)
    ensures Meant(pieces, e, segs) ==> Bindings(Write(pieces, e), Join(segs)) == Bound(pieces, e, segs)
  {
    hide Fits, Split, ShapeOf, Write, Join, Legal, Meant, Bound, Bindings;
    var p, path := Write(pieces, e), Join(segs);
    assert ("/" + p)[1..] == p && ("/" + path)[1..] == path;
    SplitJoin(segs);
    WrittenMeans(pieces, e, path);
  }
}
