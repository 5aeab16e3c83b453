/**
 The two field-path parsers: the escaping one of TTL evaluation
 (parseFieldPath in internal/ttl/evaluator.go), and the plain split of
 selectors and conditions (parseFieldPath in pkg/controller/field_path.go).

 A path is a sequence of bytes; only the dot and the backslash are special.
 */
module FieldPath {

  type Path = seq<string>

  /** A backslash that escapes a dot stands at the front. */
  predicate EscapedDot(s: string) {
    |s| >= 2 && s[0] == '\\' && s[1] == '.'
  }

  function Prepend(c: char, p: Path): (r: Path)
    requires p != []
    ensures r != [] && |r| == |p|
  {
    [[c] + p[0]] + p[1..]
  }

  /** The segments of a path; always at least one. */
  function Segments(s: string): (p: Path)
    ensures p != []
  {
    if s == "" then [""]
    else if EscapedDot(s) then Prepend('.', Segments(s[2..]))
    else if s[0] == '.' then [""] + Segments(s[1..])
    else Prepend(s[0], Segments(s[1..]))
  }

  /** The escaping parser. */
  function Parse(s: string): Path {
    if s == "" then [] else Segments(s)
  }

  /** strings.Split(s, "."), for a non-empty string: cut at every dot. */
  function Cut(s: string): (p: Path)
    ensures p != []
  {
    if s == "" then [""]
    else if s[0] == '.' then [""] + Cut(s[1..])
    else Prepend(s[0], Cut(s[1..]))
  }

  /** The plain parser. */
  function Split(s: string): Path {
    if s == "" then [] else Cut(s)
  }

  /** The result of the byte loop: finished segments, the segment being built, and what is still to come. */
  ghost function Joined(result: Path, current: string, rest: Path): Path
    requires rest != []
  {
    result + [current + rest[0]] + rest[1..]
  }

  method ParseFieldPath(path: string) returns (result: Path)
    ensures result == Parse(path)
  {
    if path == "" {
      return [];
    }
    result := [];
    var current := "";
    var i := 0;
    assert path[i..] == path;
    JoinedNone(Segments(path));
    while i < |path|
      invariant 0 <= i <= |path|
      invariant Joined(result, current, Segments(path[i..])) == Segments(path)
    {
      ghost var here := path[i..];
      if path[i] == '\\' && i + 1 < |path| && path[i + 1] == '.' {
        assert EscapedDot(here) && here[2..] == path[i + 2..];
        JoinedPrepend(result, current, '.', Segments(path[i + 2..]));
        current := current + ['.'];
        i := i + 1;
      } else if path[i] == '.' {
        assert !EscapedDot(here) && here[1..] == path[i + 1..];
        JoinedNext(result, current, Segments(path[i + 1..]));
        result := result + [current];
        current := "";
      } else {
        assert !EscapedDot(here) && here[1..] == path[i + 1..];
        JoinedPrepend(result, current, path[i], Segments(path[i + 1..]));
        current := current + [path[i]];
      }
      i := i + 1;
    }
    assert path[i..] == "";
    assert current + "" == current;
    result := result + [current];
  }

  lemma JoinedPrepend(result: Path, current: string, c: char, rest: Path)
    requires rest != []
    ensures Joined(result, current, Prepend(c, rest)) == Joined(result, current + [c], rest)
  {
    assert current + ([c] + rest[0]) == (current + [c]) + rest[0];
  }

  lemma JoinedNone(rest: Path)
    requires rest != []
    ensures Joined([], "", rest) == rest
  {
    assert "" + rest[0] == rest[0];
  }

  lemma JoinedNext(result: Path, current: string, rest: Path)
    requires rest != []
    ensures Joined(result, current, [""] + rest) == Joined(result + [current], "", rest)
  {
    assert current + "" == current && "" + rest[0] == rest[0];
    assert [rest[0]] + rest[1..] == rest;
  }

  // -------------------------------------------------------------- printing

  function Escape(segment: string): string {
    if segment == "" then ""
    else (if segment[0] == '.' then "\\." else [segment[0]]) + Escape(segment[1..])
  }

  /** Each dot inside a segment as backslash-dot; segments joined with dots. */
  function Print(p: Path): string {
    if p == [] then ""
    else if |p| == 1 then Escape(p[0])
    else Escape(p[0]) + "." + Print(p[1..])
  }

  predicate EndsInBackslash(s: string) {
    s != "" && s[|s| - 1] == '\\'
  }

  /** No segment before the last ends in a backslash. */
  predicate Separable(p: Path) {
    forall i :: 0 <= i < |p| - 1 ==> !EndsInBackslash(p[i])
  }

  lemma PrintFirst(p: Path)
    requires p != []
    ensures Print(p) == Escape(p[0]) + if |p| == 1 then "" else "." + Print(p[1..])
  {
    hide Escape;
    assert |p| > 1 ==> Escape(p[0]) + "." + Print(p[1..]) == Escape(p[0]) + ("." + Print(p[1..]));
    assert Escape(p[0]) + "" == Escape(p[0]);
  }

  /** A byte written in front of a path. */
  lemma {:induction false} PrintPrepend(c: char, p: Path)
    requires p != []
    ensures Print(Prepend(c, p)) == (if c == '.' then "\\." else [c]) + Print(p)
  {
    hide Escape, Print;
    var q := Prepend(c, p);
    EscapeByte(q[0]);
    assert q[0][1..] == p[0] && q[1..] == p[1..];
    PrintFirst(p);
    PrintFirst(q);
  }

  lemma {:induction false} PrintSegments(s: string)
    ensures Print(Segments(s)) == s
  {
    if s == "" {
    } else if EscapedDot(s) {
      PrintSegments(s[2..]);
      PrintPrepend('.', Segments(s[2..]));
      assert s == "\\." + s[2..];
    } else if s[0] == '.' {
      PrintSegments(s[1..]);
      var p := [""] + Segments(s[1..]);
      assert p[1..] == Segments(s[1..]);
      assert s == "." + s[1..];
    } else {
      PrintSegments(s[1..]);
      PrintPrepend(s[0], Segments(s[1..]));
      assert s == [s[0]] + s[1..];
    }
  }

  /** Printing undoes parsing, for every string. */
  lemma PrintParse(s: string)
    ensures Print(Parse(s)) == s
  {
    PrintSegments(s);
  }

  /** Parsing never lets a segment before the last end in a backslash. */
  lemma {:induction false} SegmentsSeparable(s: string)
    ensures Separable(Segments(s))
    ensures Segments(s) == [""] ==> s == ""
  {
    if s == "" {
    } else if EscapedDot(s) {
      SegmentsSeparable(s[2..]);
      PrependSeparable('.', Segments(s[2..]));
    } else if s[0] == '.' {
      SegmentsSeparable(s[1..]);
    } else {
      SegmentsSeparable(s[1..]);
      var p := Segments(s[1..]);
      if s[0] == '\\' && |p| > 1 && p[0] == "" {
        // then a dot follows, and the two would have been an escaped dot
        EmptyFirst(s[1..]);
        assert false;
      }
      PrependSeparable(s[0], p);
    }
  }

  lemma PrependSeparable(c: char, p: Path)
    requires p != [] && Separable(p)
    requires c == '\\' && |p| > 1 ==> p[0] != ""
    ensures Separable(Prepend(c, p))
  {
    var q := Prepend(c, p);
    forall i | 0 <= i < |q| - 1
      ensures !EndsInBackslash(q[i])
    {
      if i > 0 {
        assert q[i] == p[i];
      }
    }
  }

  lemma EmptyFirst(s: string)
    requires |Segments(s)| > 1 && Segments(s)[0] == ""
    ensures s != "" && s[0] == '.'
  {
  }

  /** How the parser reads one printed byte. */
  lemma SegmentsByte(c: char, rest: string)
    ensures c == '.' ==> Segments("." + rest) == [""] + Segments(rest)
    ensures c == '.' ==> Segments("\\." + rest) == Prepend('.', Segments(rest))
    ensures c != '.' && !(c == '\\' && rest != "" && rest[0] == '.') ==> Segments([c] + rest) == Prepend(c, Segments(rest))
  {
    assert ("." + rest)[1..] == rest && ("\\." + rest)[2..] == rest && ([c] + rest)[1..] == rest;
  }

  lemma {:induction false} EscapeByte(segment: string)
    requires segment != ""
    ensures Escape(segment) == (if segment[0] == '.' then "\\." else [segment[0]]) + Escape(segment[1..])
    ensures Escape(segment)[0] != '.'
  {
  }

  lemma {:induction false} SegmentsEscape(segment: string)
    ensures Segments(Escape(segment)) == [segment]
  {
    if segment != "" {
      hide Segments, Escape;
      EscapeByte(segment);
      SegmentsEscape(segment[1..]);
      SegmentsByte(segment[0], Escape(segment[1..]));
      if segment[1..] != "" {
        EscapeByte(segment[1..]);
      } else {
        EscapeEmpty();
      }
      assert [segment[0]] + segment[1..] == segment;
    }
  }

  lemma EscapeEmpty()
    ensures Escape("") == "" && Segments("") == [""]
  {
  }

  /** A segment that does not end in a backslash stays a segment of its own when more follows. */
  lemma {:induction false} SegmentsAppend(segment: string, rest: string)
    requires !EndsInBackslash(segment)
    ensures Segments(Escape(segment) + "." + rest) == [segment] + Segments(rest)
  {
    hide Segments, Escape;
    EscapeEmpty();
    if segment == "" {
      SegmentsByte('.', rest);
      assert Escape(segment) + "." + rest == "." + rest;
    } else {
      var tail := Escape(segment[1..]) + "." + rest;
      EscapeByte(segment);
      SegmentsAppend(segment[1..], rest);
      SegmentsByte(segment[0], tail);
      if segment[1..] != "" {
        EscapeByte(segment[1..]);
      } else {
        assert segment[0] == segment[|segment| - 1];
      }
      assert Escape(segment) + "." + rest == (if segment[0] == '.' then "\\." else [segment[0]]) + tail;
      assert [segment[0]] + segment[1..] == segment;
      assert Prepend(segment[0], [segment[1..]] + Segments(rest)) == [segment] + Segments(rest);
    }
  }

  lemma {:induction false} SegmentsPrint(p: Path)
    requires p != [] && Separable(p)
    ensures Segments(Print(p)) == p
  {
    if |p| == 1 {
      SegmentsEscape(p[0]);
    } else {
      assert forall i :: 0 <= i < |p[1..]| ==> p[1..][i] == p[i + 1];
      SegmentsPrint(p[1..]);
      SegmentsAppend(p[0], Print(p[1..]));
      assert p == [p[0]] + p[1..];
    }
  }

  lemma PrintIsEmpty(p: Path)
    requires Print(p) == ""
    ensures p == [] || p == [""]
  {
    if p != [] {
      assert Escape(p[0]) == "";
      assert p[0] == "";
    }
  }

  /** Parsing undoes printing exactly on the paths in the parser's image. */
  lemma ParsePrint(p: Path)
    ensures Parse(Print(p)) == p <==> p != [""] && Separable(p)
  {
    if p == [] {
    } else if Print(p) == "" {
      PrintIsEmpty(p);
    } else {
      if Separable(p) {
        SegmentsPrint(p);
      }
      SegmentsSeparable(Print(p));
    }
  }

  /** So the parser is a bijection from strings onto those paths. */
  lemma ParseIsBijective(s: string, t: string)
    ensures Parse(s) == Parse(t) <==> s == t
    ensures Parse(s) != [""] && Separable(Parse(s))
    ensures forall p | p != [""] && Separable(p) :: exists u :: Parse(u) == p
  {
    PrintParse(s);
    PrintParse(t);
    ParsePrint(Parse(s));
    forall p: Path | p != [""] && Separable(p)
      ensures exists u :: Parse(u) == p
    {
      ParsePrint(p);
    }
  }

  // ------------------------------------------------------ the plain parser

  predicate HasEscapedDot(s: string) {
    s != "" && (EscapedDot(s) || HasEscapedDot(s[1..]))
  }

  lemma {:induction false} FewerSegments(s: string)
    ensures |Segments(s)| <= |Cut(s)|
    ensures HasEscapedDot(s) ==> |Segments(s)| < |Cut(s)|
    ensures !HasEscapedDot(s) ==> Segments(s) == Cut(s)
  {
    if s == "" {
    } else if EscapedDot(s) {
      FewerSegments(s[2..]);
      assert s[1..][1..] == s[2..];
    } else {
      FewerSegments(s[1..]);
    }
  }

  /** The two parsers agree exactly on the paths without an escaped dot. */
  lemma ParsersAgree(s: string)
    ensures Parse(s) == Split(s) <==> !HasEscapedDot(s)
  {
    FewerSegments(s);
  }

  // -------------------------------------------------------- the plain parser

  /** Segments joined with dots. */
  function JoinDots(p: Path): string {
    if p == [] then "" else if |p| == 1 then p[0] else p[0] + "." + JoinDots(p[1..])
  }

  predicate DotFree(p: Path) {
    forall i :: 0 <= i < |p| ==> '.' !in p[i]
  }

  lemma JoinPrepend(c: char, p: Path)
    requires p != []
    ensures JoinDots(Prepend(c, p)) == [c] + JoinDots(p)
  {
    if |p| > 1 {
      assert Prepend(c, p)[1..] == p[1..];
      assert ([c] + p[0]) + "." + JoinDots(p[1..]) == [c] + (p[0] + "." + JoinDots(p[1..]));
    }
  }

  lemma JoinEmptyFirst(p: Path)
    requires p != []
    ensures JoinDots([""] + p) == "." + JoinDots(p)
  {
    assert ([""] + p)[1..] == p;
  }

  /** Cutting and joining undo each other, and cutting leaves no dot. */
  lemma {:induction false} CutJoins(s: string)
    ensures JoinDots(Cut(s)) == s && DotFree(Cut(s))
  {
    if s == "" {
    } else if s[0] == '.' {
      CutJoins(s[1..]);
      JoinEmptyFirst(Cut(s[1..]));
    } else {
      CutJoins(s[1..]);
      JoinPrepend(s[0], Cut(s[1..]));
    }
  }

  lemma {:induction false} JoinCuts(p: Path)
    requires p != [] && DotFree(p)
    ensures Cut(JoinDots(p)) == p
    decreases |p|, if p == [] then 0 else |p[0]|
  {
    if p[0] == "" {
      if |p| > 1 {
        JoinCuts(p[1..]);
        assert JoinDots(p) == "." + JoinDots(p[1..]);
      }
    } else {
      var shorter := [p[0][1..]] + p[1..];
      assert [p[0][0]] + p[0][1..] == p[0] && shorter[1..] == p[1..] && [p[0]] + p[1..] == p;
      assert Prepend(p[0][0], shorter) == p;
      assert DotFree(shorter);
      JoinCuts(shorter);
      JoinPrepend(p[0][0], shorter);
      assert p[0][0] in p[0];
    }
  }

  /** The plain parser's segments are the only ones without dots that make up the string. */
  lemma CutIsExact(s: string, p: Path)
    ensures Cut(s) == p <==> p != [] && JoinDots(p) == s && DotFree(p)
  {
    hide Cut, JoinDots, DotFree;
    CutJoins(s);
    if p != [] && JoinDots(p) == s && DotFree(p) {
      JoinCuts(p);
    }
  }
}
