/** Which route templates `Router::IsValidRoute` accepts (`routers/router.cc`). */
module RoutePattern {
  import opened StringUtils

  predicate IsWordChar(c: char) {
    'a' <= c <= 'z' || 'A' <= c <= 'Z' || '0' <= c <= '9'
  }

  /** The characters a template segment may hold. */
  predicate IsSegmentChar(c: char) {
    || IsWordChar(c)
    || c == '-' || c == '.' || c == '_' || c == '~' || c == '%' || c == '!' || c == '$' || c == '&' || c == '\''
    || c == '(' || c == ')' || c == '*' || c == '+' || c == ',' || c == ';' || c == '=' || c == ':' || c == '@'
    || c == '{' || c == '}'
  }

  /** The regular expression `^[a-zA-Z0-9_-]+$` of a parameter node. */
  predicate IsParamText(s: string) {
    s != "" && forall c :: c in s ==> IsWordChar(c) || c == '_' || c == '-'
  }

  /** The regular expression `^(/[...]+)*$`, as a scan over neighbouring characters. */
  predicate MatchesRouteRegex(path: string) {
    && (forall c :: c in path ==> c == '/' || IsSegmentChar(c))
    && (path != "" ==> path[0] == '/' && path[|path| - 1] != '/')
    && (forall i :: 0 <= i < |path| - 1 && path[i] == '/' ==> path[i + 1] != '/')
  }

  /** Zero or more groups `/segment`, written out. */
  function Slashed(segments: seq<string>): string {
    if segments == [] then "" else "/" + segments[0] + Slashed(segments[1..])
  }

  ghost predicate GoodSegment(s: string) {
    s != "" && forall c :: c in s ==> IsSegmentChar(c)
  }

  ghost predicate GoodSegments(segments: seq<string>) {
    forall s :: s in segments ==> GoodSegment(s)
  }

  predicate IsBrace(c: char) {
    c == '{' || c == '}'
  }

  /** The braces of `s`, in order. */
  function Braces(s: string): string {
    if s == "" then ""
    else Braces(s[..|s| - 1]) + if IsBrace(s[|s| - 1]) then [s[|s| - 1]] else ""
  }

  /** `{` and `}` take turns, starting with `{`. */
  predicate Alternating(b: string) {
    forall i :: 0 <= i < |b| ==> b[i] == if i % 2 == 0 then '{' else '}'
  }

  predicate NoTouchingBraces(s: string) {
    forall i :: 0 <= i < |s| - 1 && s[i] == '}' ==> s[i + 1] != '{'
  }

  /** What it is to be an accepted template, without reference to the scan. */
  ghost predicate ValidRoute(path: string) {
    && (exists segments :: GoodSegments(segments) && path == Slashed(segments))
    && Alternating(Braces(path)) && |Braces(path)| % 2 == 0
    && NoTouchingBraces(path)
  }

  lemma {:induction false} BracesPrefix(s: string, n: nat)
    requires n <= |s|
    ensures Braces(s[..n]) <= Braces(s)
  {
    if n < |s| {
      BracesPrefix(s[..|s| - 1], n);
      assert s[..|s| - 1][..n] == s[..n];
    } else {
      assert s[..n] == s;
    }
  }

  lemma BracesStep(s: string, n: nat)
    requires n < |s|
    ensures Braces(s[..n + 1]) == Braces(s[..n]) + if IsBrace(s[n]) then [s[n]] else ""
  {
    assert s[..n + 1][..n] == s[..n];
  }

  lemma {:induction false} NoBraces(s: string)
    requires forall c :: c in s ==> !IsBrace(c)
    ensures Braces(s) == "" && NoTouchingBraces(s)
  {
    if s != "" {
      assert forall i :: 0 <= i < |s| ==> s[i] in s;
      NoBraces(s[..|s| - 1]);
    }
  }

  lemma RegexPrepend(s: string, tail: string)
    requires GoodSegment(s) && MatchesRouteRegex(tail)
    ensures MatchesRouteRegex("/" + s + tail)
  {
    var path := "/" + s + tail;
    forall i | 0 <= i < |s| ensures s[i] != '/' {
      assert s[i] in s;
    }
    assert forall i :: 0 < i <= |s| ==> path[i] == s[i - 1];
    assert forall i :: |s| < i < |path| ==> path[i] == tail[i - 1 - |s|];
  }

  lemma SplitSlash(rest: string)
    ensures Split("/" + rest, '/') == [""] + Split(rest, '/')
  {
    assert ("/" + rest)[1..] == rest;
  }

  lemma SplitPrepend(s: string, tail: string)
    requires '/' !in s && (tail != "" ==> tail[0] == '/')
    ensures Split("/" + s + tail, '/') == ["", s] + Split(tail, '/')[1..]
  {
    hide Split;
    SplitSlash(s + tail);
    assert "/" + s + tail == "/" + (s + tail);
    if tail == "" {
      SplitWhole(s, '/');
      SplitWhole(tail, '/');
      assert s + tail == s;
    } else {
      SplitSlash(tail[1..]);
      SplitCut(s, tail[1..], '/');
      assert tail == "/" + tail[1..];
      assert s + tail == s + ['/'] + tail[1..];
    }
  }

  lemma {:induction false} SlashedMatches(segments: seq<string>)
    requires GoodSegments(segments)
    ensures MatchesRouteRegex(Slashed(segments))
    ensures Split(Slashed(segments), '/') == [""] + segments
  {
    if segments != [] {
      assert GoodSegment(segments[0]);
      SlashedMatches(segments[1..]);
      RegexPrepend(segments[0], Slashed(segments[1..]));
      SplitPrepend(segments[0], Slashed(segments[1..]));
    }
  }

  lemma {:induction false} MatchesIsSlashed(path: string)
    requires MatchesRouteRegex(path)
    ensures exists segments :: GoodSegments(segments) && path == Slashed(segments)
  {
    if path == "" {
      assert GoodSegments([]) && path == Slashed([]);
    } else {
      var end := Find(path, '/', 1);
      var n := if end == -1 then |path| else end;
      var s, rest := path[1..n], path[n..];
      assert GoodSegment(s) by {
        assert path[1] != '/' && s[0] == path[1];
      }
      forall c | c in rest ensures c == '/' || IsSegmentChar(c) {
        assert c in path;
      }
      MatchesIsSlashed(rest);
      var segments :| GoodSegments(segments) && rest == Slashed(segments);
      var all := [s] + segments;
      assert all[1..] == segments;
      assert path == "/" + s + rest;
      assert GoodSegments(all) && path == Slashed(all);
    }
  }

  lemma RegexIsGrammar(path: string)
    ensures MatchesRouteRegex(path) <==>
            exists segments :: GoodSegments(segments) && path == Slashed(segments)
  {
    if MatchesRouteRegex(path) {
      MatchesIsSlashed(path);
    } else {
      forall segments | GoodSegments(segments) ensures path != Slashed(segments) {
        SlashedMatches(segments);
      }
    }
  }

  lemma GoodSegmentsAreClean(segments: seq<string>)
    requires GoodSegments(segments)
    ensures RemoveSpacesAll([""] + segments) == [""] + segments
  {
    forall s | s in segments ensures RemoveSpaces(s) == s {
      assert GoodSegment(s);
      RemoveSpacesUnchanged(s);
    }
  }

  /** An accepted template splits into the empty part and then good parts, none of which holds a space. */
  lemma ValidRouteParts(path: string) returns (segments: seq<string>)
    requires ValidRoute(path)
    ensures GoodSegments(segments) && path == Slashed(segments)
    ensures Split(path, '/') == [""] + segments
    ensures RemoveSpacesAll(Split(path, '/')) == Split(path, '/')
  {
    segments :| GoodSegments(segments) && path == Slashed(segments);
    SlashedMatches(segments);
    GoodSegmentsAreClean(segments);
  }

  /** A path of two good segments. */
  lemma TwoSegments(a: string, b: string, path: string)
    requires GoodSegment(a) && GoodSegment(b) && path == "/" + a + "/" + b
    ensures GoodSegments([a, b]) && path == Slashed([a, b])
    ensures Split(path, '/') == ["", a, b]
  {
    assert [a, b][1..] == [b] && [b][1..] == [];
    assert Slashed([]) == "" && Slashed([b]) == "/" + b;
    SlashedMatches([a, b]);
    assert [""] + [a, b] == ["", a, b];
  }

  lemma ValidRouteByRegex(path: string)
    ensures ValidRoute(path) <==>
            && MatchesRouteRegex(path)
            && Alternating(Braces(path)) && |Braces(path)| % 2 == 0
            && NoTouchingBraces(path)
  {
    hide MatchesRouteRegex, GoodSegments, Slashed, Alternating, NoTouchingBraces;
    RegexIsGrammar(path);
  }

  predicate IsInside(braces: string) {
    |braces| % 2 == 1
  }

  /** A brace is out of turn when it is the one that came last. */
  predicate OutOfTurn(c: char, inside: bool) {
    if inside then c == '{' else c == '}'
  }

  lemma TurnTaken(here: string, c: char)
    requires Alternating(here) && IsBrace(c)
    ensures Alternating(here + [c]) <==> !OutOfTurn(c, IsInside(here))
    ensures IsInside(here + [c]) <==> !IsInside(here)
  {
    assert (here + [c])[|here|] == c;
  }

  lemma AlternatingPrefix(b: string, all: string)
    requires b <= all && Alternating(all)
    ensures Alternating(b)
  {
  }

  lemma BraceTurn(path: string, pos: nat)
    requires pos < |path| && Alternating(Braces(path[..pos]))
    ensures var here, next := Braces(path[..pos]), Braces(path[..pos + 1]);
            if OutOfTurn(path[pos], IsInside(here)) then !Alternating(Braces(path))
            else Alternating(next) && (IsInside(next) <==> IsInside(here) != IsBrace(path[pos]))
  {
    hide Braces, Alternating, IsInside;
    BracesPrefix(path, pos + 1);
    BracesStep(path, pos);
    var here, next := Braces(path[..pos]), Braces(path[..pos + 1]);
    if IsBrace(path[pos]) {
      TurnTaken(here, path[pos]);
      if Alternating(Braces(path)) {
        AlternatingPrefix(next, Braces(path));
      }
    } else {
      assert next == here;
    }
  }

  lemma NoBracesYet(path: string)
    ensures Alternating(Braces(path[..0])) && !IsInside(Braces(path[..0]))
  {
  }

  method IsValidRoute(path: string) returns (valid: bool)
    ensures valid <==> ValidRoute(path)
  {
    hide MatchesRouteRegex, ValidRoute, Alternating, Braces;
    ValidRouteByRegex(path);
    if !MatchesRouteRegex(path) {
      return false;
    }
    var pos := 0;
    var insideParam := false;
    NoBracesYet(path);
    while pos < |path|
      invariant 0 <= pos <= |path|
      invariant Alternating(Braces(path[..pos]))
      invariant insideParam <==> IsInside(Braces(path[..pos]))
      invariant forall i :: 0 <= i < pos && i < |path| - 1 && path[i] == '}' ==> path[i + 1] != '{'
    {
      BraceTurn(path, pos);
      if path[pos] == '{' {
        if insideParam {
          return false;
        }
        insideParam := true;
      } else if path[pos] == '}' {
        if !insideParam {
          return false;
        }
        insideParam := false;
        if pos + 1 < |path| && path[pos + 1] == '{' {
          return false;
        }
      }
      pos := pos + 1;
    }
    assert path[..pos] == path;
    return !insideParam;
  }
}
