/** What the router's patterns accept and match, spelled out in characters and texts. */
module SpelledOut {
  import opened StringUtils
  import opened Options
  import opened RoutePattern
  import opened RouteLog
  import opened RouteMatching
  import opened RouteOrder
  import opened Bindings

  lemma Digits(c: char)
    ensures '0' <= c <= '9' <==> c in "0123456789"
  {
    if '0' <= c <= '9' {
      assert c == "0123456789"[c as int - '0' as int];
    }
  }

  lemma Capitals(c: char)
    ensures 'A' <= c <= 'Z' <==> c in "ABCDEFGHIJKLMNOPQRSTUVWXYZ"
  {
    if 'A' <= c <= 'M' {
      assert c == "ABCDEFGHIJKLM"[c as int - 'A' as int];
    } else if 'N' <= c <= 'Z' {
      assert c == "NOPQRSTUVWXYZ"[c as int - 'N' as int];
    }
  }

  lemma Letters(c: char)
    ensures 'a' <= c <= 'z' <==> c in "abcdefghijklmnopqrstuvwxyz"
  {
    if 'a' <= c <= 'm' {
      assert c == "abcdefghijklm"[c as int - 'a' as int];
    } else if 'n' <= c <= 'z' {
      assert c == "nopqrstuvwxyz"[c as int - 'n' as int];
    }
  }

  lemma WordCharacters(c: char)
    ensures IsWordChar(c) <==> c in "abcdefghijklmnopqrstuvwxyzABCDEFGHIJKLMNOPQRSTUVWXYZ0123456789"
  {
    Digits(c);
    Capitals(c);
    Letters(c);
  }

  lemma PathCharacters(c: char)
    ensures c == '/' || IsSegmentChar(c) <==>
            c in "abcdefghijklmnopqrstuvwxyzABCDEFGHIJKLMNOPQRSTUVWXYZ0123456789-._~%!$&'()*+,;=:@{}/"
  {
    hide IsWordChar;
    WordCharacters(c);
  }

  lemma UnbracedCharacters(c: char)
    ensures IsSegmentChar(c) && !IsBrace(c) <==>
            c in "abcdefghijklmnopqrstuvwxyzABCDEFGHIJKLMNOPQRSTUVWXYZ0123456789-._~%!$&'()*+,;=:@"
  {
    WordCharacters(c);
  }

  /** The texts that a parameter takes. */
  lemma ParamTextExactly(s: string)
    ensures IsParamText(s) <==>
            && s != ""
            && forall c :: c in s ==> c in "abcdefghijklmnopqrstuvwxyzABCDEFGHIJKLMNOPQRSTUVWXYZ0123456789_-"
  {
    hide IsWordChar;
    forall c
      ensures IsWordChar(c) || c == '_' || c == '-' <==>
              c in "abcdefghijklmnopqrstuvwxyzABCDEFGHIJKLMNOPQRSTUVWXYZ0123456789_-"
    {
      WordCharacters(c);
    }
  }

  /** The texts with `{` and `}` between them, in turn. */
  function Woven(texts: seq<string>): string
    requires |texts| >= 1
  {
    var n := |texts| - 1;
    if n == 0 then texts[0]
    else Woven(texts[..n]) + [if n % 2 == 1 then '{' else '}'] + texts[n]
  }

  ghost predicate BraceFree(texts: seq<string>) {
    forall t :: t in texts ==> '{' !in t && '}' !in t
  }

  lemma BracesSnoc(s: string, c: char)
    ensures Braces(s + [c]) == Braces(s) + if IsBrace(c) then [c] else ""
  {
    assert (s + [c])[..|s|] == s;
  }

  lemma {:induction false} BracesAppend(s: string, t: string)
    requires '{' !in t && '}' !in t
    ensures Braces(s + t) == Braces(s)
  {
    if t == "" {
      assert s + t == s;
    } else {
      var u, c := t[..|t| - 1], t[|t| - 1];
      BracesAppend(s, u);
      assert s + t == s + u + [c];
      BracesSnoc(s + u, c);
    }
  }

  lemma {:induction false} WovenBraces(texts: seq<string>)
    requires |texts| >= 1 && BraceFree(texts)
    ensures |Braces(Woven(texts))| == |texts| - 1 && Alternating(Braces(Woven(texts)))
  {
    hide Braces;
    var n := |texts| - 1;
    if n == 0 {
      NoBraces(texts[0]);
    } else {
      var c := if n % 2 == 1 then '{' else '}';
      WovenBraces(texts[..n]);
      BracesSnoc(Woven(texts[..n]), c);
      BracesAppend(Woven(texts[..n]) + [c], texts[n]);
    }
  }

  lemma WovenLast(texts: seq<string>)
    requires |texts| >= 2
    ensures var n := |texts| - 1; Woven(texts) == Woven(texts[..n]) + [if n % 2 == 1 then '{' else '}'] + texts[n]
  {
  }

  lemma WovenSnoc(texts: seq<string>, t: string)
    requires |texts| >= 1
    ensures Woven(texts + [t]) == Woven(texts) + [if |texts| % 2 == 1 then '{' else '}'] + t
  {
    hide Woven;
    WovenLast(texts + [t]);
    assert (texts + [t])[..|texts|] == texts;
  }

  lemma WovenBrace(texts: seq<string>, c: char)
    requires |texts| >= 1 && BraceFree(texts) && c == if |texts| % 2 == 1 then '{' else '}'
    ensures BraceFree(texts + [""]) && Woven(texts + [""]) == Woven(texts) + [c]
  {
    hide Woven;
    WovenSnoc(texts, "");
  }

  lemma WovenLetter(texts: seq<string>, c: char) returns (more: seq<string>)
    requires |texts| >= 1 && BraceFree(texts) && !IsBrace(c)
    ensures |more| == |texts| && BraceFree(more) && Woven(more) == Woven(texts) + [c]
  {
    var n := |texts| - 1;
    more := texts[..n] + [texts[n] + [c]];
    assert more[..n] == texts[..n];
    assert texts[n] in texts;
  }

  lemma {:induction false} WovenOf(s: string) returns (texts: seq<string>)
    requires Alternating(Braces(s))
    ensures |texts| == |Braces(s)| + 1 && BraceFree(texts) && s == Woven(texts)
  {
    hide Braces;
    if s == "" {
      NoBraces(s);
      texts := [""];
    } else {
      var u, c := s[..|s| - 1], s[|s| - 1];
      assert s == u + [c];
      BracesSnoc(u, c);
      AlternatingPrefix(Braces(u), Braces(s));
      texts := WovenOf(u);
      if IsBrace(c) {
        assert Braces(s)[|Braces(u)|] == c;
        WovenBrace(texts, c);
        texts := texts + [""];
      } else {
        texts := WovenLetter(texts, c);
      }
    }
  }

  /** A text with any number of variables in braces, none inside another. */
  ghost predicate HasVariables(s: string) {
    exists texts :: |texts| % 2 == 1 && BraceFree(texts) && s == Woven(texts)
  }

  /** The scan for braces accepts exactly the texts with variables in them. */
  lemma BracesAreWoven(s: string)
    ensures Alternating(Braces(s)) && |Braces(s)| % 2 == 0 <==>
            HasVariables(s)
  {
    hide Braces, Alternating, Woven, BraceFree;
    if Alternating(Braces(s)) && |Braces(s)| % 2 == 0 {
      var texts := WovenOf(s);
      assert |texts| % 2 == 1 && BraceFree(texts) && s == Woven(texts);
    }
    forall texts | |texts| % 2 == 1 && BraceFree(texts) && s == Woven(texts)
      ensures Alternating(Braces(s)) && |Braces(s)| % 2 == 0
    {
      WovenBraces(texts);
    }
  }

  /** No `c` stands next to a `d`. */
  lemma NeighboursExactly(s: string, c: char, d: char)
    ensures (forall i :: 0 <= i < |s| - 1 && s[i] == c ==> s[i + 1] != d) <==> forall a, b :: s != a + [c, d] + b
  {
    if i :| 0 <= i < |s| - 1 && s[i] == c && s[i + 1] == d {
      assert s == s[..i] + [c, d] + s[i + 2..];
    }
    if exists a, b :: s == a + [c, d] + b {
      var a, b :| s == a + [c, d] + b;
      assert s[|a|] == c && s[|a| + 1] == d;
    }
  }

  lemma AllPathCharacters(path: string)
    ensures (forall c :: c in path ==> c == '/' || IsSegmentChar(c)) <==>
            forall c :: c in path ==>
              c in "abcdefghijklmnopqrstuvwxyzABCDEFGHIJKLMNOPQRSTUVWXYZ0123456789-._~%!$&'()*+,;=:@{}/"
  {
    hide IsSegmentChar;
    forall c | c in path
      ensures c == '/' || IsSegmentChar(c) <==>
              c in "abcdefghijklmnopqrstuvwxyzABCDEFGHIJKLMNOPQRSTUVWXYZ0123456789-._~%!$&'()*+,;=:@{}/"
    {
      PathCharacters(c);
    }
  }

  lemma RegexExactly(path: string)
    ensures MatchesRouteRegex(path) <==>
            && (forall c :: c in path ==> c == '/' || IsSegmentChar(c))
            && (path != "" ==> path[0] == '/' && path[|path| - 1] != '/')
            && (forall a, b :: path != a + "//" + b)
  {
    hide IsSegmentChar;
    NeighboursExactly(path, '/', '/');
    assert ['/', '/'] == "//";
  }

  lemma TouchExactly(path: string)
    ensures NoTouchingBraces(path) <==> forall a, b :: path != a + "}{" + b
  {
    NeighboursExactly(path, '}', '{');
    assert ['}', '{'] == "}{";
  }

  /**
   * The accepted templates: absolute paths of the listed characters without empty segments, which
   * are texts with variables in braces between them, no two variables touching.
   */
  lemma ValidRouteExactly(path: string)
    ensures ValidRoute(path) <==>
            && (forall c :: c in path ==>
                  c in "abcdefghijklmnopqrstuvwxyzABCDEFGHIJKLMNOPQRSTUVWXYZ0123456789-._~%!$&'()*+,;=:@{}/")
            && (path != "" ==> path[0] == '/' && path[|path| - 1] != '/')
            && (forall a, b :: path != a + "//" + b)
            && (forall a, b :: path != a + "}{" + b)
            && HasVariables(path)
  {
    hide *;
    ValidRouteByRegex(path);
    RegexExactly(path);
    AllPathCharacters(path);
    TouchExactly(path);
    BracesAreWoven(path);
  }

  lemma OneCharacterRegex(c: char)
    ensures MatchesRouteRegex("/" + [c]) <==> IsSegmentChar(c)
  {
    var path := "/" + [c];
    assert path[0] == '/' && path[1] == c && c in path;
  }

  lemma OneCharacterBraces(c: char)
    ensures Alternating(Braces("/" + [c])) && |Braces("/" + [c])| % 2 == 0 <==> !IsBrace(c)
    ensures NoTouchingBraces("/" + [c])
  {
    NoBraces("/");
    BracesSnoc("/", c);
  }

  /** Of the paths of one character, those with a listed one are accepted. */
  lemma OneCharacterRoute(c: char)
    ensures ValidRoute("/" + [c]) <==>
            c in "abcdefghijklmnopqrstuvwxyzABCDEFGHIJKLMNOPQRSTUVWXYZ0123456789-._~%!$&'()*+,;=:@"
  {
    hide *;
    ValidRouteByRegex("/" + [c]);
    OneCharacterRegex(c);
    OneCharacterBraces(c);
    UnbracedCharacters(c);
  }

  /** Two variables that touch are refused, whatever surrounds them. */
  lemma TouchingIsRefused(a: string, b: string)
    ensures !ValidRoute(a + "}{" + b)
  {
    hide *;
    ValidRouteByRegex(a + "}{" + b);
    TouchExactly(a + "}{" + b);
  }

  /** A part is a parameter exactly when it is a name in braces. */
  lemma ParamPartExactly(part: string)
    ensures IsParamPart(part) <==> exists n :: part == "{" + n + "}"
    ensures forall n :: part == "{" + n + "}" ==> Normalized(part) == "{}" && ParamName(part) == n
    ensures (forall n :: part != "{" + n + "}") ==> Normalized(part) == part
  {
    if IsParamPart(part) {
      assert part == "{" + part[1..|part| - 1] + "}";
    }
    forall n | part == "{" + n + "}" ensures IsParamPart(part) && ParamName(part) == n {
      assert part[1..|part| - 1] == n;
    }
  }

  /** A part of a request fits a part of a template: any word for a parameter, else the same text. */
  ghost predicate Fits(segment: string, part: string) {
    if exists n :: segment == "{" + n + "}" then
      && part != ""
      && forall c :: c in part ==> c in "abcdefghijklmnopqrstuvwxyzABCDEFGHIJKLMNOPQRSTUVWXYZ0123456789_-"
    else part == segment
  }

  ghost predicate FitsAll(template: seq<string>, parts: seq<string>) {
    |template| == |parts| && forall i :: 0 <= i < |template| ==> Fits(template[i], parts[i])
  }

  lemma FitsExactly(segment: string, part: string)
    ensures SegmentMatches(Normalized(segment), part) <==> Fits(segment, part)
  {
    hide IsParamText, Normalized, IsParamPart;
    ParamPartExactly(segment);
    ParamTextExactly(part);
    if segment == PARAM {
      assert segment == "{" + "" + "}";
    }
  }

  lemma MatchesExactly(template: seq<string>, parts: seq<string>)
    ensures Matches(ShapeOf(template), parts) <==> FitsAll(template, parts)
  {
    hide SegmentMatches, Fits, Normalized;
    forall i | 0 <= i < |template| && |template| == |parts|
      ensures SegmentMatches(ShapeOf(template)[i], parts[i]) <==> Fits(template[i], parts[i])
    {
      FitsExactly(template[i], parts[i]);
    }
  }

  lemma OneNode(e: Entry, p: seq<string>)
    ensures HasNode([e], p) <==> p <= ShapeOf(e.parts)
    ensures Registered([e], p) <==> p == ShapeOf(e.parts)
  {
    assert e in [e];
  }

  lemma OneUnhidden(e: Entry, parts: seq<string>)
    requires |parts| <= |e.parts| && Matches(ShapeOf(e.parts)[..|parts|], parts)
    ensures Unhidden([e], [], ShapeOf(e.parts)[..|parts|], parts)
  {
    hide HasNode, IsParamText, ShapeOf;
    var t := ShapeOf(e.parts)[..|parts|];
    forall i | 0 <= i < |t| && t[i] == PARAM ensures !HasNode([e], [] + t[..i] + [parts[i]]) {
      var q := [] + t[..i] + [parts[i]];
      assert SegmentMatches(t[i], parts[i]);
      ParamTextIsNotParam(parts[i]);
      OneNode(e, q);
      assert q[i] == parts[i] && t[i] == ShapeOf(e.parts)[i];
    }
  }

  lemma OneSpelled(e: Entry, n: nat)
    requires n <= |e.parts|
    ensures Spelled([e], [], ShapeOf(e.parts)[..n]) == e.parts[..n]
  {
    hide SpelledPart, ShapeOf;
    var shape := ShapeOf(e.parts);
    OneAgrees(e);
    forall i | 0 <= i < n ensures Spelled([e], [], shape[..n])[i] == e.parts[i] {
      SpelledAt([e], [], shape[..n], i);
      AgreementGivesPart([e], e, i);
      assert [] + shape[..n][..i + 1] == shape[..i + 1];
    }
  }

  lemma OneAgrees(e: Entry)
    ensures Agreeing([e])
  {
    hide ShapeOf, IsParamPart;
    assert forall f :: f in [e] ==> f == e;
  }

  lemma ShapeOfFirst(parts: seq<string>, n: nat)
    requires n <= |parts|
    ensures ShapeOf(parts[..n]) == ShapeOf(parts)[..n]
  {
  }

  /**
   * With one route alone, a request ends at a node exactly when it fits as many parts of the
   * template as it has, and it binds their names; the route answers exactly when that is all of them.
   */
  lemma OneRoute(e: Entry, path: string)
    ensures var parts, n, w := Split(path, '/'), |Split(path, '/')|, WalkPath([e], path);
            && (w.Hit? <==> n <= |e.parts| && FitsAll(e.parts[..n], parts))
            && (w.Hit? ==> w == Hit(ShapeOf(e.parts[..n]), Bind(e.parts[..n], parts, map[])))
            && (Served([e], path) <==> w.Hit? && n == |e.parts|)
  {
    hide Split, Matches, FitsAll, HasNode, ShapeOf, Unhidden, Greedy, Registered, Bind, Spelled;
    var parts, n, w := Split(path, '/'), |Split(path, '/')|, WalkPath([e], path);
    if w.Hit? {
      HitBinds([e], parts);
      OneNode(e, []);
      GreedyFits([e], [], parts, map[]);
      OneNode(e, w.shape);
      assert w.shape[0..] == w.shape == ShapeOf(e.parts)[..n];
      OneSpelled(e, n);
    }
    if n <= |e.parts| {
      ShapeOfFirst(e.parts, n);
      MatchesExactly(e.parts[..n], parts);
      if Matches(ShapeOf(e.parts)[..n], parts) {
        var t := ShapeOf(e.parts)[..n];
        assert [] + t == t;
        OneNode(e, t);
        OneUnhidden(e, parts);
        GreedyReaches([e], [], t, parts, map[]);
      }
    }
  }

  lemma UsersTemplate(path: string)
    requires path == "/users/{id}"
    ensures ValidRoute(path) && Split(path, '/') == ["", "users", "{id}"]
  {
    hide Split, Braces, MatchesRouteRegex;
    TwoSegments("users", "{id}", path);
    UsersBraces(path);
  }

  lemma UsersBraces(path: string)
    requires path == "/users/{id}"
    ensures Braces(path) == PARAM
  {
    NoBraces(path[..7]);
    BracesStep(path, 7);
    BracesStep(path, 8);
    BracesStep(path, 9);
    BracesStep(path, 10);
    assert path[..11] == path;
  }

  lemma UsersRequest(t: string)
    requires '/' !in t
    ensures Split("/users/" + t, '/') == ["", "users", t]
  {
    hide Split;
    var rest := "users/" + t;
    assert "/users/" + t == "/" + rest && rest == "users" + ['/'] + t;
    SplitSlash(rest);
    SplitCut("users", t, '/');
    SplitWhole(t, '/');
    assert [""] + (["users"] + [t]) == ["", "users", t];
  }

  lemma UsersFit(t: string)
    ensures FitsAll(["", "users", "{id}"], ["", "users", t]) <==> Fits("{id}", t)
  {
    hide Fits;
    FitsItself("");
    FitsItself("users");
    var template, parts := ["", "users", "{id}"], ["", "users", t];
    assert template[0] == "" == parts[0] && template[1] == "users" == parts[1];
    assert template[2] == "{id}" && parts[2] == t;
  }

  lemma FitsItself(s: string)
    requires '{' !in s
    ensures Fits(s, s)
  {
    assert forall n :: s == "{" + n + "}" ==> s[0] in s;
  }

  lemma UsersShape()
    ensures ShapeOf(["", "users", "{id}"]) == ["", "users", "{}"]
  {
  }

  lemma BindStatic(s: string, template: seq<string>, parts: seq<string>, params: Params)
    requires |template| == |parts| && '{' !in s
    ensures Bind([s] + template, [s] + parts, params) == Bind(template, parts, params)
  {
    assert ([s] + template)[1..] == template && ([s] + parts)[1..] == parts;
    assert s != "" ==> s[0] in s;
  }

  lemma UsersBinding(t: string)
    ensures Bind(["", "users", "{id}"], ["", "users", t], map[]) == map["id" := t]
  {
    hide Bind;
    BindStatic("", ["users"] + ["{id}"], ["users"] + [t], map[]);
    BindStatic("users", ["{id}"], [t], map[]);
    BindId(t);
    assert [""] + (["users"] + ["{id}"]) == ["", "users", "{id}"];
    assert [""] + (["users"] + [t]) == ["", "users", t];
  }

  lemma BindId(t: string)
    ensures Bind(["{id}"], [t], map[]) == map["id" := t]
  {
    assert "{id}"[1..3] == "id";
    assert Bind(["{id}"][1..], [t][1..], map["id" := t]) == map["id" := t];
  }

  /** With the route `/users/{id}` alone, a request for one user binds any nonempty word, and nothing else. */
  lemma UsersRoute(key: nat, handler: HandlerFn, t: string)
    requires '/' !in t
    ensures ValidRoute("/users/{id}")
    ensures var w := WalkPath([Entry(key, Split("/users/{id}", '/'), handler)], "/users/" + t);
            if t != "" && forall c :: c in t ==>
                 c in "abcdefghijklmnopqrstuvwxyzABCDEFGHIJKLMNOPQRSTUVWXYZ0123456789_-"
            then w == Hit(["", "users", "{}"], map["id" := t])
            else w.Miss?
  {
    hide ValidRoute, Split, FitsAll, Bind, ShapeOf, WalkPath;
    UsersTemplate("/users/{id}");
    UsersRequest(t);
    var e := Entry(key, Split("/users/{id}", '/'), handler);
    OneRoute(e, "/users/" + t);
    assert e.parts[..3] == e.parts;
    UsersFit(t);
    UsersShape();
    UsersBinding(t);
    assert "{id}" == "{" + "id" + "}";
  }
}
