/** When matching undoes simple string expansion (RFC 6570, section 3.2.2). */
module Templates {
  import opened StringUtils
  import opened Options
  import opened RoutePattern
  import opened RouteLog
  import opened RouteMatching
  import opened Bindings

  function ValueOf(values: Params, name: string): string {
    if name in values then values[name] else ""
  }

  /**
   * Simple string expansion of a template: literals are copied, `{name}` gives the value of
   * `name`, and an undefined variable gives nothing. Values stand as they are after encoding.
   */
  function Expand(template: string, values: Params): string {
    if template == "" then ""
    else if template[0] == '{' then
      var end := Find(template, '}', 1);
      if end == -1 then template
      else ValueOf(values, template[1..end]) + Expand(template[end + 1..], values)
    else [template[0]] + Expand(template[1..], values)
  }

  /** The variables of a template. */
  function VariablesOf(template: string): set<string> {
    if template == "" then {}
    else if template[0] == '{' then
      var end := Find(template, '}', 1);
      if end == -1 then {} else {template[1..end]} + VariablesOf(template[end + 1..])
    else VariablesOf(template[1..])
  }

  function Variables(parts: seq<string>): set<string> {
    if parts == [] then {} else VariablesOf(parts[0]) + Variables(parts[1..])
  }

  /** Each variable that begins in the text ends there. */
  predicate Closed(part: string) {
    if part == "" then true
    else if part[0] == '{' then
      var end := Find(part, '}', 1);
      end != -1 && Closed(part[end + 1..])
    else Closed(part[1..])
  }

  /** No variable spans a slash, as the grammar of variable names has it. */
  ghost predicate ClosedTemplate(parts: seq<string>) {
    forall t :: t in parts ==> Closed(t)
  }

  predicate EncodedText(s: string) {
    '/' !in s && '{' !in s
  }

  /** Encoded values hold neither slashes nor opening braces. */
  ghost predicate Encoded(values: Params) {
    forall n :: n in values ==> EncodedText(values[n])
  }

  function Filled(parts: seq<string>, values: Params): (filled: seq<string>)
    ensures |filled| == |parts|
  {
    seq(|parts|, i requires 0 <= i < |parts| => Expand(parts[i], values))
  }

  /** A literal without variables, or one whole variable. */
  predicate PlainPart(part: string) {
    if IsParamPart(part) then '}' !in ParamName(part) else '{' !in part
  }

  ghost predicate PlainTemplate(parts: seq<string>) {
    forall t :: t in parts ==> PlainPart(t)
  }

  /** Appending a text does not move the end of a variable. */
  lemma SameEnd(a: string, b: string)
    requires a != "" && Find(a, '}', 1) != -1
    ensures Find(a + b, '}', 1) == Find(a, '}', 1)
  {
    var end := Find(a, '}', 1);
    assert (a + b)[1..end] == a[1..end];
    FindFirst(a + b, '}', 1, end);
  }

  lemma ClosedStep(a: string)
    requires a != "" && Closed(a)
    ensures if a[0] == '{' then Find(a, '}', 1) != -1 && Closed(a[Find(a, '}', 1) + 1..]) else Closed(a[1..])
  {
  }

  lemma ExpandVariableFirst(s: string, values: Params)
    requires s != "" && s[0] == '{' && Find(s, '}', 1) != -1
    ensures var end := Find(s, '}', 1);
            Expand(s, values) == ValueOf(values, s[1..end]) + Expand(s[end + 1..], values)
  {
    hide Find, ValueOf;
  }

  lemma ExpandOpen(a: string, b: string, values: Params)
    requires a != "" && a[0] == '{' && Find(a, '}', 1) != -1
    ensures var end := Find(a, '}', 1);
            && Expand(a, values) == ValueOf(values, a[1..end]) + Expand(a[end + 1..], values)
            && Expand(a + b, values) == ValueOf(values, a[1..end]) + Expand(a[end + 1..] + b, values)
  {
    hide Find, ValueOf, Expand;
    var end := Find(a, '}', 1);
    SameEnd(a, b);
    ExpandVariableFirst(a, values);
    ExpandVariableFirst(a + b, values);
    assert (a + b)[1..end] == a[1..end] && (a + b)[end + 1..] == a[end + 1..] + b;
  }

  lemma ExpandChar(a: string, b: string, values: Params)
    requires a != "" && a[0] != '{'
    ensures Expand(a, values) == [a[0]] + Expand(a[1..], values)
    ensures Expand(a + b, values) == [a[0]] + Expand(a[1..] + b, values)
  {
    assert (a + b)[1..] == a[1..] + b;
  }

  lemma ExpandNothing(b: string, values: Params)
    ensures Expand("" + b, values) == Expand("", values) + Expand(b, values)
  {
    assert "" + b == b;
  }

  lemma {:induction false} ExpandAppend(a: string, b: string, values: Params)
    requires Closed(a)
    ensures Expand(a + b, values) == Expand(a, values) + Expand(b, values)
  {
    hide Find, ValueOf, Expand, Closed;
    if a == "" {
      ExpandNothing(b, values);
    } else {
      ClosedStep(a);
      if a[0] == '{' {
        ExpandOpen(a, b, values);
        ExpandAppend(a[Find(a, '}', 1) + 1..], b, values);
      } else {
        ExpandChar(a, b, values);
        ExpandAppend(a[1..], b, values);
      }
    }
  }

  /** One part, a slash, and the rest expand one after the other. */
  lemma ExpandCons(part: string, rest: string, values: Params)
    requires Closed(part)
    ensures Expand(part + ['/'] + rest, values) == Expand(part, values) + ['/'] + Expand(rest, values)
  {
    assert part + ['/'] + rest == part + (['/'] + rest);
    assert (['/'] + rest)[1..] == rest;
    ExpandAppend(part, ['/'] + rest, values);
  }

  lemma {:induction false} ExpandJoin(parts: seq<string>, values: Params)
    requires |parts| >= 1 && ClosedTemplate(parts)
    ensures Expand(Join(parts, '/'), values) == Join(Filled(parts, values), '/')
  {
    hide Expand, Closed;
    assert parts[0] in parts;
    if |parts| > 1 {
      ExpandCons(parts[0], Join(parts[1..], '/'), values);
      assert forall t :: t in parts[1..] ==> t in parts;
      ExpandJoin(parts[1..], values);
      assert Filled(parts, values)[1..] == Filled(parts[1..], values);
    }
  }

  /** An expansion has the characters of its literals and values, and no brace of a closed variable. */
  lemma {:induction false} ExpansionIsEncoded(part: string, values: Params)
    requires Closed(part) && Encoded(values)
    ensures '{' !in Expand(part, values)
    ensures '/' !in part ==> '/' !in Expand(part, values)
  {
    hide Find;
    if part != "" {
      if part[0] == '{' {
        var end := Find(part, '}', 1);
        ExpansionIsEncoded(part[end + 1..], values);
      } else {
        assert part[0] in part;
        ExpansionIsEncoded(part[1..], values);
      }
    }
  }

  /** An expansion splits into the expansions of the parts. */
  lemma SplitExpansion(template: string, values: Params)
    requires ClosedTemplate(Split(template, '/')) && Encoded(values)
    ensures Split(Expand(template, values), '/') == Filled(Split(template, '/'), values)
  {
    hide Expand, Closed, Split;
    var parts := Split(template, '/');
    JoinSplit(template, '/');
    ExpandJoin(parts, values);
    SplitIsDelimiterFree(template, '/');
    forall t | t in Filled(parts, values) ensures '/' !in t {
      var i :| 0 <= i < |parts| && t == Expand(parts[i], values);
      assert parts[i] in parts;
      ExpansionIsEncoded(parts[i], values);
    }
    SplitJoin(Filled(parts, values), '/');
  }

  lemma {:induction false} ExpandLiteral(part: string, values: Params)
    requires '{' !in part
    ensures Closed(part) && Expand(part, values) == part && VariablesOf(part) == {}
  {
    if part != "" {
      assert part[0] in part;
      ExpandLiteral(part[1..], values);
      assert part == [part[0]] + part[1..];
    }
  }

  lemma ExpandVariable(part: string, values: Params)
    requires IsParamPart(part) && '}' !in ParamName(part)
    ensures Closed(part) && Expand(part, values) == ValueOf(values, ParamName(part))
    ensures VariablesOf(part) == {ParamName(part)}
  {
    FindFirst(part, '}', 1, |part| - 1);
    assert part[|part|..] == "";
    assert Expand(part, values) == ValueOf(values, ParamName(part)) + Expand("", values);
  }

  lemma {:induction false} VariableIsName(part: string, n: string)
    requires n in VariablesOf(part)
    ensures '}' !in n
    decreases |part|
  {
    if part[0] == '{' {
      var end := Find(part, '}', 1);
      if n != part[1..end] {
        VariableIsName(part[end + 1..], n);
      }
    } else {
      VariableIsName(part[1..], n);
    }
  }

  /** No variable has a closing brace in its name. */
  lemma {:induction false} VariablesAreNames(parts: seq<string>, n: string)
    requires n in Variables(parts)
    ensures '}' !in n
  {
    if n in VariablesOf(parts[0]) {
      VariableIsName(parts[0], n);
    } else {
      VariablesAreNames(parts[1..], n);
    }
  }

  /** A part of the request fits the part of the template that it fills. */
  predicate PartReaches(part: string, values: Params) {
    '{' in part ==> IsParamPart(part) && IsParamText(Expand(part, values))
  }

  /** The part of a closed template fits its own key exactly when its variables are read as one parameter. */
  lemma PartFits(part: string, values: Params)
    requires Closed(part) && Encoded(values)
    ensures SegmentMatches(Normalized(part), Expand(part, values)) <==> PartReaches(part, values)
  {
    if '{' !in part {
      ExpandLiteral(part, values);
      assert '{' in PARAM;
    } else {
      ExpansionIsEncoded(part, values);
      assert part == PARAM ==> IsParamPart(part);
    }
  }

  /** The expansion of the template reaches the template's node. */
  ghost predicate Reaches(log: seq<Entry>, template: string, values: Params) {
    var w := WalkPath(log, Expand(template, values));
    w.Hit? && w.shape == ShapeOf(Split(template, '/'))
  }

  /**
   * For a registered template without variables that span a slash, the expansion reaches the
   * template's node exactly when each part with variables is read as one parameter and expands to
   * a text that the parameter pattern accepts, and no such text names a static sibling.
   */
  lemma ExpansionReaches(log: seq<Entry>, template: string, values: Params)
    requires var parts := Split(template, '/');
             Registered(log, ShapeOf(parts)) && ClosedTemplate(parts) && Encoded(values)
    ensures var parts := Split(template, '/');
            Reaches(log, template, values) <==>
            && (forall t :: t in parts ==> PartReaches(t, values))
            && Unhidden(log, [], ShapeOf(parts), Filled(parts, values))
  {
    hide Expand, Closed, PartReaches, Unhidden, SegmentMatches, Split;
    var parts := Split(template, '/');
    var shape, filled := ShapeOf(parts), Filled(parts, values);
    SplitExpansion(template, values);
    forall i | 0 <= i < |parts| ensures SegmentMatches(shape[i], filled[i]) <==> PartReaches(parts[i], values) {
      assert parts[i] in parts;
      PartFits(parts[i], values);
    }
    NodeOfRegistered(log, shape, shape);
    assert [] + shape == shape && shape[0..] == shape;
    GreedyFits(log, [], filled, map[]);
    if Matches(shape, filled) {
      GreedyReaches(log, [], shape, filled, map[]);
    }
  }

  lemma PartialIsValid(path: string)
    requires path == "/x{a}"
    ensures ValidRoute(path)
  {
    hide Split;
    assert GoodSegment("x{a}") && Slashed([]) == "";
    assert GoodSegments(["x{a}"]) && path == Slashed(["x{a}"]);
    PartialBraces(path);
  }

  lemma PartialBraces(path: string)
    requires path == "/x{a}"
    ensures Braces(path) == PARAM
  {
    NoBraces(path[..2]);
    BracesStep(path, 2);
    BracesStep(path, 3);
    BracesStep(path, 4);
    assert path[..5] == path;
  }

  lemma PartialParts(path: string)
    requires path == "/x{a}"
    ensures Split(path, '/') == ["", "x{a}"]
  {
    SplitCut("", "x{a}", '/');
    SplitWhole("x{a}", '/');
  }

  lemma PartialIsClosed(part: string, values: Params)
    requires part == "x{a}"
    ensures Closed("") && Closed(part) && !PartReaches(part, values)
  {
    FindFirst("{a}", '}', 1, 2);
    assert part[1..] == "{a}" && "{a}"[3..] == "" && Closed("{a}");
    assert part[1] == '{' && '{' in part;
  }

  /**
   * A variable inside a longer segment makes a literal of it: `/x{a}` is accepted, but whatever
   * the value, its expansion does not reach its node.
   */
  lemma PartialVariableIsMissed(log: seq<Entry>, values: Params)
    requires Registered(log, ShapeOf(Split("/x{a}", '/'))) && Encoded(values)
    ensures ValidRoute("/x{a}")
    ensures ClosedTemplate(Split("/x{a}", '/')) && !Reaches(log, "/x{a}", values)
  {
    hide Split, ValidRoute, Reaches, Closed, PartReaches;
    PartialIsValid("/x{a}");
    PartialParts("/x{a}");
    PartialIsClosed("x{a}", values);
    assert ["", "x{a}"][1] == "x{a}";
    ExpansionReaches(log, "/x{a}", values);
  }

  function Restrict(values: Params, names: set<string>): Params {
    map n | n in values && n in names :: values[n]
  }

  lemma RestrictMore(values: Params, params: Params, names: set<string>, n: string)
    requires n in values
    ensures params[n := values[n]] + Restrict(values, names) == params + Restrict(values, {n} + names)
  {
  }

  /** Each whole variable has its value. */
  ghost predicate Defined(parts: seq<string>, values: Params) {
    forall t :: t in parts && IsParamPart(t) ==> ParamName(t) in values
  }

  lemma {:induction false} BindFilled(template: seq<string>, values: Params, params: Params)
    requires PlainTemplate(template) && Defined(template, values)
    ensures Bind(template, Filled(template, values), params) == params + Restrict(values, Variables(template))
  {
    if template != [] {
      var t, rest := template[0], template[1..];
      assert t in template && forall u :: u in rest ==> u in template;
      assert Filled(template, values)[1..] == Filled(rest, values);
      if IsParamPart(t) {
        var n := ParamName(t);
        ExpandVariable(t, values);
        BindFilled(rest, values, params[n := values[n]]);
        RestrictMore(values, params, Variables(rest), n);
      } else {
        ExpandLiteral(t, values);
        BindFilled(rest, values, params);
        assert {} + Variables(rest) == Variables(rest);
      }
    }
  }

  lemma ReachedIsDefined(parts: seq<string>, values: Params)
    requires PlainTemplate(parts) && forall t :: t in parts ==> PartReaches(t, values)
    ensures Defined(parts, values)
  {
    forall t | t in parts && IsParamPart(t) ensures ParamName(t) in values {
      assert PlainPart(t) && '{' in t && PartReaches(t, values);
      ExpandVariable(t, values);
    }
  }

  /** A parameter that is no variable of its own is bound under a name that no variable has. */
  lemma ForeignName(parts: seq<string>, pathParts: seq<string>, values: Params, t: string)
    requires |parts| == |pathParts| && t in parts && IsParamPart(t) && '}' in ParamName(t)
    ensures Bind(parts, pathParts, map[]) != Restrict(values, Variables(parts))
  {
    var n := ParamName(t);
    var i :| 0 <= i < |parts| && parts[i] == t;
    var j := LastNamed(parts, i, n);
    BindLast(parts, pathParts, map[], j, n);
    if n in Variables(parts) {
      VariablesAreNames(parts, n);
    }
  }

  /**
   * Matching undoes expansion: where the expansion reaches the template's node and the routes
   * agree on names, the walk binds each variable to its value and nothing else exactly when every
   * parameter of the template is one whole variable.
   */
  lemma MatchUndoesExpand(log: seq<Entry>, template: string, values: Params)
    requires var parts := Split(template, '/');
             Registered(log, ShapeOf(parts)) && ClosedTemplate(parts) && Encoded(values) && NamesAgree(log, parts)
    requires Reaches(log, template, values)
    ensures var parts := Split(template, '/');
            WalkPath(log, Expand(template, values)).params == Restrict(values, Variables(parts))
            <==> PlainTemplate(parts)
  {
    var parts := Split(template, '/');
    var filled := Filled(parts, values);
    ExpansionReaches(log, template, values);
    SplitExpansion(template, values);
    HitBinds(log, filled);
    if PlainTemplate(parts) {
      ReachedIsDefined(parts, values);
      BindFilled(parts, values, map[]);
    } else {
      var t :| t in parts && !PlainPart(t);
      assert PartReaches(t, values);
      ForeignName(parts, filled, values, t);
    }
  }

  /** No two variables of the template have one name. */
  ghost predicate DistinctNames(template: seq<string>) {
    forall i: nat, j: nat, n :: Named(template, i, n) && Named(template, j, n) ==> i == j
  }

  /** A request for the template in which each parameter has a text of its own that no route has. */
  function FreshParts(template: seq<string>, m: nat): (parts: seq<string>)
    ensures |parts| == |template|
  {
    seq(|template|, i requires 0 <= i < |template| => if IsParamPart(template[i]) then LongText(m + i) else template[i])
  }

  lemma LongTextFits(n: nat)
    ensures IsParamText(LongText(n)) && EncodedText(LongText(n))
  {
  }

  lemma OnlyNamed(template: seq<string>, i: nat, n: string)
    requires DistinctNames(template) && Named(template, i, n)
    ensures forall j: nat :: i < j ==> !Named(template, j, n)
  {
  }

  lemma FreshValue(template: seq<string>, m: nat, i: nat, n: string)
    requires DistinctNames(template) && Named(template, i, n)
    ensures var values := Bind(template, FreshParts(template, m), map[]); n in values && values[n] == LongText(m + i)
  {
    hide Bind, DistinctNames;
    OnlyNamed(template, i, n);
    BindLast(template, FreshParts(template, m), map[], i, n);
  }

  lemma FreshReaches(part: string, values: Params, n: nat)
    requires IsParamPart(part) && '}' !in ParamName(part)
    requires ParamName(part) in values && values[ParamName(part)] == LongText(n)
    ensures Expand(part, values) == LongText(n) && PartReaches(part, values)
  {
    hide Expand;
    ExpandVariable(part, values);
    LongTextFits(n);
  }

  lemma FreshFillsPart(template: seq<string>, m: nat, i: nat)
    requires PlainTemplate(template) && DistinctNames(template) && i < |template|
    ensures var parts := FreshParts(template, m);
            var values := Bind(template, parts, map[]);
            Expand(template[i], values) == parts[i] && PartReaches(template[i], values)
  {
    hide Bind, Expand, DistinctNames, Find, IsParamText, Closed, VariablesOf;
    var t, values := template[i], Bind(template, FreshParts(template, m), map[]);
    assert PlainPart(t);
    if IsParamPart(t) {
      FreshValue(template, m, i, ParamName(t));
      FreshReaches(t, values, m + i);
    } else {
      ExpandLiteral(t, values);
    }
  }

  lemma FreshIsEncoded(template: seq<string>, m: nat)
    ensures Encoded(Bind(template, FreshParts(template, m), map[]))
  {
    hide Bind, EncodedText;
    var parts := FreshParts(template, m);
    var values := Bind(template, parts, map[]);
    forall n | n in values ensures EncodedText(values[n]) {
      var i := BindSource(template, parts, n);
      LongTextFits(m + i);
    }
  }

  lemma ParamIsParamPart(template: seq<string>, i: nat)
    requires i < |template| && ShapeOf(template)[i] == PARAM
    ensures IsParamPart(template[i])
  {
  }

  lemma FreshIsAbsent(log: seq<Entry>, m: nat, i: nat, p: seq<string>)
    requires m == MaxLength(AllParts(log))
    ensures !HasNode(log, p + [LongText(m + i)])
  {
    hide HasNode, Fresh;
    LongTextIsFresh(log, i);
    if HasNode(log, p + [LongText(m + i)]) {
      FreshIsNoNode(log, LongText(m + i), p + [LongText(m + i)], |p|);
    }
  }

  lemma FreshIsUnhidden(log: seq<Entry>, template: seq<string>, m: nat)
    requires HasNode(log, ShapeOf(template)) && m == MaxLength(AllParts(log))
    ensures Unhidden(log, [], ShapeOf(template), FreshParts(template, m))
  {
    hide HasNode, Fresh, ShapeOf, IsParamPart, LongText, MaxLength, AllParts;
    var shape, parts := ShapeOf(template), FreshParts(template, m);
    forall i | 0 <= i < |shape| && shape[i] == PARAM ensures !HasNode(log, [] + shape[..i] + [parts[i]]) {
      FreshIsAbsent(log, m, i, shape[..i]);
      assert [] + shape[..i] == shape[..i];
      ParamIsParamPart(template, i);
    }
  }

  lemma FreshFill(log: seq<Entry>, template: seq<string>) returns (values: Params, parts: seq<string>)
    requires PlainTemplate(template) && DistinctNames(template) && HasNode(log, ShapeOf(template))
    ensures Encoded(values) && Filled(template, values) == parts && |parts| == |template|
    ensures forall t :: t in template ==> PartReaches(t, values)
    ensures Unhidden(log, [], ShapeOf(template), parts)
    ensures forall i, j :: 0 <= i < j < |template| && IsParamPart(template[i]) && IsParamPart(template[j]) ==>
              parts[i] != parts[j]
  {
    hide Bind, Expand, PartReaches, Encoded, Unhidden, PlainTemplate, DistinctNames;
    var m := MaxLength(AllParts(log));
    parts := FreshParts(template, m);
    values := Bind(template, parts, map[]);
    FreshIsEncoded(template, m);
    forall i | 0 <= i < |template| ensures Expand(template[i], values) == parts[i] && PartReaches(template[i], values) {
      FreshFillsPart(template, m, i);
    }
    FreshIsUnhidden(log, template, m);
  }

  /** Each value that reaches the template's node is bound exactly. */
  ghost predicate BindsExactly(log: seq<Entry>, template: string) {
    forall values | Encoded(values) && Reaches(log, template, values) ::
      WalkPath(log, Expand(template, values)).params == Restrict(values, Variables(Split(template, '/')))
  }

  lemma PlainIsClosed(parts: seq<string>)
    requires PlainTemplate(parts)
    ensures ClosedTemplate(parts)
  {
    forall t | t in parts ensures Closed(t) {
      if IsParamPart(t) {
        ExpandVariable(t, map[]);
      } else {
        ExpandLiteral(t, map[]);
      }
    }
  }

  lemma SameName(a: string, b: string)
    requires IsParamPart(a) && IsParamPart(b) && ParamName(a) == ParamName(b)
    ensures a == b
  {
    assert |a| > 1 && |b| > 1;
    assert a == "{" + ParamName(a) + "}" && b == "{" + ParamName(b) + "}";
  }

  lemma SpelledKind(log: seq<Entry>, p: seq<string>, part: string)
    requires HasNode(log, p + [Normalized(part)])
    ensures var s := SpelledPart(log, p + [Normalized(part)]);
            if IsParamPart(part) then IsParamPart(s) else !IsParamPart(s) && s == part
  {
    hide HasNode, SpelledPart;
    if IsParamPart(part) {
      SpelledParam(log, p);
    } else {
      assert part == PARAM ==> IsParamPart(part);
      SpelledStatic(log, p, part);
    }
  }

  /** The spelled part is a parameter where the template's is, and the same literal elsewhere. */
  lemma SpelledKinds(log: seq<Entry>, parts: seq<string>, i: nat)
    requires HasNode(log, ShapeOf(parts)) && i < |parts|
    ensures var s := Spelled(log, [], ShapeOf(parts))[i];
            if IsParamPart(parts[i]) then IsParamPart(s) else !IsParamPart(s) && s == parts[i]
  {
    hide HasNode, Spelled, SpelledPart, IsParamPart;
    var shape := ShapeOf(parts);
    SpelledAt(log, [], shape, i);
    assert [] + shape[..i + 1] == shape[..i] + [shape[i]];
    NodePrefix(log, shape[..i] + [shape[i]], shape);
    SpelledKind(log, shape[..i], parts[i]);
  }

  /** With a text of its own for each parameter, equal bindings come from equal names. */
  lemma SpelledAsBound(log: seq<Entry>, parts: seq<string>, filled: seq<string>, i: nat)
    requires HasNode(log, ShapeOf(parts)) && |filled| == |parts| && i < |parts| && DistinctNames(parts)
    requires forall i, j :: 0 <= i < j < |parts| && IsParamPart(parts[i]) && IsParamPart(parts[j]) ==>
               filled[i] != filled[j]
    requires Bind(Spelled(log, [], ShapeOf(parts)), filled, map[]) == Bind(parts, filled, map[])
    ensures Spelled(log, [], ShapeOf(parts))[i] == parts[i]
  {
    hide Bind, Spelled, HasNode, DistinctNames;
    var spelled := Spelled(log, [], ShapeOf(parts));
    SpelledKinds(log, parts, i);
    if IsParamPart(parts[i]) {
      var n := ParamName(parts[i]);
      OnlyNamed(parts, i, n);
      BindLast(parts, filled, map[], i, n);
      var j := BindSource(spelled, filled, n);
      SpelledKinds(log, parts, j);
      assert j == i;
      SameName(spelled[i], parts[i]);
    }
  }

  lemma ExactNamesAgree(log: seq<Entry>, template: string)
    requires var parts := Split(template, '/');
             Registered(log, ShapeOf(parts)) && PlainTemplate(parts) && DistinctNames(parts)
    requires BindsExactly(log, template)
    ensures NamesAgree(log, Split(template, '/'))
  {
    var parts := Split(template, '/');
    var shape := ShapeOf(parts);
    NodeOfRegistered(log, shape, shape);
    PlainIsClosed(parts);
    var values, filled := FreshFill(log, parts);
    ExpansionReaches(log, template, values);
    SplitExpansion(template, values);
    HitBinds(log, filled);
    ReachedIsDefined(parts, values);
    BindFilled(parts, values, map[]);
    var spelled := Spelled(log, [], shape);
    assert Bind(spelled, filled, map[]) == Bind(parts, filled, map[]);
    forall i | 0 <= i < |parts| ensures spelled[i] == parts[i] {
      SpelledAsBound(log, parts, filled, i);
    }
  }

  /**
   * For a registered template whose parameters are whole variables with distinct names, every
   * expansion that reaches its node is bound exactly when the routes agree on its names.
   */
  lemma BindingIsExact(log: seq<Entry>, template: string)
    requires var parts := Split(template, '/');
             Registered(log, ShapeOf(parts)) && PlainTemplate(parts) && DistinctNames(parts)
    ensures BindsExactly(log, template) <==> NamesAgree(log, Split(template, '/'))
  {
    var parts := Split(template, '/');
    PlainIsClosed(parts);
    if NamesAgree(log, parts) {
      forall values | Encoded(values) && Reaches(log, template, values)
        ensures WalkPath(log, Expand(template, values)).params == Restrict(values, Variables(parts))
      {
        MatchUndoesExpand(log, template, values);
      }
    }
    if BindsExactly(log, template) {
      ExactNamesAgree(log, template);
    }
  }

  /** Parts that the template names alike hold the same text. */
  ghost predicate Consistent(template: seq<string>, parts: seq<string>)
    requires |template| == |parts|
  {
    forall i: nat, j: nat, n :: Named(template, i, n) && Named(template, j, n) ==> parts[i] == parts[j]
  }

  lemma FilledAt(template: seq<string>, parts: seq<string>, i: nat)
    requires PlainTemplate(template) && Matches(ShapeOf(template), parts) && i < |template|
    ensures var params := Bind(template, parts, map[]);
            && (Consistent(template, parts) ==> Expand(template[i], params) == parts[i])
            && (IsParamPart(template[i]) ==>
                  ParamName(template[i]) in params && Expand(template[i], params) == params[ParamName(template[i])])
  {
    var t, params := template[i], Bind(template, parts, map[]);
    assert t in template && SegmentMatches(ShapeOf(template)[i], parts[i]);
    if IsParamPart(t) {
      var n := ParamName(t);
      assert Named(template, i, n);
      var j := LastNamed(template, i, n);
      BindLast(template, parts, map[], j, n);
      ExpandVariable(t, params);
    } else {
      ExpandLiteral(t, params);
    }
  }

  /** The bindings fill the template with the parts they come from exactly when like names hold like texts. */
  lemma FilledOfBind(template: seq<string>, parts: seq<string>)
    requires PlainTemplate(template) && Matches(ShapeOf(template), parts)
    ensures Filled(template, Bind(template, parts, map[])) == parts <==> Consistent(template, parts)
  {
    var params := Bind(template, parts, map[]);
    forall i | 0 <= i < |template|
      ensures Consistent(template, parts) ==> Expand(template[i], params) == parts[i]
      ensures IsParamPart(template[i]) ==> ParamName(template[i]) in params
      ensures IsParamPart(template[i]) ==> Expand(template[i], params) == params[ParamName(template[i])]
    {
      FilledAt(template, parts, i);
    }
    if Filled(template, params) == parts {
      forall i: nat, j: nat, n | Named(template, i, n) && Named(template, j, n) ensures parts[i] == parts[j] {
        assert Filled(template, params)[i] == params[n] == Filled(template, params)[j];
      }
    }
  }

  /** What the walk binds is encoded: each value has passed the parameter pattern. */
  lemma BoundIsEncoded(template: seq<string>, parts: seq<string>)
    requires Matches(ShapeOf(template), parts)
    ensures Encoded(Bind(template, parts, map[]))
  {
    var params := Bind(template, parts, map[]);
    forall n | n in params ensures EncodedText(params[n]) {
      var i := BindSource(template, parts, n);
      assert SegmentMatches(ShapeOf(template)[i], parts[i]);
    }
  }

  /**
   * Expansion undoes matching. When a path reaches the node of a plain template whose names the
   * routes agree on, expanding the template with the bindings gives the path back exactly when
   * parts of the same name hold the same text; with distinct names, always.
   */
  lemma ExpandUndoesMatch(log: seq<Entry>, template: string, path: string)
    requires PlainTemplate(Split(template, '/')) && NamesAgree(log, Split(template, '/'))
    requires WalkPath(log, path).Hit? && WalkPath(log, path).shape == ShapeOf(Split(template, '/'))
    ensures |Split(path, '/')| == |Split(template, '/')|
    ensures Expand(template, WalkPath(log, path).params) == path <==> Consistent(Split(template, '/'), Split(path, '/'))
  {
    hide Expand, Split, Consistent, Encoded;
    var parts, pathParts := Split(template, '/'), Split(path, '/');
    var shape := ShapeOf(parts);
    GreedyFits(log, [], pathParts, map[]);
    assert shape[0..] == shape;
    HitBinds(log, pathParts);
    FilledOfBind(parts, pathParts);
    PlainIsClosed(parts);
    BoundIsEncoded(parts, pathParts);
    var params := WalkPath(log, path).params;
    SplitExpansion(template, params);
    JoinSplit(path, '/');
    JoinSplit(Expand(template, params), '/');
  }
}
