/** When the order of registration does not matter. */
module RouteOrder {
  import opened StringUtils
  import opened Options
  import opened RoutePattern
  import opened RouteLog
  import opened RouteMatching

  /** What a caller of `MatchRoute` sees: the key, handler and parameters of the node, if any. */
  datatype Answer = NoNode(params: Params) | Node(key: nat, handler: HandlerFn, params: Params)

  function AnswerFor(log: seq<Entry>, path: string): Answer {
    match WalkPath(log, path)
    case Miss(params) => NoNode(params)
    case Hit(p, params) =>
      match LastAt(log, p)
      case None => Node(0, NullFn, params)
      case Some(e) => Node(e.key, e.handler, params)
  }

  /** Every order of the same routes gives the same answers. */
  ghost predicate OrderFree(log: seq<Entry>) {
    forall other, path :: multiset(other) == multiset(log) ==> AnswerFor(other, path) == AnswerFor(log, path)
  }

  predicate SamePrefix(e: Entry, f: Entry, n: nat) {
    0 < n <= |e.parts| && n <= |f.parts| && ShapeOf(e.parts)[..n] == ShapeOf(f.parts)[..n]
  }

  /** Routes of one shape carry one key and handler; parameters reached by one prefix carry one name. */
  ghost predicate Agreeing(log: seq<Entry>) {
    && (forall e, f | e in log && f in log ::
          ShapeOf(e.parts) == ShapeOf(f.parts) ==> e.key == f.key && e.handler == f.handler)
    && (forall e, f, n: nat | e in log && f in log && SamePrefix(e, f, n) && IsParamPart(e.parts[n - 1]) ::
          IsParamPart(f.parts[n - 1]) && ParamName(e.parts[n - 1]) == ParamName(f.parts[n - 1]))
  }

  lemma SameMembers(log: seq<Entry>, other: seq<Entry>)
    requires multiset(other) == multiset(log)
    ensures forall e :: e in log <==> e in other
  {
    forall e ensures e in log <==> e in other {
      assert e in log <==> e in multiset(log);
      assert e in other <==> e in multiset(other);
    }
  }

  lemma SameNode(log: seq<Entry>, other: seq<Entry>, p: seq<string>)
    requires Agreeing(log) && forall e :: e in log <==> e in other
    ensures HasNode(log, p) == HasNode(other, p)
    ensures Registered(log, p) == Registered(other, p)
    ensures Registered(log, p) ==>
            var e, f := LastAt(log, p).value, LastAt(other, p).value; e.key == f.key && e.handler == f.handler
    ensures HasNode(log, p) && IsParamNode(p) ==> NameAt(log, p) == NameAt(other, p)
  {
    if HasNode(log, p) && IsParamNode(p) {
      var e, f := LastThrough(log, p).value, LastThrough(other, p).value;
      assert p[|p| - 1] == Normalized(e.parts[|p| - 1]);
      assert SamePrefix(e, f, |p|);
    }
  }

  lemma {:induction false} SameWalk(log: seq<Entry>, other: seq<Entry>, p: seq<string>, parts: seq<string>,
      params: Params)
    requires Agreeing(log) && forall e :: e in log <==> e in other
    ensures Greedy(log, p, parts, params) == Greedy(other, p, parts, params)
    decreases |parts|
  {
    if parts != [] {
      var q, r := p + [parts[0]], p + [PARAM];
      SameNode(log, other, q);
      SameNode(log, other, r);
      if parts[0] != PARAM && HasNode(log, q) {
        SameWalk(log, other, q, parts[1..], params);
      } else if HasNode(log, r) {
        SameWalk(log, other, r, parts[1..], params[NameAt(log, r) := parts[0]]);
      }
    }
  }

  /** The same routes with `e` registered last. */
  lemma MoveLast(log: seq<Entry>, e: Entry) returns (other: seq<Entry>)
    requires e in log
    ensures multiset(other) == multiset(log) && other != [] && other[|other| - 1] == e
  {
    var i :| 0 <= i < |log| && log[i] == e;
    other := log[..i] + log[i + 1..] + [e];
    assert log == log[..i] + [e] + log[i + 1..];
  }

  /** The answer to a path that reaches `p` without straying, when `e` was registered last. */
  lemma AnswerAtShape(log: seq<Entry>, text: string, e: Entry)
    requires SplitLog(log) && Fresh(log, text) && log != [] && log[|log| - 1] == e
    ensures var a := AnswerFor(log, Join(Instance(ShapeOf(e.parts), text), '/'));
            a.Node? && a.key == e.key && a.handler == e.handler
  {
    var shape := ShapeOf(e.parts);
    assert HasNode(log, shape);
    JoinedInstance(log, text, shape);
    assert [] + shape == shape;
    assert Instance(shape, text) + [] == Instance(shape, text);
    var params := GreedyFollows(log, text, [], shape, [], map[]);
  }

  /** The path to a parameter node: fresh texts on the way, another one for the parameter itself. */
  function PathTo(p: seq<string>, text: string, last: string): seq<string>
    requires p != []
  {
    Instance(p[..|p| - 1], text) + Instance(p[|p| - 1..], last)
  }

  lemma JoinedPathTo(log: seq<Entry>, text: string, last: string, p: seq<string>)
    requires SplitLog(log) && HasNode(log, p) && p != [] && IsParamText(text) && IsParamText(last)
    ensures Split(Join(PathTo(p, text, last), '/'), '/') == PathTo(p, text, last)
  {
    var e := LastThrough(log, p).value;
    var parts := PathTo(p, text, last);
    forall i | 0 <= i < |parts| ensures '/' !in parts[i] {
      assert p[i] == Normalized(e.parts[i]);
      assert e.parts[i] in e.parts;
    }
    SplitJoin(parts, '/');
  }

  lemma AnswerAtParam(log: seq<Entry>, text: string, last: string, e: Entry, n: nat) returns (params: Params)
    requires SplitLog(log) && Fresh(log, text) && Fresh(log, last) && log != [] && log[|log| - 1] == e
    requires 0 < n <= |e.parts| && IsParamPart(e.parts[n - 1])
    ensures forall m :: m in params ==> params[m] == text
    ensures AnswerFor(log, Join(PathTo(ShapeOf(e.parts)[..n], text, last), '/')).params ==
            params[ParamName(e.parts[n - 1]) := last]
  {
    hide LastAt, SplitLog, Split, Join;
    var p := ShapeOf(e.parts)[..n];
    var up := p[..n - 1];
    assert p == up + [PARAM] && p[n - 1..] == [PARAM];
    assert HasNode(log, p) && LastThrough(log, p).value == e;
    NodePrefix(log, up, p);
    JoinedPathTo(log, text, last, p);
    assert [] + up == up && Instance([PARAM], last) == [last];
    params := GreedyFollows(log, text, [], up, [last], map[]);
    if HasNode(log, up + [last]) {
      FreshIsNoNode(log, last, up + [last], n - 1);
    }
    assert Greedy(log, up, [last], params) == Hit(p, params[NameAt(log, p) := last]);
  }

  lemma LastTwo(log: seq<Entry>, e: Entry, f: Entry) returns (a: seq<Entry>, b: seq<Entry>)
    requires SplitLog(log) && OrderFree(log) && e in log && f in log
    ensures a != [] && a[|a| - 1] == e && b != [] && b[|b| - 1] == f
    ensures forall g :: g in a <==> g in log
    ensures forall g :: g in b <==> g in log
    ensures forall path :: AnswerFor(a, path) == AnswerFor(b, path)
  {
    a := MoveLast(log, e);
    b := MoveLast(log, f);
    SameMembers(log, a);
    SameMembers(log, b);
    forall path ensures AnswerFor(a, path) == AnswerFor(b, path) {
      assert AnswerFor(a, path) == AnswerFor(log, path);
      assert AnswerFor(b, path) == AnswerFor(log, path);
    }
  }

  lemma ShapeDecides(log: seq<Entry>, e: Entry, f: Entry)
    requires SplitLog(log) && OrderFree(log) && e in log && f in log && ShapeOf(e.parts) == ShapeOf(f.parts)
    ensures e.key == f.key && e.handler == f.handler
  {
    var a, b := LastTwo(log, e, f);
    AnswerAtShape(a, FreshText(log), e);
    AnswerAtShape(b, FreshText(log), f);
  }

  lemma OneNewValue(x: Params, y: Params, m: string, n: string, text: string, last: string)
    requires (forall k :: k in x ==> x[k] == text) && text != last
    requires x[m := last] == y[n := last]
    ensures m == n
  {
    assert y[n := last][n] == last;
    assert n in x[m := last] && x[m := last][n] == last;
  }

  lemma PrefixDecides(log: seq<Entry>, e: Entry, f: Entry, n: nat)
    requires SplitLog(log) && OrderFree(log) && e in log && f in log
    requires SamePrefix(e, f, n) && IsParamPart(e.parts[n - 1])
    ensures IsParamPart(f.parts[n - 1]) && ParamName(e.parts[n - 1]) == ParamName(f.parts[n - 1])
  {
    var a, b := LastTwo(log, e, f);
    var m := MaxLength(AllParts(log));
    var text, last := LongText(m), LongText(m + 1);
    LongTextIsFresh(log, 0);
    LongTextIsFresh(log, 1);
    assert ShapeOf(e.parts)[..n][n - 1] == ShapeOf(f.parts)[..n][n - 1];
    assert ShapeOf(e.parts)[n - 1] == ShapeOf(f.parts)[n - 1];
    assert IsParamPart(f.parts[n - 1]);
    var x := AnswerAtParam(a, text, last, e, n);
    var y := AnswerAtParam(b, text, last, f, n);
    OneNewValue(x, y, ParamName(e.parts[n - 1]), ParamName(f.parts[n - 1]), text, last);
  }

  /**
   * The order of registration is irrelevant to every answer exactly when routes of one shape
   * agree on key and handler and routes through one parameter node agree on its name.
   */
  lemma OrderIsIrrelevant(log: seq<Entry>)
    requires SplitLog(log)
    ensures OrderFree(log) <==> Agreeing(log)
  {
    if Agreeing(log) {
      forall other, path | multiset(other) == multiset(log) ensures AnswerFor(other, path) == AnswerFor(log, path) {
        SameMembers(log, other);
        SameWalk(log, other, [], Split(path, '/'), map[]);
        var w := WalkPath(log, path);
        if w.Hit? {
          SameNode(log, other, w.shape);
        }
      }
    }
    if OrderFree(log) {
      forall e, f | e in log && f in log && ShapeOf(e.parts) == ShapeOf(f.parts)
        ensures e.key == f.key && e.handler == f.handler
      {
        ShapeDecides(log, e, f);
      }
      forall e, f, n: nat | e in log && f in log && SamePrefix(e, f, n) && IsParamPart(e.parts[n - 1])
        ensures IsParamPart(f.parts[n - 1]) && ParamName(e.parts[n - 1]) == ParamName(f.parts[n - 1])
      {
        PrefixDecides(log, e, f, n);
      }
    }
  }
}
