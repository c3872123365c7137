/** What the greedy walk finds, compared with a search over all registered shapes. */
module RouteMatching {
  import opened StringUtils
  import opened Options
  import opened RoutePattern
  import opened RouteLog

  predicate SegmentMatches(key: string, part: string) {
    if key == PARAM then IsParamText(part) else key == part
  }

  /** The shape fits the path, segment by segment. */
  predicate Matches(shape: seq<string>, parts: seq<string>) {
    |shape| == |parts| && forall i :: 0 <= i < |shape| ==> SegmentMatches(shape[i], parts[i])
  }

  /** `a` is `b`, or is static where the two first differ. */
  ghost predicate AtLeastAsStatic(a: seq<string>, b: seq<string>) {
    || a == b
    || exists i :: 0 <= i < |a| && i < |b| && a[..i] == b[..i] && a[i] != PARAM && b[i] == PARAM
  }

  /** One step further down: what fits below `p + [k]` fits below `p` with `k` in front. */
  lemma MatchesBelow(p: seq<string>, k: string, shape: seq<string>, parts: seq<string>)
    requires parts != [] && SegmentMatches(k, parts[0])
    requires p + [k] <= shape && Matches(shape[|p| + 1..], parts[1..])
    ensures p <= shape && Matches(shape[|p|..], parts)
  {
    assert shape[..|p|] == (p + [k])[..|p|] == p;
    var t := shape[|p|..];
    assert t[0] == (p + [k])[|p|] == k;
    forall i | 0 < i < |t| ensures SegmentMatches(t[i], parts[i]) {
      assert SegmentMatches(shape[|p| + 1..][i - 1], parts[1..][i - 1]);
    }
  }

  /** A walk that ends does so at a node whose shape fits the rest of the path. */
  lemma {:induction false} GreedyFits(log: seq<Entry>, p: seq<string>, parts: seq<string>, params: Params)
    requires HasNode(log, p)
    ensures var w := Greedy(log, p, parts, params);
            w.Hit? ==> p <= w.shape && HasNode(log, w.shape) && Matches(w.shape[|p|..], parts)
    decreases |parts|
  {
    hide HasNode;
    if parts != [] {
      var k := if parts[0] != PARAM && HasNode(log, p + [parts[0]]) then parts[0] else PARAM;
      if HasNode(log, p + [k]) && SegmentMatches(k, parts[0]) {
        var params' := if k == PARAM then params[NameAt(log, p + [k]) := parts[0]] else params;
        GreedyFits(log, p + [k], parts[1..], params');
        var w := Greedy(log, p + [k], parts[1..], params');
        if w.Hit? {
          MatchesBelow(p, k, w.shape, parts);
        }
      }
    }
  }

  /** What fits below `p` has a first step, below which the rest fits. */
  lemma MatchesDown(p: seq<string>, s: seq<string>, parts: seq<string>)
    requires p <= s && Matches(s[|p|..], parts) && parts != []
    ensures |p| < |s| && p + [s[|p|]] <= s && SegmentMatches(s[|p|], parts[0])
    ensures Matches(s[|p + [s[|p|]]|..], parts[1..])
  {
    hide SegmentMatches;
    assert SegmentMatches(s[|p|..][0], parts[0]);
    forall i | 0 <= i < |parts| - 1 ensures SegmentMatches(s[|p| + 1..][i], parts[1..][i]) {
      assert SegmentMatches(s[|p|..][i + 1], parts[i + 1]);
    }
  }

  lemma StaticAtFork(p: seq<string>, k: string, a: seq<string>, b: seq<string>)
    requires k != PARAM && p + [k] <= a && p + [PARAM] <= b
    ensures AtLeastAsStatic(a, b)
  {
    assert a[|p|] == (p + [k])[|p|] && b[|p|] == (p + [PARAM])[|p|];
    assert a[..|p|] == (p + [k])[..|p|] && b[..|p|] == (p + [PARAM])[..|p|];
  }

  lemma NothingLeft(p: seq<string>, s: seq<string>)
    requires p <= s && Matches(s[|p|..], [])
    ensures AtLeastAsStatic(p, s)
  {
    assert p == s;
  }

  /** No node whose shape fits the path is more static than the one the walk ends at. */
  lemma {:induction false} GreedyIsMostStatic(
      log: seq<Entry>, p: seq<string>, parts: seq<string>, params: Params, s: seq<string>)
    requires HasNode(log, s) && p <= s && Matches(s[|p|..], parts)
    ensures var w := Greedy(log, p, parts, params);
            w.Hit? ==> AtLeastAsStatic(w.shape, s)
    decreases |parts|
  {
    hide HasNode, Matches, AtLeastAsStatic;
    if parts == [] {
      NothingLeft(p, s);
    } else {
      MatchesDown(p, s, parts);
      NodePrefix(log, p + [s[|p|]], s);
      if parts[0] != PARAM && HasNode(log, p + [parts[0]]) {
        if s[|p|] == parts[0] {
          GreedyIsMostStatic(log, p + [parts[0]], parts[1..], params, s);
        } else {
          GreedyFits(log, p + [parts[0]], parts[1..], params);
          if Greedy(log, p, parts, params).Hit? {
            StaticAtFork(p, parts[0], Greedy(log, p, parts, params).shape, s);
          }
        }
      } else {
        var params' := params[NameAt(log, p + [PARAM]) := parts[0]];
        GreedyIsMostStatic(log, p + [PARAM], parts[1..], params', s);
      }
    }
  }

  /** A parameter value that no registered route has as a part. */
  ghost predicate Fresh(log: seq<Entry>, text: string) {
    IsParamText(text) && forall e :: e in log ==> text !in e.parts
  }

  function MaxLength(parts: seq<string>): nat {
    if parts == [] then 0
    else
      var n := MaxLength(parts[1..]);
      if n < |parts[0]| then |parts[0]| else n
  }

  function AllParts(log: seq<Entry>): seq<string> {
    if log == [] then [] else log[0].parts + AllParts(log[1..])
  }

  /** `n` letters, more than any part has. */
  function LongText(n: nat): (s: string)
    ensures |s| == n + 1 && forall c :: c in s ==> c == 'a'
  {
    seq(n + 1, _ => 'a')
  }

  lemma {:induction false} MaxLengthBounds(parts: seq<string>, part: string)
    requires part in parts
    ensures |part| <= MaxLength(parts)
  {
    if part != parts[0] {
      MaxLengthBounds(parts[1..], part);
    }
  }

  lemma {:induction false} AllPartsHolds(log: seq<Entry>, e: Entry, part: string)
    requires e in log && part in e.parts
    ensures part in AllParts(log)
  {
    if e != log[0] {
      AllPartsHolds(log[1..], e, part);
    }
  }

  lemma LongTextIsFresh(log: seq<Entry>, extra: nat)
    ensures Fresh(log, LongText(MaxLength(AllParts(log)) + extra))
  {
    var text := LongText(MaxLength(AllParts(log)) + extra);
    forall e | e in log ensures text !in e.parts {
      if text in e.parts {
        AllPartsHolds(log, e, text);
        MaxLengthBounds(AllParts(log), text);
      }
    }
  }

  function FreshText(log: seq<Entry>): (s: string)
    ensures Fresh(log, s)
  {
    LongTextIsFresh(log, 0);
    LongText(MaxLength(AllParts(log)))
  }

  lemma ParamTextIsNotParam(text: string)
    requires IsParamText(text)
    ensures text != PARAM
  {
    assert '{' in PARAM;
  }

  lemma FreshIsNoNode(log: seq<Entry>, text: string, p: seq<string>, i: nat)
    requires Fresh(log, text) && HasNode(log, p) && i < |p|
    ensures p[i] != text
  {
    var e := LastThrough(log, p).value;
    assert p[i] == Normalized(e.parts[i]);
    ParamTextIsNotParam(text);
  }

  /** A path that fits `shape`: its parameters all read `text`. */
  function Instance(shape: seq<string>, text: string): (parts: seq<string>)
    ensures |parts| == |shape|
  {
    seq(|shape|, i requires 0 <= i < |shape| => if shape[i] == PARAM then text else shape[i])
  }

  /** The walk over a path whose parameters are fresh cannot stray from the shape. */
  lemma {:induction false} GreedyFollows(log: seq<Entry>, text: string, p: seq<string>, t: seq<string>,
                                         rest: seq<string>, params: Params) returns (params': Params)
    requires Fresh(log, text) && HasNode(log, p + t)
    ensures Greedy(log, p, Instance(t, text) + rest, params) == Greedy(log, p + t, rest, params')
    ensures forall n :: n in params' ==> params'[n] == text || (n in params && params'[n] == params[n])
    decreases |t|
  {
    var parts := Instance(t, text) + rest;
    if t == [] {
      assert parts == rest && p + t == p;
      params' := params;
    } else {
      NodePrefix(log, p + [t[0]], p + t);
      assert p + t == p + [t[0]] + t[1..];
      assert parts[1..] == Instance(t[1..], text) + rest;
      var next := params;
      if t[0] == PARAM {
        if HasNode(log, p + [text]) {
          FreshIsNoNode(log, text, p + [text], |p|);
        }
        next := params[NameAt(log, p + [PARAM]) := text];
      }
      params' := GreedyFollows(log, text, p + [t[0]], t[1..], rest, next);
    }
  }

  /** The walk over a request path, from the root and with no parameters yet. */
  function WalkPath(log: seq<Entry>, path: string): Walk {
    Greedy(log, [], Split(path, '/'), map[])
  }

  /** The walk ends at a node that carries a handler. */
  predicate Served(log: seq<Entry>, path: string) {
    var w := WalkPath(log, path);
    w.Hit? && Registered(log, w.shape)
  }

  ghost predicate SomeShapeMatches(log: seq<Entry>, path: string) {
    exists s :: Registered(log, s) && Matches(s, Split(path, '/'))
  }

  /** No part of a registered route holds a slash, and none is without parts. */
  ghost predicate SplitLog(log: seq<Entry>) {
    forall e :: e in log ==> |e.parts| >= 1 && DelimiterFree(e.parts, '/')
  }

  lemma JoinedInstance(log: seq<Entry>, text: string, p: seq<string>)
    requires SplitLog(log) && IsParamText(text) && HasNode(log, p) && p != []
    ensures Split(Join(Instance(p, text), '/'), '/') == Instance(p, text)
  {
    var e := LastThrough(log, p).value;
    forall i | 0 <= i < |p| ensures '/' !in Instance(p, text)[i] {
      assert p[i] == Normalized(e.parts[i]);
      assert e.parts[i] in e.parts;
    }
    SplitJoin(Instance(p, text), '/');
  }

  /** Every node below the root is where the walk of some request ends. */
  lemma PathToNode(log: seq<Entry>, p: seq<string>) returns (path: string)
    requires SplitLog(log) && HasNode(log, p) && p != []
    ensures |Split(path, '/')| == |p|
    ensures WalkPath(log, path).Hit? && WalkPath(log, path).shape == p
  {
    var text := FreshText(log);
    JoinedInstance(log, text, p);
    path := Join(Instance(p, text), '/');
    assert [] + p == p && Instance(p, text) + [] == Instance(p, text);
    var params := GreedyFollows(log, text, [], p, [], map[]);
  }

  /** The parts of an accepted template: nothing before the first slash, then good segments. */
  ghost predicate AcceptedParts(parts: seq<string>) {
    |parts| >= 1 && parts[0] == "" && forall i :: 0 < i < |parts| ==> GoodSegment(parts[i])
  }

  ghost predicate AcceptedLog(log: seq<Entry>) {
    forall e :: e in log ==> AcceptedParts(e.parts)
  }

  lemma AcceptedMore(log: seq<Entry>, e: Entry)
    requires AcceptedLog(log) && AcceptedParts(e.parts)
    ensures AcceptedLog(log + [e])
  {
    hide AcceptedParts;
  }

  lemma AcceptedIsSplit(log: seq<Entry>)
    requires AcceptedLog(log)
    ensures SplitLog(log)
  {
    forall e, t | e in log && t in e.parts ensures '/' !in t {
      assert AcceptedParts(e.parts);
      var i :| 0 <= i < |e.parts| && e.parts[i] == t;
    }
  }

  /** The empty key occurs only directly below the root, and every leaf below the root is a registered shape. */
  lemma TrieShape(log: seq<Entry>, p: seq<string>)
    requires AcceptedLog(log) && HasNode(log, p) && p != []
    ensures p[0] == "" && forall i :: 0 < i < |p| ==> p[i] != ""
    ensures Registered(log, p) || exists k :: HasNode(log, p + [k])
  {
    var e := LastThrough(log, p).value;
    assert AcceptedParts(e.parts);
    forall i | 0 <= i < |p| ensures p[i] == "" <==> i == 0 {
      assert p[i] == Normalized(e.parts[i]);
      assert i > 0 ==> GoodSegment(e.parts[i]);
    }
    var s := RegisteredBelow(log, p);
    if |p| < |s| {
      assert p + [s[|p|]] == s[..|p| + 1];
      NodeOfRegistered(log, p + [s[|p|]], s);
    } else {
      assert p == s;
    }
  }

  /**
   * A path that reaches any node has nothing before its first slash, no empty part after it, and
   * no part that reads `{}`.
   */
  lemma ReachedPath(log: seq<Entry>, path: string)
    requires AcceptedLog(log) && WalkPath(log, path).Hit?
    ensures var parts := Split(path, '/');
            forall i :: 0 <= i < |parts| ==> parts[i] != PARAM && (parts[i] == "" <==> i == 0)
  {
    var parts, shape := Split(path, '/'), WalkPath(log, path).shape;
    GreedyFits(log, [], parts, map[]);
    assert shape[0..] == shape;
    TrieShape(log, shape);
    assert !IsParamText(PARAM) by {
      assert '{' in PARAM;
    }
    forall i | 0 <= i < |parts| ensures parts[i] != PARAM && (parts[i] == "" <==> i == 0) {
      assert SegmentMatches(shape[i], parts[i]);
    }
  }

  /**
   * Soundness and priority: a walk that reaches a handler has found a registered shape that fits
   * the path, and no registered shape that fits is more static.
   */
  lemma ServedShape(log: seq<Entry>, path: string)
    requires Served(log, path)
    ensures var shape := WalkPath(log, path).shape;
            && Matches(shape, Split(path, '/'))
            && forall s :: Registered(log, s) && Matches(s, Split(path, '/')) ==> AtLeastAsStatic(shape, s)
  {
    var parts := Split(path, '/');
    GreedyFits(log, [], parts, map[]);
    var shape := WalkPath(log, path).shape;
    assert shape[0..] == shape;
    forall s | Registered(log, s) && Matches(s, parts) ensures AtLeastAsStatic(shape, s) {
      assert s[0..] == s;
      GreedyIsMostStatic(log, [], parts, map[], s);
    }
  }

  /** `a` fits every path that `b` fits. */
  predicate Covers(a: seq<string>, b: seq<string>) {
    && |a| == |b|
    && forall i :: 0 <= i < |a| ==> a[i] == b[i] || (a[i] == PARAM && IsParamText(b[i]))
  }

  ghost predicate CoveredBelow(log: seq<Entry>, q: seq<string>, t: seq<string>) {
    exists u :: Registered(log, q + u) && Covers(u, t)
  }

  /**
   * Wherever a static child could hide its sibling parameter child, what is registered below
   * the parameter child is covered by something registered below the static one.
   */
  ghost predicate NoHiddenRoute(log: seq<Entry>) {
    forall p, k, t ::
      IsParamText(k) && HasNode(log, p + [k]) && Registered(log, p + [PARAM] + t)
      ==> CoveredBelow(log, p + [k], t)
  }

  lemma {:induction false} CoveredWalkIsServed(log: seq<Entry>, p: seq<string>, t: seq<string>,
                                               parts: seq<string>, params: Params)
    requires NoHiddenRoute(log)
    requires Registered(log, p + t) && Matches(t, parts)
    ensures var w := Greedy(log, p, parts, params); w.Hit? && Registered(log, w.shape)
    decreases |parts|
  {
    if parts == [] {
      assert p + t == p;
    } else {
      assert p + t == p + [t[0]] + t[1..];
      NodeOfRegistered(log, p + [t[0]], p + t);
      assert SegmentMatches(t[0], parts[0]);
      if parts[0] != PARAM && HasNode(log, p + [parts[0]]) {
        var u := t[1..];
        if t[0] == PARAM {
          assert CoveredBelow(log, p + [parts[0]], t[1..]);
          u :| Registered(log, p + [parts[0]] + u) && Covers(u, t[1..]);
          forall i | 0 <= i < |u| ensures SegmentMatches(u[i], parts[1..][i]) {
            assert SegmentMatches(t[i + 1], parts[i + 1]);
          }
        }
        CoveredWalkIsServed(log, p + [parts[0]], u, parts[1..], params);
      } else {
        CoveredWalkIsServed(log, p + [PARAM], t[1..], parts[1..], params[NameAt(log, p + [PARAM]) := parts[0]]);
      }
    }
  }

  /** A request that tells whether the static child `k` hides the route `p + [PARAM] + t`. */
  function Probe(log: seq<Entry>, p: seq<string>, k: string, t: seq<string>): seq<string> {
    Instance(p, FreshText(log)) + ([k] + Instance(t, FreshText(log)))
  }

  lemma ProbePath(log: seq<Entry>, p: seq<string>, k: string, t: seq<string>)
    requires SplitLog(log) && IsParamText(k) && Registered(log, p + [PARAM] + t)
    ensures Matches(p + [PARAM] + t, Probe(log, p, k, t))
    ensures Split(Join(Probe(log, p, k, t), '/'), '/') == Probe(log, p, k, t)
  {
    var s, parts := p + [PARAM] + t, Probe(log, p, k, t);
    var e := LastAt(log, s).value;
    forall i | 0 <= i < |s| ensures '/' !in parts[i] && SegmentMatches(s[i], parts[i]) {
      assert s[i] == Normalized(e.parts[i]);
      assert e.parts[i] in e.parts;
    }
    SplitJoin(parts, '/');
  }

  lemma GreedyStatic(log: seq<Entry>, p: seq<string>, k: string, rest: seq<string>, params: Params)
    requires IsParamText(k) && HasNode(log, p + [k])
    ensures Greedy(log, p, [k] + rest, params) == Greedy(log, p + [k], rest, params)
  {
    ParamTextIsNotParam(k);
    assert ([k] + rest)[1..] == rest;
  }

  lemma FittingInstanceCovers(log: seq<Entry>, q: seq<string>, u: seq<string>, t: seq<string>)
    requires HasNode(log, q + u) && Matches(u, Instance(t, FreshText(log)))
    ensures Covers(u, t)
  {
    hide HasNode, Fresh, IsParamText;
    assert Fresh(log, FreshText(log));
    forall i | 0 <= i < |u| ensures u[i] == t[i] || (u[i] == PARAM && IsParamText(t[i])) {
      assert SegmentMatches(u[i], Instance(t, FreshText(log))[i]);
      FreshIsNoNode(log, FreshText(log), q + u, |q| + i);
    }
  }

  lemma BelowIsCovered(log: seq<Entry>, q: seq<string>, t: seq<string>, params: Params)
    requires HasNode(log, q)
    requires var w := Greedy(log, q, Instance(t, FreshText(log)), params); w.Hit? && Registered(log, w.shape)
    ensures CoveredBelow(log, q, t)
  {
    var parts := Instance(t, FreshText(log));
    GreedyFits(log, q, parts, params);
    var shape := Greedy(log, q, parts, params).shape;
    assert shape == q + shape[|q|..];
    FittingInstanceCovers(log, q, shape[|q|..], t);
  }

  lemma ProbeServedIsCovered(log: seq<Entry>, p: seq<string>, k: string, t: seq<string>)
    requires SplitLog(log) && IsParamText(k) && HasNode(log, p + [k]) && Registered(log, p + [PARAM] + t)
    requires var w := Greedy(log, [], Probe(log, p, k, t), map[]); w.Hit? && Registered(log, w.shape)
    ensures CoveredBelow(log, p + [k], t)
  {
    var text := FreshText(log);
    NodePrefix(log, p, p + [k]);
    assert [] + p == p;
    var params := GreedyFollows(log, text, [], p, [k] + Instance(t, text), map[]);
    GreedyStatic(log, p, k, Instance(t, text), params);
    BelowIsCovered(log, p + [k], t, params);
  }

  /**
   * Greedy matching serves every path that some registered shape fits, exactly when no static
   * child hides a route below its sibling parameter child.
   */
  lemma GreedyIsExhaustive(log: seq<Entry>)
    requires SplitLog(log)
    ensures (forall path :: Served(log, path) <==> SomeShapeMatches(log, path)) <==> NoHiddenRoute(log)
  {
    forall path | Served(log, path) ensures SomeShapeMatches(log, path) {
      ServedShape(log, path);
    }
    if NoHiddenRoute(log) {
      forall path | SomeShapeMatches(log, path) ensures Served(log, path) {
        var s :| Registered(log, s) && Matches(s, Split(path, '/'));
        assert [] + s == s;
        CoveredWalkIsServed(log, [], s, Split(path, '/'), map[]);
      }
    }
    if forall path :: Served(log, path) <==> SomeShapeMatches(log, path) {
      forall p, k, t | IsParamText(k) && HasNode(log, p + [k]) && Registered(log, p + [PARAM] + t)
        ensures CoveredBelow(log, p + [k], t)
      {
        ProbePath(log, p, k, t);
        var path := Join(Probe(log, p, k, t), '/');
        assert SomeShapeMatches(log, path);
        assert Served(log, path);
        ProbeServedIsCovered(log, p, k, t);
      }
    }
  }

  lemma OneParameterBraces(path: string)
    requires path == "/{x}/c"
    ensures Braces(path) == PARAM
  {
    NoBraces(path[..1]);
    BracesStep(path, 1);
    BracesStep(path, 2);
    BracesStep(path, 3);
    BracesStep(path, 4);
    BracesStep(path, 5);
    assert path[..6] == path;
  }

  lemma OneParameterIsValid(path: string)
    requires path == "/{x}/c"
    ensures ValidRoute(path) && Split(path, '/') == ["", "{x}", "c"]
  {
    TwoSegments("{x}", "c", path);
    OneParameterBraces(path);
  }

  lemma TwoLettersAreValid(path: string)
    requires path == "/a/b" || path == "/a/c"
    ensures ValidRoute(path) && Split(path, '/') == ["", "a", [path[3]]]
  {
    TwoSegments("a", [path[3]], path);
    NoBraces(path);
  }

  /** The routes `/a/b` and `/{x}/c`, split. */
  ghost predicate HidingLog(log: seq<Entry>) {
    |log| == 2 && log[0].parts == ["", "a", "b"] && log[1].parts == ["", "{x}", "c"]
  }

  lemma HidingShapes(log: seq<Entry>)
    requires HidingLog(log)
    ensures ShapeOf(log[0].parts) == ["", "a", "b"] && ShapeOf(log[1].parts) == ["", PARAM, "c"]
    ensures SplitLog(log) && Registered(log, ["", PARAM, "c"])
  {
    hide LastAt;
  }

  lemma NoNodeBelow(log: seq<Entry>, k: string)
    requires HidingLog(log) && (k == "c" || k == PARAM)
    ensures !HasNode(log, ["", "a"] + [k])
  {
    hide LastThrough, ShapeOf;
    HidingShapes(log);
    var p := ["", "a"] + [k];
    forall e | e in log ensures !(p <= ShapeOf(e.parts)) {
      assert p[1] == "a" && p[2] == k;
    }
  }

  lemma NodesOnTheWay(log: seq<Entry>)
    requires HidingLog(log)
    ensures HasNode(log, [] + [""]) && HasNode(log, [""] + ["a"])
  {
    hide LastThrough, ShapeOf;
    HidingShapes(log);
    assert [] + [""] <= ShapeOf(log[0].parts) && [""] + ["a"] <= ShapeOf(log[0].parts);
  }

  lemma DeadEnd(log: seq<Entry>)
    requires HidingLog(log)
    ensures Greedy(log, [], ["", "a", "c"], map[]).Miss?
  {
    hide HasNode;
    NodesOnTheWay(log);
    NoNodeBelow(log, "c");
    NoNodeBelow(log, PARAM);
    assert [] + [""] == [""] && [""] + ["a"] == ["", "a"];
    assert ["", "a", "c"][1..] == ["a", "c"] && ["a", "c"][1..] == ["c"];
    assert Greedy(log, [""], ["a", "c"], map[]) == Greedy(log, ["", "a"], ["c"], map[]);
  }

  lemma HiddenRequest(log: seq<Entry>, path: string)
    requires HidingLog(log) && Split(path, '/') == ["", "a", "c"]
    ensures SomeShapeMatches(log, path) && !Served(log, path) && !NoHiddenRoute(log)
  {
    hide NoHiddenRoute, SplitLog, Split, HidingLog;
    DeadEnd(log);
    HidingShapes(log);
    assert Matches(["", PARAM, "c"], ["", "a", "c"]);
    GreedyIsExhaustive(log);
  }

  /**
   * With the routes `/a/b` and `/{x}/c`, the request `/a/c` fits the second one and is not
   * served: the walk takes the static child and ends there.
   */
  lemma HiddenRouteIsMissed(key: nat, other: nat, handler: HandlerFn)
    ensures ValidRoute("/a/b") && ValidRoute("/{x}/c")
    ensures var log := [Entry(key, Split("/a/b", '/'), handler), Entry(other, Split("/{x}/c", '/'), handler)];
            SomeShapeMatches(log, "/a/c") && !Served(log, "/a/c") && !NoHiddenRoute(log)
  {
    hide NoHiddenRoute, Served, SomeShapeMatches, Split, ValidRoute;
    TwoLettersAreValid("/a/b");
    TwoLettersAreValid("/a/c");
    OneParameterIsValid("/{x}/c");
    var log := [Entry(key, Split("/a/b", '/'), handler), Entry(other, Split("/{x}/c", '/'), handler)];
    HiddenRequest(log, "/a/c");
  }
}
