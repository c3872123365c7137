/** Where the greedy walk ends and which parameters it collects, in closed form. */
module Bindings {
  import opened Options
  import opened RoutePattern
  import opened RouteLog
  import opened RouteMatching
  import opened RouteOrder

  /** No static node hides a parameter node of the shape on the way along `parts`. */
  ghost predicate Unhidden(log: seq<Entry>, p: seq<string>, t: seq<string>, parts: seq<string>)
    requires |t| == |parts|
  {
    forall i :: 0 <= i < |t| && t[i] == PARAM ==> !HasNode(log, p + t[..i] + [parts[i]])
  }

  lemma UnhiddenStep(log: seq<Entry>, p: seq<string>, t: seq<string>, parts: seq<string>)
    requires |t| == |parts| > 0
    ensures Unhidden(log, p, t, parts) <==>
            && (t[0] == PARAM ==> !HasNode(log, p + [parts[0]]))
            && Unhidden(log, p + [t[0]], t[1..], parts[1..])
  {
    hide HasNode;
    assert p + t[..0] == p;
    forall i | 1 <= i < |t| ensures p + t[..i] == p + [t[0]] + t[1..][..i - 1] {
      assert t[..i] == [t[0]] + t[1..][..i - 1];
    }
    if Unhidden(log, p, t, parts) {
      forall j | 0 <= j < |t| - 1 && t[1..][j] == PARAM
        ensures !HasNode(log, p + [t[0]] + t[1..][..j] + [parts[1..][j]])
      {
        assert p + t[..j + 1] + [parts[j + 1]] == p + [t[0]] + t[1..][..j] + [parts[1..][j]];
      }
    }
    if Unhidden(log, p + [t[0]], t[1..], parts[1..]) && (t[0] == PARAM ==> !HasNode(log, p + [parts[0]])) {
      forall i | 0 <= i < |t| && t[i] == PARAM ensures !HasNode(log, p + t[..i] + [parts[i]]) {
        if i > 0 {
          assert t[1..][i - 1] == PARAM;
          assert p + t[..i] + [parts[i]] == p + [t[0]] + t[1..][..i - 1] + [parts[1..][i - 1]];
        }
      }
    }
  }

  /** The bindings that the parts of one template give. */
  function Bind(template: seq<string>, parts: seq<string>, params: Params): Params
    requires |template| == |parts|
  {
    if template == [] then params
    else
      Bind(template[1..], parts[1..],
           if IsParamPart(template[0]) then params[ParamName(template[0]) := parts[0]] else params)
  }

  /** The parameter at position `i` has the name `n`. */
  predicate Named(template: seq<string>, i: nat, n: string) {
    i < |template| && IsParamPart(template[i]) && ParamName(template[i]) == n
  }

  /** A name that the template does not use keeps what it had. */
  lemma {:induction false} BindOther(template: seq<string>, parts: seq<string>, params: Params, n: string)
    requires |template| == |parts| && forall i: nat :: !Named(template, i, n)
    ensures n in Bind(template, parts, params) <==> n in params
    ensures n in params ==> Bind(template, parts, params)[n] == params[n]
  {
    if template != [] {
      assert !Named(template, 0, n);
      forall i: nat ensures !Named(template[1..], i, n) {
        assert !Named(template, i + 1, n);
      }
      var params' := if IsParamPart(template[0]) then params[ParamName(template[0]) := parts[0]] else params;
      BindOther(template[1..], parts[1..], params', n);
    }
  }

  /** A name gets the part at the last parameter of that name. */
  lemma {:induction false} BindLast(template: seq<string>, parts: seq<string>, params: Params, i: nat, n: string)
    requires |template| == |parts| && Named(template, i, n) && forall j: nat :: i < j ==> !Named(template, j, n)
    ensures n in Bind(template, parts, params) && Bind(template, parts, params)[n] == parts[i]
    decreases |template|
  {
    var rest := template[1..];
    var params' := if IsParamPart(template[0]) then params[ParamName(template[0]) := parts[0]] else params;
    forall j: nat | j >= i ensures !Named(rest, j, n) {
      assert !Named(template, j + 1, n);
    }
    if i == 0 {
      BindOther(rest, parts[1..], params', n);
    } else {
      BindLast(rest, parts[1..], params', i - 1, n);
    }
  }

  lemma {:induction false} LastNamed(template: seq<string>, i: nat, n: string) returns (j: nat)
    requires Named(template, i, n)
    ensures i <= j && Named(template, j, n) && forall k: nat :: j < k ==> !Named(template, k, n)
    decreases |template| - i
  {
    if k: nat :| i < k && Named(template, k, n) {
      j := LastNamed(template, k, n);
    } else {
      j := i;
    }
  }

  /** From no parameters, each one bound is the part at some parameter of its name. */
  lemma BindSource(template: seq<string>, parts: seq<string>, n: string) returns (i: nat)
    requires |template| == |parts| && n in Bind(template, parts, map[])
    ensures Named(template, i, n) && Bind(template, parts, map[])[n] == parts[i]
  {
    if k: nat :| Named(template, k, n) {
      i := LastNamed(template, k, n);
      BindLast(template, parts, map[], i, n);
    } else {
      BindOther(template, parts, map[], n);
      assert false;
    }
  }

  /** The last part of the node's path, a parameter being written with the name that the log gives it. */
  function SpelledPart(log: seq<Entry>, p: seq<string>): string
    requires p != []
  {
    if HasNode(log, p) && IsParamNode(p) then "{" + NameAt(log, p) + "}" else p[|p| - 1]
  }

  /** The shape `t` below `p` as the latest routes through its nodes spell it. */
  function Spelled(log: seq<Entry>, p: seq<string>, t: seq<string>): (template: seq<string>)
    ensures |template| == |t|
    decreases |t|
  {
    if t == [] then [] else [SpelledPart(log, p + [t[0]])] + Spelled(log, p + [t[0]], t[1..])
  }

  lemma SpelledParam(log: seq<Entry>, p: seq<string>)
    requires HasNode(log, p + [PARAM])
    ensures IsParamPart(SpelledPart(log, p + [PARAM]))
    ensures ParamName(SpelledPart(log, p + [PARAM])) == NameAt(log, p + [PARAM])
  {
  }

  lemma SpelledStatic(log: seq<Entry>, p: seq<string>, k: string)
    requires HasNode(log, p + [k]) && k != PARAM
    ensures SpelledPart(log, p + [k]) == k && !IsParamPart(k)
  {
    var e := LastThrough(log, p + [k]).value;
    assert (p + [k])[|p|] == Normalized(e.parts[|p|]);
  }

  /** The walk gets no further than `p` with the next part. */
  predicate Stuck(log: seq<Entry>, p: seq<string>, part: string) {
    && !(part != PARAM && HasNode(log, p + [part]))
    && !(HasNode(log, p + [PARAM]) && IsParamText(part))
  }

  /**
   * The outcome of a walk from `p` that passes the shape `t`: it has taken `t` because nothing hid
   * it, it holds what the spelled shape binds to the parts passed, and it has either used all the
   * parts or is stuck at the next one.
   */
  ghost predicate Passed(log: seq<Entry>, p: seq<string>, parts: seq<string>, params: Params, t: seq<string>, w: Walk) {
    && |t| <= |parts| && HasNode(log, p + t)
    && Matches(t, parts[..|t|]) && Unhidden(log, p, t, parts[..|t|])
    && w.params == Bind(Spelled(log, p, t), parts[..|t|], params)
    && (w.Hit? ==> |t| == |parts| && w.shape == p + t)
    && (w.Miss? ==> |t| < |parts| && Stuck(log, p + t, parts[|t|]))
  }

  lemma TakeMore(parts: seq<string>, n: nat)
    requires n < |parts|
    ensures parts[..n + 1] == [parts[0]] + parts[1..][..n]
    ensures parts[..n + 1][0] == parts[0] && parts[..n + 1][1..] == parts[1..][..n]
  {
    assert parts[..n + 1] == [parts[0]] + parts[1..][..n];
  }

  lemma MatchesCons(k: string, t: seq<string>, part: string, parts: seq<string>)
    requires SegmentMatches(k, part) && Matches(t, parts)
    ensures Matches([k] + t, [part] + parts)
  {
  }

  lemma PassedMore(log: seq<Entry>, p: seq<string>, parts: seq<string>, params: Params, k: string,
                   t: seq<string>, w: Walk)
    requires parts != [] && HasNode(log, p + [k]) && SegmentMatches(k, parts[0])
    requires k == PARAM ==> !HasNode(log, p + [parts[0]])
    requires var params' := if k == PARAM then params[NameAt(log, p + [k]) := parts[0]] else params;
             Passed(log, p + [k], parts[1..], params', t, w)
    ensures Passed(log, p, parts, params, [k] + t, w)
  {
    hide HasNode, NameAt;
    var u := [k] + t;
    assert p + u == p + [k] + t && u[1..] == t;
    TakeMore(parts, |t|);
    MatchesCons(k, t, parts[0], parts[1..][..|t|]);
    UnhiddenStep(log, p, u, parts[..|u|]);
    if k == PARAM {
      SpelledParam(log, p);
    } else {
      SpelledStatic(log, p, k);
    }
  }

  /** Every walk, for every log: where it ends and what it has collected by then. */
  lemma {:induction false} WalkInClosedForm(log: seq<Entry>, p: seq<string>, parts: seq<string>, params: Params)
    returns (t: seq<string>)
    requires HasNode(log, p)
    ensures Passed(log, p, parts, params, t, Greedy(log, p, parts, params))
    decreases |parts|
  {
    t := [];
    assert p + [] == p;
    if parts != [] && !Stuck(log, p, parts[0]) {
      var k := if parts[0] != PARAM && HasNode(log, p + [parts[0]]) then parts[0] else PARAM;
      var params' := if k == PARAM then params[NameAt(log, p + [k]) := parts[0]] else params;
      if k == PARAM {
        ParamTextIsNotParam(parts[0]);
      }
      t := WalkInClosedForm(log, p + [k], parts[1..], params');
      PassedMore(log, p, parts, params, k, t, Greedy(log, p, parts, params));
      t := [k] + t;
    }
  }

  /** Among the nodes whose shape fits, the walk ends at `p + t` exactly when nothing hides it. */
  lemma {:induction false} GreedyReaches(
      log: seq<Entry>, p: seq<string>, t: seq<string>, parts: seq<string>, params: Params)
    requires HasNode(log, p + t) && Matches(t, parts)
    ensures var w := Greedy(log, p, parts, params); w.Hit? && w.shape == p + t <==> Unhidden(log, p, t, parts)
    decreases |t|
  {
    NodePrefix(log, p, p + t);
    if t == [] {
      assert p + t == p;
    } else {
      assert p + t == p + [t[0]] + t[1..];
      NodePrefix(log, p + [t[0]], p + t);
      UnhiddenStep(log, p, t, parts);
      assert SegmentMatches(t[0], parts[0]);
      if t[0] != PARAM {
        GreedyReaches(log, p + [t[0]], t[1..], parts[1..], params);
      } else {
        ParamTextIsNotParam(parts[0]);
        if HasNode(log, p + [parts[0]]) {
          GreedyFits(log, p + [parts[0]], parts[1..], params);
          var w := Greedy(log, p, parts, params);
          if w.Hit? {
            assert w.shape[|p|] == (p + [parts[0]])[|p|] == parts[0];
            assert (p + t)[|p|] == PARAM;
          }
        } else {
          GreedyReaches(log, p + [PARAM], t[1..], parts[1..], params[NameAt(log, p + [PARAM]) := parts[0]]);
        }
      }
    }
  }

  /** A walk that ends at a node has bound what the spelled shape of the node binds. */
  lemma HitBinds(log: seq<Entry>, parts: seq<string>)
    requires Greedy(log, [], parts, map[]).Hit?
    ensures var w := Greedy(log, [], parts, map[]);
            |w.shape| == |parts| && w.params == Bind(Spelled(log, [], w.shape), parts, map[])
  {
    var t := WalkInClosedForm(log, [], parts, map[]);
    assert [] + t == t && parts[..|t|] == parts;
  }

  /** The latest routes through the template's nodes spell it as it is written. */
  ghost predicate NamesAgree(log: seq<Entry>, template: seq<string>) {
    Spelled(log, [], ShapeOf(template)) == template
  }

  lemma {:induction false} SpelledAt(log: seq<Entry>, p: seq<string>, t: seq<string>, i: nat)
    requires i < |t|
    ensures Spelled(log, p, t)[i] == SpelledPart(log, p + t[..i + 1])
    decreases i
  {
    if i == 0 {
      assert t[..1] == [t[0]];
    } else {
      SpelledAt(log, p + [t[0]], t[1..], i - 1);
      assert p + t[..i + 1] == p + [t[0]] + t[1..][..i];
    }
  }

  lemma AgreementGivesName(log: seq<Entry>, e: Entry, i: nat)
    requires Agreeing(log) && e in log && i < |e.parts| && IsParamPart(e.parts[i])
    ensures var p := ShapeOf(e.parts)[..i + 1];
            HasNode(log, p) && IsParamNode(p) && NameAt(log, p) == ParamName(e.parts[i])
  {
    var p := ShapeOf(e.parts)[..i + 1];
    assert p <= ShapeOf(e.parts) && p[i] == Normalized(e.parts[i]);
    var f := LastThrough(log, p).value;
    assert ShapeOf(f.parts)[..i + 1] == p;
    assert SamePrefix(e, f, i + 1);
  }

  lemma AgreementGivesPart(log: seq<Entry>, e: Entry, i: nat)
    requires Agreeing(log) && e in log && i < |e.parts|
    ensures SpelledPart(log, ShapeOf(e.parts)[..i + 1]) == e.parts[i]
  {
    var p := ShapeOf(e.parts)[..i + 1];
    assert p <= ShapeOf(e.parts) && p[i] == Normalized(e.parts[i]);
    if IsParamPart(e.parts[i]) {
      AgreementGivesName(log, e, i);
      assert e.parts[i] == "{" + ParamName(e.parts[i]) + "}";
    }
  }

  /** Routes that agree on the names of shared parameters give each template its own names. */
  lemma AgreementGivesNames(log: seq<Entry>, e: Entry)
    requires Agreeing(log) && e in log
    ensures NamesAgree(log, e.parts)
  {
    var shape := ShapeOf(e.parts);
    forall i | 0 <= i < |shape| ensures Spelled(log, [], shape)[i] == e.parts[i] {
      SpelledAt(log, [], shape, i);
      AgreementGivesPart(log, e, i);
      assert [] + shape[..i + 1] == shape[..i + 1];
    }
  }
}
