/** The route trie (`routers/router.cc`, `routers/router_node.h`). */
module Routers {
  import opened StringUtils
  import opened Options
  import opened Paths
  import opened RoutePattern
  import opened RouteLog
  import opened RouteMatching
  import opened RouteOrder
  import opened TrieViews

  datatype NodeType = StaticNode | ParameterNode

  /** A default-constructed `std::regex` matches nothing; parameter nodes get the word pattern. */
  datatype ParamRegex = UnsetRegex | WordRegex

  predicate RegexMatches(regex: ParamRegex, part: string) {
    regex == WordRegex && IsParamText(part)
  }

  class RouterNode {
    var children: map<string, RouterNode>
    var handler: HandlerFn
    var nodeType: NodeType
    var paramName: string
    var paramRegex: ParamRegex
    var key: nat
    /** Where in the trie the node is; a node never moves. */
    ghost const place: seq<string>

    /** `make_unique<RouterNode>()` value-initialises: the key is 0 and the handler is empty. */
    constructor (ghost place: seq<string>)
      ensures this.place == place
      ensures children == map[] && handler == NullFn && nodeType == StaticNode
      ensures paramName == "" && paramRegex == UnsetRegex && key == 0
    {
      children := map[];
      handler, nodeType := NullFn, StaticNode;
      paramName, paramRegex, key := "", UnsetRegex, 0;
      this.place := place;
    }

    /** The type and name that a route gives the nodes it passes. */
    method SetLabel(normalizedPart: string, part: string)
      requires normalizedPart == Normalized(part)
      modifies `nodeType, `paramName, `paramRegex
      ensures if IsParamPart(part)
              then nodeType == ParameterNode && paramName == ParamName(part) && paramRegex == WordRegex
              else nodeType == StaticNode
    {
      if normalizedPart == PARAM {
        paramName := part[1..|part| - 1];
        paramRegex := WordRegex;
        nodeType := ParameterNode;
      } else {
        nodeType := StaticNode;
      }
    }
  }

  /** What `MatchRoute` points into: the node reached, or nothing. */
  datatype RouterMatchResult = NullResult | NodeResult(node: RouterNode) {
    predicate IsEmpty() {
      NullResult?
    }
  }

  class Router {
    const root: RouterNode
    /** The accepted routes, in order. */
    ghost var log: seq<Entry>
    /** The node at each trie path. */
    ghost var nodes: map<seq<string>, RouterNode>
    /** All nodes of the trie. */
    ghost var repr: set<RouterNode>
    /** What each node holds. */
    ghost var view: TrieView

    /** The children of the node at `p` are the nodes one part further. */
    static ghost predicate LinkedAt(node: RouterNode, nodes: map<seq<string>, RouterNode>, p: seq<string>)
      reads node`children
    {
      && node.place == p
      && (forall k {:trigger k in node.children} {:trigger p + [k] in nodes} ::
            k in node.children <==> p + [k] in nodes)
      && (forall k {:trigger node.children[k]} :: k in node.children ==> node.children[k] == nodes[p + [k]])
    }

    /** The links spell the paths of the nodes. */
    ghost predicate Linked()
      reads this`nodes, this`repr, repr`children
    {
      && [] in nodes && nodes[[]] == root
      && (forall p, k {:trigger p + [k] in nodes} :: p + [k] in nodes ==> p in nodes)
      && (forall p :: p in nodes ==> nodes[p] in repr && LinkedAt(nodes[p], nodes, p))
    }

    /** The node's own fields, apart from its children. */
    static ghost predicate Shows(node: RouterNode, view: NodeView)
      reads node`key, node`handler, node`nodeType, node`paramName, node`paramRegex
    {
      && node.key == view.key && node.handler == view.handler
      && match view.tag
         case Static => node.nodeType == StaticNode
         case Parameter(name) =>
           node.nodeType == ParameterNode && node.paramRegex == WordRegex && node.paramName == name
    }

    ghost predicate Represents(view: TrieView)
      reads this`nodes, this`repr, repr
    {
      && Linked()
      && nodes.Keys == view.Keys
      && (forall p :: p in nodes ==> Shows(nodes[p], view[p]))
    }

    ghost predicate Valid()
      reads this, repr
    {
      Represents(view) && Agrees(view, log, log) && AcceptedLog(log)
    }

    constructor ()
      ensures Valid() && log == [] && fresh(repr)
    {
      var node := new RouterNode([]);
      root := node;
      log := [];
      nodes := map[[] := node];
      repr := {node};
      view := map[[] := NodeView(0, NullFn, Static)];
    }

    /** The made node is the child of the node at `p` for `k`. */
    method Attach(node: RouterNode, made: RouterNode, k: string, ghost p: seq<string>)
      requires Linked() && p in nodes && node == nodes[p] && k !in node.children
      requires made !in repr && made.place == p + [k] && made.children == map[]
      modifies this`nodes, this`repr, node`children
      ensures Linked() && nodes == old(nodes)[p + [k] := made] && repr == old(repr) + {made}
    {
      assert LinkedAt(node, nodes, p);
      node.children := node.children[k := made];
      nodes := nodes[p + [k] := made];
      repr := repr + {made};
      forall q, j | q + [j] in nodes ensures q in nodes {
        AppendIsInjective(q, j, p, k);
      }
      forall q | q in nodes ensures LinkedAt(nodes[q], nodes, q) {
        assert q in old(nodes) ==> old(LinkedAt(nodes[q], nodes, q));
        forall j ensures j in nodes[q].children <==> q + [j] in nodes {
          AppendIsInjective(q, j, p, k);
        }
      }
    }

    lemma ChildIsLinked(node: RouterNode, k: string, p: seq<string>)
      requires Linked() && p in nodes && node == nodes[p]
      ensures k in node.children <==> p + [k] in nodes
      ensures k in node.children ==> node.children[k] == nodes[p + [k]]
    {
      assert LinkedAt(node, nodes, p);
    }

    /** The child of `node` for `k`, which is made when missing. */
    method ChildOf(node: RouterNode, k: string, ghost p: seq<string>) returns (child: RouterNode)
      requires Linked() && p in nodes && node == nodes[p]
      modifies this`nodes, this`repr, node`children
      ensures Linked() && p + [k] in nodes && child == nodes[p + [k]]
      ensures nodes == if p + [k] in old(nodes) then old(nodes) else old(nodes)[p + [k] := child]
      ensures fresh(repr - old(repr))
      ensures p + [k] !in old(nodes) ==>
                fresh(child) && child.handler == NullFn && child.key == 0 && child.nodeType == StaticNode
    {
      hide Linked;
      ChildIsLinked(node, k, p);
      if k !in node.children {
        var made := new RouterNode(p + [k]);
        Attach(node, made, k, p);
      }
      ChildIsLinked(node, k, p);
      child := node.children[k];
    }

    lemma Distinct(p: seq<string>, q: seq<string>)
      requires Linked() && p in nodes && q in nodes && p != q
      ensures nodes[p] != nodes[q]
    {
      assert LinkedAt(nodes[p], nodes, p) && LinkedAt(nodes[q], nodes, q);
    }

    /** One turn of the insertion loop: step to the child for `part` and set its type and name. */
    method Descend(node: RouterNode, part: string, ghost p: seq<string>) returns (child: RouterNode)
      requires Linked() && p in nodes && node == nodes[p]
      modifies this`nodes, this`repr, node`children, repr`nodeType, repr`paramName, repr`paramRegex
      ensures Linked() && p + [Normalized(part)] in nodes && child == nodes[p + [Normalized(part)]]
      ensures nodes == if p + [Normalized(part)] in old(nodes) then old(nodes)
                       else old(nodes)[p + [Normalized(part)] := child]
      ensures fresh(repr - old(repr))
      ensures p + [Normalized(part)] !in old(nodes) ==> fresh(child) && child.key == 0 && child.handler == NullFn
      ensures forall q :: q in old(nodes) && q != p + [Normalized(part)] ==>
                && nodes[q].nodeType == old(nodes[q].nodeType) && nodes[q].paramName == old(nodes[q].paramName)
                && nodes[q].paramRegex == old(nodes[q].paramRegex)
      ensures if IsParamPart(part)
              then
                && child.nodeType == ParameterNode && child.paramName == ParamName(part)
                && child.paramRegex == WordRegex
              else child.nodeType == StaticNode
    {
      var normalizedPart := part;
      if IsParamPart(normalizedPart) {
        normalizedPart := PARAM;
      }
      child := ChildOf(node, normalizedPart, p);
      forall q | q in old(nodes) && q != p + [normalizedPart] ensures nodes[q] != child {
        Distinct(q, p + [normalizedPart]);
      }
      child.SetLabel(normalizedPart, part);
    }

    /** A turn of the loop touches one node. */
    method AddPart(node: RouterNode, part: string, ghost p: seq<string>,
        ghost view: TrieView) returns (child: RouterNode)
      requires Represents(view) && p in nodes && node == nodes[p]
      modifies this`nodes, this`repr, node`children, repr`nodeType, repr`paramName, repr`paramRegex
      ensures Represents(Touch(view, p, part)) && fresh(repr - old(repr))
      ensures p + [Normalized(part)] in nodes && child == nodes[p + [Normalized(part)]] && child in repr
    {
      hide Linked, Normalized, IsParamPart;
      ghost var q, after := p + [Normalized(part)], Touch(view, p, part);
      child := Descend(node, part, p);
      forall r | r in nodes ensures Shows(nodes[r], after[r]) {
        if r != q {
          assert r in old(nodes) && after[r] == view[r];
          assert old(Shows(nodes[r], view[r]));
        } else if r in old(nodes) {
          assert old(Shows(nodes[r], view[r]));
        }
      }
    }

    method Store(node: RouterNode, key: nat, handler: HandlerFn, ghost p: seq<string>, ghost before: TrieView)
      requires Represents(before) && p in nodes && node == nodes[p]
      modifies node`key, node`handler
      ensures Represents(before[p := before[p].(key := key, handler := handler)])
    {
      forall q | q in nodes && q != p ensures nodes[q] != node {
        Distinct(p, q);
      }
      node.key := key;
      node.handler := handler;
    }

    lemma RootIsThere(view: TrieView)
      requires Represents(view)
      ensures [] in view && [] in nodes && nodes[[]] == root && root in repr
    {
    }

    /** The insertion loop. */
    method AddParts(endpointParts: seq<string>, ghost before: TrieView) returns (node: RouterNode)
      requires Represents(before) && [] in before
      modifies this`nodes, this`repr, repr`children, repr`nodeType, repr`paramName, repr`paramRegex
      ensures Represents(TouchAll(before, endpointParts))
      ensures fresh(repr - old(repr))
      ensures ShapeOf(endpointParts) in nodes && node == nodes[ShapeOf(endpointParts)]
    {
      hide Linked, Represents, TouchAll, ShapeOf, Normalized;
      node := root;
      var i := 0;
      RootIsThere(before);
      NothingTouched(before, endpointParts);
      while i < |endpointParts|
        invariant 0 <= i <= |endpointParts|
        invariant Represents(TouchAll(before, endpointParts[..i]))
        invariant fresh(repr - old(repr)) && node in repr
        invariant ShapeOf(endpointParts[..i]) in nodes && node == nodes[ShapeOf(endpointParts[..i])]
      {
        TouchOneMore(before, endpointParts, i);
        node := AddPart(node, endpointParts[i], ShapeOf(endpointParts[..i]), TouchAll(before, endpointParts[..i]));
        i := i + 1;
      }
      assert endpointParts[..i] == endpointParts;
    }

    /** The new route's nodes, then its key and handler. */
    method Insert(key: nat, endpointParts: seq<string>, handler: HandlerFn, ghost before: TrieView,
        ghost next: TrieView)
      requires Represents(before) && [] in before && next == Added(before, Entry(key, endpointParts, handler))
      modifies this`nodes, this`repr, repr
      ensures Represents(next) && fresh(repr - old(repr))
    {
      var node := AddParts(endpointParts, before);
      Store(node, key, handler, ShapeOf(endpointParts), TouchAll(before, endpointParts));
    }

    /** `AddRoute` once the path is accepted and split. */
    method AddParsed(key: nat, endpointParts: seq<string>, handler: HandlerFn)
      requires Valid() && AcceptedParts(endpointParts)
      modifies this, repr
      ensures Valid() && fresh(repr - old(repr))
      ensures log == old(log) + [Entry(key, endpointParts, handler)]
    {
      hide Linked, Represents, Agrees, AcceptedLog, Added, AcceptedParts;
      ghost var e := Entry(key, endpointParts, handler);
      RootIsThere(view);
      AcceptedMore(log, e);
      ghost var next := Added(view, e);
      AddedAgrees(view, log, e);
      view := next;
      log := log + [e];
      Insert(key, endpointParts, handler, old(view), next);
    }

    /** The parts of an accepted path: cleaning has nothing to remove. */
    method CleanParts(path: string) returns (endpointParts: seq<string>)
      requires ValidRoute(path)
      ensures endpointParts == Split(path, '/') && AcceptedParts(endpointParts)
    {
      var collector := new PartCollector();
      SplitStringEach(path, '/', collector);
      endpointParts := collector.parts;
      if |endpointParts| == 0 {
        endpointParts := [""];
      }
      ghost var segments := ValidRouteParts(path);
    }

    /**
     * `AddRoute`: a rejected path changes nothing, and an accepted one extends the log by one
     * route, with which the whole trie then agrees.
     */
    method AddRoute(key: nat, path: string, handler: HandlerFn) returns (accepted: bool)
      requires Valid()
      modifies this, repr
      ensures Valid() && fresh(repr - old(repr))
      ensures accepted <==> ValidRoute(path)
      ensures log == if accepted then old(log) + [Entry(key, Split(path, '/'), handler)] else old(log)
      ensures !accepted ==> nodes == old(nodes) && view == old(view)
    {
      accepted := IsValidRoute(path);
      if !accepted {
        return;
      }
      var endpointParts := CleanParts(path);
      AddParsed(key, endpointParts, handler);
    }

    /** A node has a child for `k` just when the log has a node there, static unless `k` is the parameter key. */
    lemma ChildFacts(p: seq<string>, k: string)
      requires Valid() && p in nodes
      ensures k in nodes[p].children <==> HasNode(log, p + [k])
      ensures k in nodes[p].children ==> p + [k] in nodes && nodes[p].children[k] == nodes[p + [k]]
      ensures k in nodes[p].children && k != PARAM ==> nodes[p + [k]].nodeType == StaticNode
      ensures k in nodes[p].children && k == PARAM ==>
                && nodes[p + [k]].nodeType == ParameterNode && nodes[p + [k]].paramRegex == WordRegex
                && nodes[p + [k]].paramName == NameAt(log, p + [k])
    {
      assert LinkedAt(nodes[p], nodes, p);
      if k in nodes[p].children {
        assert Shows(nodes[p + [k]], view[p + [k]]);
        assert LabelAgrees(view[p + [k]].tag, log, p + [k]);
      }
    }

    /**
     * `MatchRoute` does what the greedy walk over the log does: it fails with the same
     * parameters, or ends at the node of the same path with the same parameters.
     */
    method MatchRoute(path: string, given: Params) returns (result: RouterMatchResult, params: Params)
      requires Valid()
      ensures match Greedy(log, [], Split(path, '/'), given)
              case Miss(ps) => result.IsEmpty() && params == ps
              case Hit(p, ps) =>
                && p in nodes && result == NodeResult(nodes[p]) && params == ps
                && FillAgrees(NodeView(result.node.key, result.node.handler, Static), log, p)
    {
      var endpointParts := SplitString(path, '/');
      params := given;
      var node := root;
      ghost var p := [];
      var i := 0;
      while i < |endpointParts|
        invariant 0 <= i <= |endpointParts|
        invariant p in nodes && node == nodes[p]
        invariant Greedy(log, [], endpointParts, given) == Greedy(log, p, endpointParts[i..], params)
      {
        var part := endpointParts[i];
        ChildFacts(p, part);
        ChildFacts(p, PARAM);
        if part in node.children && node.children[part].nodeType == StaticNode {
          node := node.children[part];
          p := p + [part];
        } else {
          if PARAM in node.children && node.children[PARAM].nodeType == ParameterNode {
            node := node.children[PARAM];
            p := p + [PARAM];
            if !RegexMatches(node.paramRegex, part) {
              return NullResult, params;
            }
            params := params[node.paramName := part];
          } else {
            return NullResult, params;
          }
        }
        i := i + 1;
      }
      result := NodeResult(node);
      assert FillAgrees(view[p], log, p);
    }

    /**
     * The laws of the log hold of every valid router: when it serves all fitting requests, and
     * when the order of registration is irrelevant to its answers.
     */
    lemma LawsHold()
      requires Valid()
      ensures SplitLog(log)
      ensures (forall path :: Served(log, path) <==> SomeShapeMatches(log, path)) <==> NoHiddenRoute(log)
      ensures OrderFree(log) <==> Agreeing(log)
    {
      hide SplitLog, NoHiddenRoute, OrderFree, Agreeing, AcceptedLog, Served, SomeShapeMatches;
      AcceptedIsSplit(log);
      GreedyIsExhaustive(log);
      OrderIsIrrelevant(log);
    }

    /** No node of a valid router is out of reach. */
    lemma NodeIsReached(p: seq<string>) returns (path: string)
      requires Valid() && p in nodes && p != []
      ensures WalkPath(log, path).Hit? && WalkPath(log, path).shape == p
    {
      LawsHold();
      path := PathToNode(log, p);
    }
  }
}
