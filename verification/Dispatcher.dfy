/** The dispatcher and its second index (`handlers/global_dispatcher_handler.h`, `routers/route.cc`). */
module Dispatchers {
  import opened StringUtils
  import opened Options
  import opened RoutePattern
  import opened RouteLog
  import opened RouteMatching
  import opened Routers

  /** A `shared_ptr<HandlerBase>`. */
  datatype HandlerPtr = NullHandler | Handler(id: nat)

  datatype Route = Route(key: nat, path: string, handler: HandlerPtr)

  datatype Registration = Registration(path: string, handler: HandlerPtr)

  /** The static member function that every registration hands to the router. */
  const DISPATCHER: HandlerFn := Fn(0)

  /** How `HandleImpl` ends; the two errors are exceptions thrown by `at` and by an empty function. */
  datatype Outcome = NotFound404 | OutOfRange | BadFunctionCall | Dispatched(handler: HandlerPtr, params: Params)

  type Hasher = string -> nat

  function EntryOf(hash: Hasher, r: Registration): Entry {
    Entry(hash(r.path), Split(r.path, '/'), DISPATCHER)
  }

  function LogOf(hash: Hasher, regs: seq<Registration>): (log: seq<Entry>)
    ensures |log| == |regs|
  {
    seq(|regs|, i requires 0 <= i < |regs| => EntryOf(hash, regs[i]))
  }

  /** The first registration that `wanted` holds of. */
  function First(regs: seq<Registration>, wanted: Registration -> bool): (r: Option<Registration>)
    ensures r.Some? ==> r.value in regs && wanted(r.value)
    ensures r.None? ==> forall s :: s in regs ==> !wanted(s)
  {
    if regs == [] then None
    else if wanted(regs[0]) then Some(regs[0])
    else First(regs[1..], wanted)
  }

  function FirstOfKey(hash: Hasher, regs: seq<Registration>, key: nat): Option<Registration> {
    First(regs, (r: Registration) => hash(r.path) == key)
  }

  function FirstOfPath(regs: seq<Registration>, path: string): Option<Registration> {
    First(regs, (r: Registration) => r.path == path)
  }

  /** The latest registration of the shape `p`. */
  function LastOfShape(regs: seq<Registration>, p: seq<string>): (r: Option<Registration>)
    ensures r.Some? ==> r.value in regs && ShapeOf(Split(r.value.path, '/')) == p
  {
    if regs == [] then None
    else if ShapeOf(Split(regs[|regs| - 1].path, '/')) == p then Some(regs[|regs| - 1])
    else LastOfShape(regs[..|regs| - 1], p)
  }

  ghost predicate AllValid(regs: seq<Registration>) {
    forall r :: r in regs ==> ValidRoute(r.path)
  }

  /** `routes_`: one entry per hash, made by the first registration that has it. */
  ghost predicate IndexAgrees(hash: Hasher, routes: map<nat, Route>, regs: seq<Registration>) {
    forall key ::
      match FirstOfKey(hash, regs, key)
      case None => key !in routes
      case Some(r) => key in routes && routes[key] == Route(key, r.path, r.handler)
  }

  lemma {:induction false} FirstOfMore(regs: seq<Registration>, r: Registration, wanted: Registration -> bool)
    ensures First(regs + [r], wanted) ==
            if First(regs, wanted).Some? then First(regs, wanted) else if wanted(r) then Some(r) else None
  {
    if regs != [] {
      assert (regs + [r])[1..] == regs[1..] + [r];
      FirstOfMore(regs[1..], r, wanted);
    }
  }

  lemma IndexGrows(hash: Hasher, routes: map<nat, Route>, regs: seq<Registration>, r: Registration)
    requires IndexAgrees(hash, routes, regs)
    ensures var key := hash(r.path);
            IndexAgrees(
              hash, if key in routes then routes else routes[key := Route(key, r.path, r.handler)], regs + [r])
  {
    var key := hash(r.path);
    var next := if key in routes then routes else routes[key := Route(key, r.path, r.handler)];
    forall k
      ensures match FirstOfKey(hash, regs + [r], k)
              case None => k !in next
              case Some(s) => k in next && next[k] == Route(k, s.path, s.handler)
    {
      var wanted := (s: Registration) => hash(s.path) == k;
      FirstOfMore(regs, r, wanted);
      assert FirstOfKey(hash, regs, k) == First(regs, wanted);
      assert FirstOfKey(hash, regs + [r], k) == First(regs + [r], wanted);
    }
  }

  lemma {:induction false} LastAtOfLog(hash: Hasher, regs: seq<Registration>, p: seq<string>)
    ensures LastAt(LogOf(hash, regs), p) ==
            match LastOfShape(regs, p)
            case None => None
            case Some(r) => Some(EntryOf(hash, r))
  {
    if regs != [] {
      var log := LogOf(hash, regs);
      assert log[..|log| - 1] == LogOf(hash, regs[..|regs| - 1]);
      LastAtOfLog(hash, regs[..|regs| - 1], p);
    }
  }

  /** What a request does, given the registrations: the walk, then the two lookups. */
  function Dispatch(hash: Hasher, regs: seq<Registration>, path: string): Outcome {
    match WalkPath(LogOf(hash, regs), path)
    case Miss(_) => NotFound404
    case Hit(p, params) =>
      match LastOfShape(regs, p)
      case None => if FirstOfKey(hash, regs, 0).None? then OutOfRange else BadFunctionCall
      case Some(latest) =>
        match FirstOfKey(hash, regs, hash(latest.path))
        case None => OutOfRange
        case Some(r) => Dispatched(r.handler, params)
  }

  class GlobalDispatcherHandler {
    const hasher: Hasher
    const router: Router
    var routes: map<nat, Route>
    /** The successful registrations, in order. */
    ghost var regs: seq<Registration>

    /** The two indexes and the registrations tell one story. */
    ghost predicate Valid()
      reads this, router, router.repr
    {
      && router.Valid()
      && router.log == LogOf(hasher, regs)
      && IndexAgrees(hasher, routes, regs)
      && AllValid(regs)
    }

    constructor (hasher: Hasher)
      ensures Valid() && regs == [] && this.hasher == hasher
      ensures fresh(router) && fresh(router.repr)
    {
      this.hasher := hasher;
      router := new Router();
      routes := map[];
      regs := [];
    }

    /** `routes_.emplace`: an entry that is already there stays. */
    method Emplace(key: nat, path: string, handler: HandlerPtr)
      requires key == hasher(path) && IndexAgrees(hasher, routes, regs)
      modifies `routes, `regs
      ensures IndexAgrees(hasher, routes, regs) && regs == old(regs) + [Registration(path, handler)]
    {
      IndexGrows(hasher, routes, regs, Registration(path, handler));
      if key !in routes {
        routes := routes[key := Route(key, path, handler)];
      }
      regs := regs + [Registration(path, handler)];
    }

    /** A rejected path is an exception that leaves both indexes alone. */
    method RegisterRouteHandler(path: string, handler: HandlerPtr) returns (accepted: bool)
      requires Valid()
      modifies this, router, router.repr
      ensures Valid() && fresh(router.repr - old(router.repr))
      ensures accepted <==> ValidRoute(path)
      ensures regs == if accepted then old(regs) + [Registration(path, handler)] else old(regs)
      ensures !accepted ==> routes == old(routes) && router.nodes == old(router.nodes)
    {
      hide Router.Valid, IndexAgrees, ValidRoute;
      var key := hasher(path);
      accepted := router.AddRoute(key, path, DISPATCHER);
      if accepted {
        Emplace(key, path, handler);
      }
    }

    method HandleImpl(path: string) returns (outcome: Outcome)
      requires Valid()
      ensures outcome == NotFound404 <==> WalkPath(LogOf(hasher, regs), path).Miss?
      ensures outcome == Dispatch(hasher, regs, path)
    {
      var result, params := router.MatchRoute(path, map[]);
      if result.IsEmpty() {
        return NotFound404;
      }
      ghost var p := WalkPath(router.log, path).shape;
      LastAtOfLog(hasher, regs, p);
      if result.node.key !in routes {
        return OutOfRange;
      }
      var handler := routes[result.node.key].handler;
      if result.node.handler == NullFn {
        return BadFunctionCall;
      }
      return Dispatched(handler, params);
    }
  }

  /**
   * The second index holds exactly the hashes of the registered paths, and the key of every node that
   * carries a handler.
   */
  lemma IndexesAgree(hash: Hasher, routes: map<nat, Route>, regs: seq<Registration>, key: nat, p: seq<string>)
    requires IndexAgrees(hash, routes, regs)
    ensures key in routes <==> exists r :: r in regs && hash(r.path) == key
    ensures key in routes ==> routes[key].key == key == hash(routes[key].path)
    ensures Registered(LogOf(hash, regs), p) ==> LastAt(LogOf(hash, regs), p).value.key in routes
  {
    var found := FirstOfKey(hash, regs, key);
    LastAtOfLog(hash, regs, p);
    if Registered(LogOf(hash, regs), p) {
      var latest := LastOfShape(regs, p).value;
      assert FirstOfKey(hash, regs, hash(latest.path)).Some?;
    }
  }

  /** No two registered paths share a hash. */
  ghost predicate CollisionFree(hash: Hasher, regs: seq<Registration>) {
    forall r, s | r in regs && s in regs :: hash(r.path) == hash(s.path) ==> r.path == s.path
  }

  lemma {:induction false} SameFirst(regs: seq<Registration>, f: Registration -> bool, g: Registration -> bool)
    requires forall r :: r in regs ==> f(r) == g(r)
    ensures First(regs, f) == First(regs, g)
  {
    if regs != [] {
      assert regs[0] in regs;
      SameFirst(regs[1..], f, g);
    }
  }

  lemma {:induction false} KeyIsPath(hash: Hasher, regs: seq<Registration>, path: string)
    requires forall r | r in regs :: hash(r.path) == hash(path) ==> r.path == path
    ensures FirstOfKey(hash, regs, hash(path)) == FirstOfPath(regs, path)
  {
    var byKey, byPath := (r: Registration) => hash(r.path) == hash(path), (r: Registration) => r.path == path;
    SameFirst(regs, byKey, byPath);
    assert FirstOfKey(hash, regs, hash(path)) == First(regs, byKey);
    assert FirstOfPath(regs, path) == First(regs, byPath);
  }

  /**
   * Where the walk ends at a handler-carrying node, the handler that runs is the one that was
   * registered first under `P`, where `P` is the latest path registered with the matched shape.
   */
  lemma LatestPathFirstHandler(hash: Hasher, regs: seq<Registration>, path: string)
    requires CollisionFree(hash, regs) && Served(LogOf(hash, regs), path)
    ensures var w := WalkPath(LogOf(hash, regs), path);
            && LastOfShape(regs, w.shape).Some?
            && FirstOfPath(regs, LastOfShape(regs, w.shape).value.path).Some?
            && Dispatch(hash, regs, path) ==
               Dispatched(FirstOfPath(regs, LastOfShape(regs, w.shape).value.path).value.handler, w.params)
  {
    var w := WalkPath(LogOf(hash, regs), path);
    LastAtOfLog(hash, regs, w.shape);
    KeyIsPath(hash, regs, LastOfShape(regs, w.shape).value.path);
  }

  /**
   * A new registration takes effect on the requests that end at its shape exactly when its path
   * is new or was first registered with the same handler: the router keeps the last key, but
   * `emplace` keeps the first route.
   */
  lemma ReRegistration(hash: Hasher, regs: seq<Registration>, r: Registration, path: string)
    requires CollisionFree(hash, regs + [r])
    requires var w := WalkPath(LogOf(hash, regs + [r]), path); w.Hit? && w.shape == ShapeOf(Split(r.path, '/'))
    ensures Dispatch(hash, regs + [r], path) == Dispatched(r.handler, WalkPath(LogOf(hash, regs + [r]), path).params)
            <==> match FirstOfPath(regs, r.path) case None => true case Some(s) => s.handler == r.handler
  {
    var all := regs + [r];
    var w := WalkPath(LogOf(hash, all), path);
    assert LastOfShape(all, w.shape) == Some(r);
    LastAtOfLog(hash, all, w.shape);
    LatestPathFirstHandler(hash, all, path);
    var wanted := (s: Registration) => s.path == r.path;
    FirstOfMore(regs, r, wanted);
    assert FirstOfPath(all, r.path) == First(all, wanted);
    assert FirstOfPath(regs, r.path) == First(regs, wanted);
  }

  predicate Throws(outcome: Outcome) {
    outcome == OutOfRange || outcome == BadFunctionCall
  }

  /** One request throws exactly when its walk ends at a node that no registration has the shape of. */
  lemma ThrowsExactly(hash: Hasher, regs: seq<Registration>, path: string)
    ensures var log := LogOf(hash, regs);
            Throws(Dispatch(hash, regs, path)) <==> WalkPath(log, path).Hit? && !Served(log, path)
  {
    var w := WalkPath(LogOf(hash, regs), path);
    if w.Hit? {
      LastAtOfLog(hash, regs, w.shape);
      if LastOfShape(regs, w.shape).Some? {
        var latest := LastOfShape(regs, w.shape).value;
        assert latest in regs;
        assert FirstOfKey(hash, regs, hash(latest.path)).Some?;
      }
    }
  }

  lemma HasKeyExactly(hash: Hasher, regs: seq<Registration>, key: nat)
    ensures FirstOfKey(hash, regs, key).Some? <==> exists r :: r in regs && hash(r.path) == key
  {
    if r :| r in regs && hash(r.path) == key {
      assert FirstOfKey(hash, regs, key).Some?;
    }
  }

  lemma LatestIsFound(hash: Hasher, regs: seq<Registration>, p: seq<string>)
    requires LastOfShape(regs, p).Some?
    ensures FirstOfKey(hash, regs, hash(LastOfShape(regs, p).value.path)).Some?
  {
    HasKeyExactly(hash, regs, hash(LastOfShape(regs, p).value.path));
  }

  /**
   * How each request ends: 404 exactly when the walk fails; with a handler exactly when it ends at a
   * node that ends a route; at any other node with the exception that the default key 0 decides.
   */
  lemma OutcomeExactly(hash: Hasher, regs: seq<Registration>, path: string)
    ensures var log, outcome := LogOf(hash, regs), Dispatch(hash, regs, path);
            && (outcome == NotFound404 <==> WalkPath(log, path).Miss?)
            && (outcome.Dispatched? <==> Served(log, path))
            && (outcome == OutOfRange <==>
                  WalkPath(log, path).Hit? && !Served(log, path) && forall r :: r in regs ==> hash(r.path) != 0)
            && (outcome == BadFunctionCall <==>
                  WalkPath(log, path).Hit? && !Served(log, path) && exists r :: r in regs && hash(r.path) == 0)
  {
    hide LastAt, LastOfShape, FirstOfKey, LogOf, Greedy, Split;
    var w := WalkPath(LogOf(hash, regs), path);
    HasKeyExactly(hash, regs, 0);
    if w.Hit? {
      LastAtOfLog(hash, regs, w.shape);
      if LastOfShape(regs, w.shape).Some? {
        LatestIsFound(hash, regs, w.shape);
      }
    }
  }

  lemma {:induction false} FirstIndex(regs: seq<Registration>, wanted: Registration -> bool) returns (i: nat)
    requires First(regs, wanted).Some?
    ensures i < |regs| && First(regs, wanted).value == regs[i] && wanted(regs[i])
    ensures forall j :: 0 <= j < i ==> !wanted(regs[j])
  {
    if wanted(regs[0]) {
      i := 0;
    } else {
      i := FirstIndex(regs[1..], wanted);
      assert regs[1..][i] == regs[i + 1];
      forall j | 0 <= j < i + 1 ensures !wanted(regs[j]) {
        assert j > 0 ==> regs[1..][j - 1] == regs[j];
      }
      i := i + 1;
    }
  }

  lemma FirstOfKeyIndex(hash: Hasher, regs: seq<Registration>, key: nat) returns (i: nat)
    requires FirstOfKey(hash, regs, key).Some?
    ensures i < |regs| && FirstOfKey(hash, regs, key).value == regs[i] && hash(regs[i].path) == key
    ensures forall j :: 0 <= j < i ==> hash(regs[j].path) != key
  {
    i := FirstIndex(regs, (r: Registration) => hash(r.path) == key);
  }

  /**
   * Collisions or not, the handler that runs is the one of the first registration whose hash is the
   * key at the matched node, and it gets the parameters of the walk.
   */
  lemma FirstOfHashRuns(hash: Hasher, regs: seq<Registration>, path: string) returns (i: nat)
    requires Served(LogOf(hash, regs), path)
    ensures var log := LogOf(hash, regs); var w := WalkPath(log, path);
            && i < |regs| && hash(regs[i].path) == LastAt(log, w.shape).value.key
            && (forall j :: 0 <= j < i ==> hash(regs[j].path) != hash(regs[i].path))
            && Dispatch(hash, regs, path) == Dispatched(regs[i].handler, w.params)
  {
    hide LastAt, LastOfShape, FirstOfKey, LogOf, Greedy, Split;
    var w := WalkPath(LogOf(hash, regs), path);
    LastAtOfLog(hash, regs, w.shape);
    LatestIsFound(hash, regs, w.shape);
    i := FirstOfKeyIndex(hash, regs, hash(LastOfShape(regs, w.shape).value.path));
  }

  /** Each prefix of a registered shape that has at least `n` parts is itself registered. */
  ghost predicate PrefixClosed(log: seq<Entry>, n: nat) {
    forall p :: HasNode(log, p) && |p| >= n ==> Registered(log, p)
  }

  lemma LogIsSplit(hash: Hasher, regs: seq<Registration>)
    ensures SplitLog(LogOf(hash, regs))
  {
    forall e | e in LogOf(hash, regs) ensures |e.parts| >= 1 && DelimiterFree(e.parts, '/') {
      var j :| 0 <= j < |regs| && e == EntryOf(hash, regs[j]);
      SplitIsDelimiterFree(regs[j].path, '/');
    }
  }

  /**
   * No request of at least `n` parts throws exactly when every trie node that deep ends a route.
   * Request paths start with a slash, so for them `n` is 2.
   */
  lemma NeverThrows(hash: Hasher, regs: seq<Registration>, n: nat)
    requires n >= 1
    ensures (forall path :: |Split(path, '/')| >= n ==> !Throws(Dispatch(hash, regs, path)))
            <==> PrefixClosed(LogOf(hash, regs), n)
  {
    var log := LogOf(hash, regs);
    if PrefixClosed(log, n) {
      forall path | |Split(path, '/')| >= n ensures !Throws(Dispatch(hash, regs, path)) {
        ThrowsExactly(hash, regs, path);
        GreedyFits(log, [], Split(path, '/'), map[]);
        var w := WalkPath(log, path);
        assert w.Hit? ==> w.shape[0..] == w.shape;
      }
    }
    LogIsSplit(hash, regs);
    if forall path :: |Split(path, '/')| >= n ==> !Throws(Dispatch(hash, regs, path)) {
      forall p | HasNode(log, p) && |p| >= n ensures Registered(log, p) {
        var path := PathToNode(log, p);
        ThrowsExactly(hash, regs, path);
      }
    }
  }

  lemma SlashedIsValid(segments: seq<string>, path: string)
    requires (segments == ["a", "b"] && path == "/a/b") || (segments == ["a"] && path == "/a")
    ensures ValidRoute(path) && Split(path, '/') == [""] + segments
  {
    assert GoodSegment("a") && GoodSegment("b") && GoodSegments(segments);
    assert ["a", "b"][1..] == ["b"] && ["b"][1..] == [] && ["a"][1..] == [];
    assert Slashed(segments) == path;
    SlashedMatches(segments);
    NoBraces(path);
  }

  lemma ShortWalk(log: seq<Entry>)
    requires |log| == 1 && log[0].parts == ["", "a", "b"]
    ensures Greedy(log, [], [""] + ["a"], map[]) == Hit(["", "a", "b"][..2], map[])
    ensures !Registered(log, ["", "a", "b"][..2])
  {
    assert ShapeOf(log[0].parts) == ["", "a", "b"];
    assert [""] + ["a"] == ["", "a"];
    var shape := ["", "a", "b"];
    assert [] + [""] == shape[..1] && shape[..1] + ["a"] == shape[..2];
    assert ["", "a"][1..] == ["a"] && ["a"][1..] == [];
    assert HasNode(log, shape[..1]) && HasNode(log, shape[..2]);
    assert Greedy(log, shape[..1], ["a"], map[]) == Greedy(log, shape[..2], [], map[]);
  }

  /** The request path `/a` throws when `/a/b` is the only route. */
  lemma PrefixRequestThrows(hash: Hasher)
    ensures AllValid([Registration("/a/b", Handler(1))])
    ensures Throws(Dispatch(hash, [Registration("/a/b", Handler(1))], "/a"))
  {
    SlashedIsValid(["a", "b"], "/a/b");
    SlashedIsValid(["a"], "/a");
    var regs := [Registration("/a/b", Handler(1))];
    var log := LogOf(hash, regs);
    assert log[0].parts == [""] + ["a", "b"] == ["", "a", "b"];
    ShortWalk(log);
    ThrowsExactly(hash, regs, "/a");
  }
}
