/** The successful `AddRoute` calls, in order, and the greedy walk written directly over them. */
module RouteLog {
  import opened Options
  import opened RoutePattern

  /** A `std::function`: empty, or one that can be called. */
  datatype HandlerFn = NullFn | Fn(id: nat)

  datatype Entry = Entry(key: nat, parts: seq<string>, handler: HandlerFn)

  /** The key that every `{name}` segment shares. */
  const PARAM: string := "{}"

  predicate IsParamPart(part: string) {
    part != "" && part[0] == '{' && part[|part| - 1] == '}'
  }

  function ParamName(part: string): string
    requires IsParamPart(part)
  {
    part[1..|part| - 1]
  }

  function Normalized(part: string): string {
    if IsParamPart(part) then PARAM else part
  }

  /** The trie path of a route. */
  function ShapeOf(parts: seq<string>): (shape: seq<string>)
    ensures |shape| == |parts|
  {
    seq(|parts|, i requires 0 <= i < |parts| => Normalized(parts[i]))
  }

  /** The latest route of exactly the shape `p`. */
  function LastAt(log: seq<Entry>, p: seq<string>): (e: Option<Entry>)
    ensures e.Some? ==> e.value in log && ShapeOf(e.value.parts) == p
    ensures e.None? ==> forall f :: f in log ==> ShapeOf(f.parts) != p
  {
    if log == [] then None
    else if ShapeOf(log[|log| - 1].parts) == p then Some(log[|log| - 1])
    else LastAt(log[..|log| - 1], p)
  }

  /** The latest route whose shape starts with `p`. */
  function LastThrough(log: seq<Entry>, p: seq<string>): (e: Option<Entry>)
    ensures e.Some? ==> e.value in log && p <= ShapeOf(e.value.parts)
    ensures e.None? ==> forall f :: f in log ==> !(p <= ShapeOf(f.parts))
  {
    if log == [] then None
    else if p <= ShapeOf(log[|log| - 1].parts) then Some(log[|log| - 1])
    else LastThrough(log[..|log| - 1], p)
  }

  predicate Registered(log: seq<Entry>, p: seq<string>) {
    LastAt(log, p).Some?
  }

  /** The trie holds a node at `p`: the root, or a prefix of a registered shape. */
  predicate HasNode(log: seq<Entry>, p: seq<string>) {
    p == [] || LastThrough(log, p).Some?
  }

  predicate IsParamNode(p: seq<string>) {
    p != [] && p[|p| - 1] == PARAM
  }

  /** The name of the parameter node at `p`, as the latest route through it spells it. */
  function NameAt(log: seq<Entry>, p: seq<string>): string
    requires HasNode(log, p) && IsParamNode(p)
  {
    var parts := LastThrough(log, p).value.parts;
    assert p[|p| - 1] == Normalized(parts[|p| - 1]);
    if IsParamPart(parts[|p| - 1]) then ParamName(parts[|p| - 1]) else ""
  }

  lemma NodeOfRegistered(log: seq<Entry>, p: seq<string>, s: seq<string>)
    requires Registered(log, s) && p <= s
    ensures HasNode(log, p)
  {
  }

  lemma NodePrefix(log: seq<Entry>, p: seq<string>, q: seq<string>)
    requires HasNode(log, q) && p <= q
    ensures HasNode(log, p)
  {
  }

  /** Every node but the root lies on the way to a registered shape. */
  lemma RegisteredBelow(log: seq<Entry>, p: seq<string>) returns (s: seq<string>)
    requires HasNode(log, p) && p != []
    ensures p <= s && Registered(log, s)
  {
    s := ShapeOf(LastThrough(log, p).value.parts);
  }

  type Params = map<string, string>

  /** How a walk ends; the parameters collected on the way are kept even when it fails. */
  datatype Walk = Miss(params: Params) | Hit(shape: seq<string>, params: Params)

  /** Greedy descent from `p`: the static child first, else the parameter child, never back. */
  function Greedy(log: seq<Entry>, p: seq<string>, parts: seq<string>, params: Params): Walk
    decreases |parts|
  {
    if parts == [] then Hit(p, params)
    else if parts[0] != PARAM && HasNode(log, p + [parts[0]]) then
      Greedy(log, p + [parts[0]], parts[1..], params)
    else if HasNode(log, p + [PARAM]) then
      if IsParamText(parts[0]) then
        Greedy(log, p + [PARAM], parts[1..], params[NameAt(log, p + [PARAM]) := parts[0]])
      else Miss(params)
    else Miss(params)
  }
}
