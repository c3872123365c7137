/** The contents of the trie, node by node, and how one `AddRoute` changes them. */
module TrieViews {
  import opened Options
  import opened RouteLog

  datatype Label = Static | Parameter(name: string)

  datatype NodeView = NodeView(key: nat, handler: HandlerFn, tag: Label)

  type TrieView = map<seq<string>, NodeView>

  function LabelOf(part: string): Label {
    if IsParamPart(part) then Parameter(ParamName(part)) else Static
  }

  /** The child of `p` for `part`, made when missing, gets the label that `part` spells. */
  function Touch(view: TrieView, p: seq<string>, part: string): TrieView {
    var q := p + [Normalized(part)];
    view[q := (if q in view then view[q] else NodeView(0, NullFn, Static)).(tag := LabelOf(part))]
  }

  ghost predicate NamedAt(log: seq<Entry>, p: seq<string>, tag: Label) {
    HasNode(log, p) && IsParamNode(p) && tag == Parameter(NameAt(log, p))
  }

  /** The label that the latest route through `p` gives its node. */
  ghost predicate LabelAgrees(tag: Label, log: seq<Entry>, p: seq<string>) {
    if IsParamNode(p) then NamedAt(log, p, tag) else tag == Static
  }

  predicate FillAgrees(view: NodeView, log: seq<Entry>, p: seq<string>) {
    match LastAt(log, p)
    case None => view.key == 0 && view.handler == NullFn
    case Some(e) => view.key == e.key && view.handler == e.handler
  }

  /**
   * The view holds the nodes and labels of the routes `through`, and the keys and handlers of
   * the routes `at`. The two differ only while a route is being added.
   */
  ghost predicate Agrees(view: TrieView, through: seq<Entry>, at: seq<Entry>) {
    && (forall p :: p in view <==> HasNode(through, p))
    && (forall p :: p in view ==> LabelAgrees(view[p].tag, through, p))
    && (forall p :: p in view ==> FillAgrees(view[p], at, p))
  }

  function FirstParts(e: Entry, i: nat): Entry
    requires i <= |e.parts|
  {
    e.(parts := e.parts[..i])
  }

  /** One more part of the latest route adds at most one node, which it names; no other node is affected. */
  lemma StepThrough(log: seq<Entry>, e: Entry, i: nat, p: seq<string>)
    requires i < |e.parts|
    ensures var q, before, after := ShapeOf(e.parts)[..i + 1], log + [FirstParts(e, i)], log + [FirstParts(e, i + 1)];
            && (HasNode(after, p) <==> HasNode(before, p) || p == q)
            && (p == q ==> LabelAgrees(LabelOf(e.parts[i]), after, p))
            && (p != q && HasNode(before, p) && IsParamNode(p) ==> NameAt(after, p) == NameAt(before, p))
  {
    assert ShapeOf(FirstParts(e, i).parts) == ShapeOf(e.parts)[..i];
    assert ShapeOf(FirstParts(e, i + 1).parts) == ShapeOf(e.parts)[..i + 1];
  }

  lemma NotRegistered(log: seq<Entry>, e: Entry, p: seq<string>)
    requires !HasNode(log + [e], p)
    ensures LastAt(log, p).None?
  {
    assert LastThrough(log + [e], p).None?;
    assert forall f :: f in log ==> f in log + [e];
  }

  /** The label of every other node stays right. */
  lemma OtherLabel(log: seq<Entry>, e: Entry, i: nat, p: seq<string>, tag: Label)
    requires i < |e.parts| && p != ShapeOf(e.parts)[..i + 1]
    requires HasNode(log + [FirstParts(e, i)], p) && LabelAgrees(tag, log + [FirstParts(e, i)], p)
    ensures LabelAgrees(tag, log + [FirstParts(e, i + 1)], p)
  {
    hide HasNode, NameAt, ShapeOf, FirstParts;
    StepThrough(log, e, i, p);
  }

  lemma NextShape(parts: seq<string>, i: nat)
    requires i < |parts|
    ensures ShapeOf(parts)[..i] + [Normalized(parts[i])] == ShapeOf(parts)[..i + 1]
  {
  }

  lemma TouchAgrees(view: TrieView, log: seq<Entry>, e: Entry, i: nat)
    requires i < |e.parts| && Agrees(view, log + [FirstParts(e, i)], log)
    ensures Agrees(Touch(view, ShapeOf(e.parts)[..i], e.parts[i]), log + [FirstParts(e, i + 1)], log)
  {
    hide HasNode, LastAt, LabelAgrees, LabelOf, ShapeOf, FirstParts, Normalized;
    var p, q := ShapeOf(e.parts)[..i], ShapeOf(e.parts)[..i + 1];
    var before, after := log + [FirstParts(e, i)], log + [FirstParts(e, i + 1)];
    var next := Touch(view, p, e.parts[i]);
    NextShape(e.parts, i);
    forall r ensures r in next <==> HasNode(after, r) {
      StepThrough(log, e, i, r);
    }
    forall r | r in next ensures LabelAgrees(next[r].tag, after, r) {
      if r == q {
        StepThrough(log, e, i, r);
      } else {
        OtherLabel(log, e, i, r, view[r].tag);
      }
    }
    forall r | r in next ensures FillAgrees(next[r], log, r) {
      if r in view {
        assert FillAgrees(view[r], log, r);
      } else {
        NotRegistered(log, FirstParts(e, i), r);
      }
    }
  }

  lemma StartAgrees(view: TrieView, log: seq<Entry>, e: Entry)
    requires Agrees(view, log, log)
    ensures Agrees(view, log + [FirstParts(e, 0)], log)
  {
    forall p | p != [] ensures LastThrough(log + [FirstParts(e, 0)], p) == LastThrough(log, p) {
      assert (log + [FirstParts(e, 0)])[..|log|] == log;
    }
  }

  /** The last node of the route takes its key and handler. */
  function Fill(view: TrieView, p: seq<string>, e: Entry): TrieView
    requires p in view
  {
    view[p := view[p].(key := e.key, handler := e.handler)]
  }

  lemma FillFinishes(view: TrieView, log: seq<Entry>, e: Entry)
    requires Agrees(view, log + [FirstParts(e, |e.parts|)], log)
    requires ShapeOf(e.parts) in view
    ensures Agrees(Fill(view, ShapeOf(e.parts), e), log + [e], log + [e])
  {
    var next := Fill(view, ShapeOf(e.parts), e);
    assert e.parts[..|e.parts|] == e.parts && FirstParts(e, |e.parts|) == e;
    assert (log + [e])[..|log|] == log;
    forall p | p in next ensures LabelAgrees(next[p].tag, log + [e], p) {
      assert LabelAgrees(view[p].tag, log + [e], p);
    }
    forall p | p in next ensures FillAgrees(next[p], log + [e], p) {
      assert FillAgrees(view[p], log, p);
    }
  }

  /** The nodes that the parts of a route pass, touched one after the other. */
  function TouchAll(view: TrieView, parts: seq<string>): (touched: TrieView)
    requires [] in view
    ensures ShapeOf(parts) in touched && [] in touched
    decreases |parts|
  {
    if parts == [] then view
    else
      var n := |parts| - 1;
      assert ShapeOf(parts) == ShapeOf(parts[..n]) + [Normalized(parts[n])];
      Touch(TouchAll(view, parts[..n]), ShapeOf(parts[..n]), parts[n])
  }

  lemma TouchOneMore(view: TrieView, parts: seq<string>, i: nat)
    requires i < |parts| && [] in view
    ensures TouchAll(view, parts[..i + 1]) == Touch(TouchAll(view, parts[..i]), ShapeOf(parts[..i]), parts[i])
    ensures ShapeOf(parts[..i + 1]) == ShapeOf(parts[..i]) + [Normalized(parts[i])]
  {
    assert parts[..i + 1][..i] == parts[..i];
  }

  /** The view after `AddRoute`. */
  function Added(view: TrieView, e: Entry): TrieView
    requires [] in view
  {
    Fill(TouchAll(view, e.parts), ShapeOf(e.parts), e)
  }

  lemma NothingTouched(view: TrieView, parts: seq<string>)
    requires [] in view
    ensures TouchAll(view, parts[..0]) == view && ShapeOf(parts[..0]) == []
  {
  }

  lemma ShapePrefix(parts: seq<string>, i: nat)
    requires i <= |parts|
    ensures ShapeOf(parts[..i]) == ShapeOf(parts)[..i]
  {
  }

  lemma {:induction false} TouchAllAgrees(view: TrieView, log: seq<Entry>, e: Entry, i: nat)
    requires i <= |e.parts| && [] in view && Agrees(view, log, log)
    ensures Agrees(TouchAll(view, e.parts[..i]), log + [FirstParts(e, i)], log)
  {
    hide Agrees, Touch, TouchAll, FirstParts, ShapeOf, Normalized;
    if i == 0 {
      StartAgrees(view, log, e);
      NothingTouched(view, e.parts);
    } else {
      TouchAllAgrees(view, log, e, i - 1);
      TouchOneMore(view, e.parts, i - 1);
      ShapePrefix(e.parts, i - 1);
      TouchAgrees(TouchAll(view, e.parts[..i - 1]), log, e, i - 1);
    }
  }

  /** Adding a route to the trie is appending it to the log. */
  lemma AddedAgrees(view: TrieView, log: seq<Entry>, e: Entry)
    requires [] in view && Agrees(view, log, log)
    ensures Agrees(Added(view, e), log + [e], log + [e])
  {
    TouchAllAgrees(view, log, e, |e.parts|);
    assert e.parts[..|e.parts|] == e.parts;
    FillFinishes(TouchAll(view, e.parts), log, e);
  }
}
