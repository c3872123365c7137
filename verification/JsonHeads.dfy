/** Documents seen node by node: what each cell of the builder's tree has to show. */
module JsonHeads {
  import opened Options
  import opened Paths
  import opened Json
  import opened JsonRuns

  datatype Head = NullHead | LeafHead(scalar: Scalar) | ObjHead(keys: seq<string>)

  type Heads = map<Path, Head>

  function HeadOf(v: Value): Head {
    match v
    case Null => NullHead
    case Leaf(s) => LeafHead(s)
    case Obj(ms) => ObjHead(Keys(ms))
  }

  ghost predicate Agrees(heads: Heads, doc: Value) {
    && (forall p :: p in heads <==> Lookup(doc, p).Some?)
    && (forall p :: p in heads ==> heads[p] == HeadOf(Lookup(doc, p).value))
  }

  /** An object on the way to an existing path has its next key. */
  lemma KeyOnTheWay(doc: Value, r: Path, p: Path)
    requires Lookup(doc, p).Some? && r <= p && r != p
    ensures Lookup(doc, r).Some? && Lookup(doc, r).value.Obj?
    ensures p[|r|] in Keys(Lookup(doc, r).value.members)
  {
    var rest := Extension(r, p);
    LookupAppend(doc, r, rest);
    IndexOfKey(Lookup(doc, r).value.members, p[|r|]);
  }

  /** An object on the way to a replaced value keeps its keys. */
  lemma HeadOnTheWay(doc: Value, p: Path, v: Value, r: Path)
    requires Disciplined(doc, p) && r <= p && r != p && Lookup(doc, r).Some? && Lookup(doc, r).value.Obj?
    ensures var here, after := Lookup(doc, r).value, Lookup(Replace(doc, p, v), r);
            && after.Some?
            && HeadOf(after.value) == ObjHead(WithKey(Keys(here.members), p[|r|]))
  {
    hide Replace, Lookup, Disciplined, Keys, WithKey;
    LookupReplace(doc, p, v, r);
    KeysReplace(Lookup(doc, r).value, p[|r|..], v);
  }

  /** A value without members shows no path but the empty one. */
  lemma HeadAtReplaced(doc: Value, p: Path, v: Value, r: Path)
    requires Disciplined(doc, p) && p <= r && !(v.Obj? && v.members != [])
    ensures Lookup(Replace(doc, p, v), r) == if r == p then Some(v) else None
  {
    hide Replace, Disciplined;
    LookupReplace(doc, p, v, r);
    var rest := Extension(p, r);
    assert rest == [] ==> r == p;
  }

  /** Below a value without members there is nothing. */
  lemma NoPathBelow(doc: Value, p: Path, r: Path)
    requires p <= r && r != p
    requires Lookup(doc, p).None? || !(Lookup(doc, p).value.Obj? && Lookup(doc, p).value.members != [])
    ensures Lookup(doc, r).None?
  {
    var rest := Extension(p, r);
    LookupAppend(doc, p, rest);
    assert rest == [] ==> r == p;
  }

  /** A new null member at the end of the object at `p`. */
  function Mentioned(heads: Heads, p: Path, k: string): Heads
    requires p in heads && heads[p].ObjHead?
  {
    heads[p := ObjHead(heads[p].keys + [k])][p + [k] := NullHead]
  }

  lemma MentionedHead(heads: Heads, doc: Value, p: Path, k: string, r: Path)
    requires Agrees(heads, doc) && p in heads && heads[p].ObjHead? && k !in heads[p].keys
    requires Disciplined(doc, p + [k]) && p + [k] !in heads
    ensures var next, after := Mentioned(heads, p, k), Lookup(Replace(doc, p + [k], Null), r);
            && (r in next <==> after.Some?)
            && (r in next ==> next[r] == HeadOf(after.value))
  {
    hide Replace, Lookup, Disciplined, Keys;
    var q := p + [k];
    if q <= r {
      HeadAtReplaced(doc, q, Null, r);
      if r != q {
        NoPathBelow(doc, q, r);
      }
    } else if r <= q {
      assert r <= p;
      if r != p {
        KeyOnTheWay(doc, r, p);
        assert q[|r|] == p[|r|];
      }
      HeadOnTheWay(doc, q, Null, r);
    } else {
      LookupReplace(doc, q, Null, r);
    }
  }

  lemma MentionAgrees(heads: Heads, doc: Value, p: Path, k: string)
    requires Agrees(heads, doc) && p in heads && heads[p].ObjHead? && k !in heads[p].keys
    ensures p + [k] !in heads
    ensures Agrees(Mentioned(heads, p, k), Replace(doc, p + [k], Null))
  {
    var q, next := p + [k], Mentioned(heads, p, k);
    DisciplinedParent(doc, p, k);
    LookupAppend(doc, p, [k]);
    IndexOfKey(Lookup(doc, p).value.members, k);
    forall r
      ensures r in next <==> Lookup(Replace(doc, q, Null), r).Some?
      ensures r in next ==> next[r] == HeadOf(Lookup(Replace(doc, q, Null), r).value)
    {
      MentionedHead(heads, doc, p, k, r);
    }
  }

  lemma SetHead(heads: Heads, doc: Value, p: Path, v: Value, r: Path)
    requires Agrees(heads, doc) && p in heads && !heads[p].ObjHead?
    requires (v.Leaf? || v == EMPTY) && Disciplined(doc, p)
    ensures var next, after := heads[p := HeadOf(v)], Lookup(Replace(doc, p, v), r);
            && (r in next <==> after.Some?)
            && (r in next ==> next[r] == HeadOf(after.value))
  {
    hide Replace, Lookup, Disciplined, Keys;
    if p <= r {
      HeadAtReplaced(doc, p, v, r);
      if r != p {
        NoPathBelow(doc, p, r);
      }
    } else if r <= p {
      KeyOnTheWay(doc, r, p);
      HeadOnTheWay(doc, p, v, r);
    } else {
      LookupReplace(doc, p, v, r);
    }
  }

  /** A cell without members takes another value without members. */
  lemma SetAgrees(heads: Heads, doc: Value, p: Path, v: Value)
    requires Agrees(heads, doc) && p in heads && p != [] && !heads[p].ObjHead?
    requires v.Leaf? || v == EMPTY
    ensures Agrees(heads[p := HeadOf(v)], Replace(doc, p, v))
  {
    var next := heads[p := HeadOf(v)];
    KeyOnTheWay(doc, Parent(p), p);
    assert p == Parent(p) + [p[|p| - 1]];
    DisciplinedParent(doc, Parent(p), p[|p| - 1]);
    forall r
      ensures r in next <==> Lookup(Replace(doc, p, v), r).Some?
      ensures r in next ==> next[r] == HeadOf(Lookup(Replace(doc, p, v), r).value)
    {
      SetHead(heads, doc, p, v, r);
    }
  }

  /** Each object names its members once, and only members have nodes below it. */
  ghost predicate KeysOk(heads: Heads) {
    && (forall p :: p in heads && heads[p].ObjHead? ==> Distinct(heads[p].keys))
    && (forall p, k {:trigger p + [k] in heads} ::
          p + [k] in heads ==> p in heads && heads[p].ObjHead? && k in heads[p].keys)
  }

  lemma MentionKeysOk(heads: Heads, p: Path, k: string)
    requires KeysOk(heads) && p in heads && heads[p].ObjHead? && k !in heads[p].keys && p + [k] !in heads
    ensures KeysOk(Mentioned(heads, p, k))
  {
    var next := Mentioned(heads, p, k);
    WithKeyIsDistinct(heads[p].keys, k);
    forall r, x {:trigger r + [x] in next} | r + [x] in next
      ensures r in next && next[r].ObjHead? && x in next[r].keys
    {
      AppendIsInjective(r, x, p, k);
      if r != p || x != k {
        assert r + [x] in heads;
      }
    }
  }

  lemma SetKeysOk(heads: Heads, p: Path, v: Value)
    requires KeysOk(heads) && p in heads && !heads[p].ObjHead? && (v.Leaf? || v == EMPTY)
    ensures KeysOk(heads[p := HeadOf(v)])
  {
    var next := heads[p := HeadOf(v)];
    forall r, x {:trigger r + [x] in next} | r + [x] in next
      ensures r in next && next[r].ObjHead? && x in next[r].keys
    {
      assert r + [x] in heads;
    }
  }
}
