/** Laws of builder statements: what each one changes, what a whole run leaves, and which ones commute. */
module JsonRuns {
  import opened Options
  import opened Json

  /** A value without its members. */
  function Shown(v: Option<Value>): Option<Value> {
    if v.Some? && v.value.Obj? then Some(EMPTY) else v
  }

  /** The member keys at `p`, in order; none where there is no object. */
  function KeysAt(j: Value, p: Path): seq<string> {
    match Lookup(j, p)
    case Some(Obj(ms)) => Keys(ms)
    case _ => []
  }

  function WithKey(ks: seq<string>, k: string): seq<string> {
    if k in ks then ks else ks + [k]
  }

  predicate Distinct(ks: seq<string>) {
    forall i, j :: 0 <= i < j < |ks| ==> ks[i] != ks[j]
  }

  lemma WithKeyIsDistinct(ks: seq<string>, k: string)
    requires Distinct(ks)
    ensures Distinct(WithKey(ks, k))
  {
    assert forall i :: 0 <= i < |ks| ==> ks[i] in ks;
  }

  lemma IndexOfKey(ms: seq<Member>, k: string)
    ensures IndexOf(ms, k) == -1 <==> k !in Keys(ms)
  {
    var i := IndexOf(ms, k);
    if i >= 0 {
      assert Keys(ms)[i] == k;
    }
  }

  lemma KeysReplace(j: Value, p: Path, v: Value)
    requires Disciplined(j, p)
    ensures Replace(j, p, v).Obj?
    ensures Keys(Replace(j, p, v).members) == WithKey(Keys(j.members), p[0])
  {
    IndexOfKey(j.members, p[0]);
  }

  lemma Extension(p: Path, q: Path) returns (rest: Path)
    requires p <= q
    ensures q == p + rest && rest == q[|p|..]
  {
    rest := q[|p|..];
  }

  /** A write leaves what is below a value as it is. */
  lemma WrittenBelow(was: Option<Value>, w: Write, rest: Path)
    requires rest != []
    ensures Lookup(Written(was, w), rest) == if was.None? then None else Lookup(was.value, rest)
  {
  }

  lemma DisciplinedIsObject(j: Value, p: Path)
    requires Disciplined(j, p)
    ensures p != [] && j.Obj?
  {
  }

  /** One statement changes the value at its own path, the key list of its parent, and nothing else. */
  lemma StatementIsLocal(j: Value, s: Statement, q: Path)
    requires Disciplined(j, s.path)
    ensures q == s.path ==> Lookup(Put(j, s), q) == Some(Written(Lookup(j, q), s.write))
    ensures !(q <= s.path) ==> Lookup(Put(j, s), q) == Lookup(j, q)
    ensures q <= s.path && q != s.path ==>
              && Shown(Lookup(j, q)) == Some(EMPTY) == Shown(Lookup(Put(j, s), q))
              && KeysAt(Put(j, s), q) == WithKey(KeysAt(j, q), s.path[|q|])
  {
    hide Replace, Disciplined, Written, WithKey;
    var p, v := s.path, Written(Lookup(j, s.path), s.write);
    LookupReplace(j, p, v, q);
    if p <= q {
      var rest := Extension(p, q);
      LookupAppend(j, p, rest);
      if rest == [] {
        assert q == p;
      } else {
        WrittenBelow(Lookup(j, p), s.write, rest);
      }
    } else if q <= p {
      DisciplinedIsObject(Lookup(j, q).value, p[|q|..]);
      KeysReplace(Lookup(j, q).value, p[|q|..], v);
    }
  }

  /** Apart from member lists, only the statement's own path shows another value. */
  lemma ShownAfter(j: Value, s: Statement, q: Path)
    requires Disciplined(j, s.path)
    ensures Shown(Lookup(Put(j, s), q)) ==
            if q == s.path then Shown(Some(Written(Lookup(j, q), s.write))) else Shown(Lookup(j, q))
  {
    StatementIsLocal(j, s, q);
  }

  /** A statement leaves the whole document as it is exactly when its write is refused or rewrites the same value. */
  lemma UnchangedExactly(j: Value, s: Statement)
    requires Disciplined(j, s.path)
    ensures Put(j, s) == j <==>
            match Lookup(j, s.path)
            case None => false
            case Some(v) =>
              || s.write.MakeObject? || !v.Leaf?
              || !SameKind(v.scalar, s.write.scalar) || v.scalar == s.write.scalar
  {
    StatementIsLocal(j, s, s.path);
    if Lookup(j, s.path).Some? {
      ReplaceSame(j, s.path);
    }
  }

  /** What a statement does, by what was there and what is written. */
  lemma PutExactly(j: Value, s: Statement)
    requires Disciplined(j, s.path)
    ensures var after := Lookup(Put(j, s), s.path);
            match Lookup(j, s.path)
            case None => after == Some(match s.write case Assign(x) => Leaf(x) case MakeObject => Obj([]))
            case Some(Leaf(Str(_))) =>
              (match s.write case Assign(Str(t)) => after == Some(Leaf(Str(t))) case _ => Put(j, s) == j)
            case Some(Leaf(Num(_))) =>
              (match s.write case Assign(Num(n)) => after == Some(Leaf(Num(n))) case _ => Put(j, s) == j)
            case Some(Leaf(Bool(_))) =>
              (match s.write case Assign(Bool(b)) => after == Some(Leaf(Bool(b))) case _ => Put(j, s) == j)
            case Some(_) => Put(j, s) == j
  {
    hide Lookup, Replace, Disciplined;
    StatementIsLocal(j, s, s.path);
    if Lookup(j, s.path).Some? {
      ReplaceSame(j, s.path);
    }
  }

  /** A text stays a text, a number a number, a boolean a boolean, an object an object. */
  ghost predicate KindKept(before: Option<Value>, after: Option<Value>) {
    match before
    case None => true
    case Some(Null) => after == Some(Null)
    case Some(Leaf(Str(_))) => exists t :: after == Some(Leaf(Str(t)))
    case Some(Leaf(Num(_))) => exists n :: after == Some(Leaf(Num(n)))
    case Some(Leaf(Bool(_))) => exists b :: after == Some(Leaf(Bool(b)))
    case Some(Obj(_)) => exists ms :: after == Some(Obj(ms))
  }

  lemma PutKeepsKind(j: Value, s: Statement, p: Path)
    requires Disciplined(j, s.path)
    ensures KindKept(Lookup(j, p), Lookup(Put(j, s), p))
  {
    hide Lookup, Replace, Disciplined, Put, Written;
    StatementIsLocal(j, s, p);
    if p == s.path {
      PutExactly(j, s);
    }
  }

  /** No statement of a run changes the kind of a value that is already there. */
  lemma {:induction false} RunKeepsKind(j: Value, ss: seq<Statement>, p: Path)
    requires DisciplinedRun(j, ss)
    ensures KindKept(Lookup(j, p), Lookup(Run(j, ss), p))
  {
    hide Lookup, Disciplined, Put;
    if ss != [] {
      RunKeepsKind(j, ss[..|ss| - 1], p);
      PutKeepsKind(Run(j, ss[..|ss| - 1]), ss[|ss| - 1], p);
    }
  }

  /** The writes at exactly `p`, in order. */
  function WritesAt(ss: seq<Statement>, p: Path): seq<Write> {
    if ss == [] then []
    else
      var s := ss[|ss| - 1];
      WritesAt(ss[..|ss| - 1], p) + if s.path == p then [s.write] else []
  }

  predicate SameWriteKind(a: Write, b: Write) {
    if a.Assign? then b.Assign? && SameKind(a.scalar, b.scalar) else b.MakeObject?
  }

  /** The last write of the kind of the first one. */
  function Settled(ws: seq<Write>): (w: Write)
    requires ws != []
    ensures SameWriteKind(w, ws[0])
  {
    var w := ws[|ws| - 1];
    if SameWriteKind(w, ws[0]) then w else Settled(ws[..|ws| - 1])
  }

  /** The keys that the paths of a run mention directly below `p`, in order of first mention. */
  function Mentions(ss: seq<Statement>, p: Path): seq<string> {
    if ss == [] then []
    else
      var s, ks := ss[|ss| - 1], Mentions(ss[..|ss| - 1], p);
      if p <= s.path && p != s.path then WithKey(ks, s.path[|p|]) else ks
  }

  ghost predicate HoldsWrite(v: Option<Value>, w: Write) {
    v.Some? && match w case Assign(s) => v.value == Leaf(s) case MakeObject => v.value.Obj?
  }

  /** A value that holds what the earlier writes settled on holds, after one more, what they all settle on. */
  lemma WriteSettles(v: Option<Value>, ws: seq<Write>, w: Write)
    requires if ws == [] then v == None else HoldsWrite(v, Settled(ws))
    ensures HoldsWrite(Some(Written(v, w)), Settled(ws + [w]))
  {
    assert (ws + [w])[..|ws|] == ws;
  }

  lemma ObjectStays(before: Option<Value>, after: Option<Value>, ws: seq<Write>)
    requires Shown(before) == Some(EMPTY) == Shown(after)
    requires if ws == [] then before == None else HoldsWrite(before, Settled(ws))
    ensures ws != [] && HoldsWrite(after, Settled(ws))
  {
  }

  lemma NothingBelowEmpty(p: Path)
    requires p != []
    ensures Lookup(EMPTY, p) == None
  {
  }

  /** After a run from the empty document, a value is the last write of the kind of the first write at its path. */
  lemma {:induction false} RunValue(ss: seq<Statement>, p: Path)
    requires DisciplinedRun(EMPTY, ss) && p != []
    ensures WritesAt(ss, p) == [] ==> Lookup(Run(EMPTY, ss), p) == None
    ensures WritesAt(ss, p) != [] ==> HoldsWrite(Lookup(Run(EMPTY, ss), p), Settled(WritesAt(ss, p)))
  {
    hide Lookup, Put, Disciplined, Settled, HoldsWrite, Written, Shown, KeysAt;
    if ss == [] {
      NothingBelowEmpty(p);
    } else {
      var before, s := ss[..|ss| - 1], ss[|ss| - 1];
      RunValue(before, p);
      StatementIsLocal(Run(EMPTY, before), s, p);
      var ws := WritesAt(before, p);
      if s.path == p {
        WriteSettles(Lookup(Run(EMPTY, before), p), ws, s.write);
      } else {
        assert ws + [] == ws;
        if p <= s.path {
          ObjectStays(Lookup(Run(EMPTY, before), p), Lookup(Run(EMPTY, ss), p), ws);
        }
      }
    }
  }

  /**
   * After a run from the empty document, each object's keys are the mentioned ones, once each, in order
   * of first mention.
   */
  lemma {:induction false} RunKeys(ss: seq<Statement>, p: Path)
    requires DisciplinedRun(EMPTY, ss)
    ensures KeysAt(Run(EMPTY, ss), p) == Mentions(ss, p)
  {
    if ss == [] {
      assert p != [] ==> Lookup(EMPTY, p) == None;
    } else {
      var before, s := ss[..|ss| - 1], ss[|ss| - 1];
      RunKeys(before, p);
      StatementIsLocal(Run(EMPTY, before), s, p);
    }
  }

  lemma {:induction false} MentionsAreDistinct(ss: seq<Statement>, p: Path)
    ensures Distinct(Mentions(ss, p))
  {
    if ss != [] {
      MentionsAreDistinct(ss[..|ss| - 1], p);
      var s := ss[|ss| - 1];
      if p <= s.path && p != s.path {
        WithKeyIsDistinct(Mentions(ss[..|ss| - 1], p), s.path[|p|]);
      }
    }
  }

  lemma {:induction false} RootIsObject(ss: seq<Statement>)
    requires DisciplinedRun(EMPTY, ss)
    ensures Run(EMPTY, ss).Obj?
  {
    if ss != [] {
      RootIsObject(ss[..|ss| - 1]);
      StatementIsLocal(Run(EMPTY, ss[..|ss| - 1]), ss[|ss| - 1], []);
    }
  }

  /** Between statements no null is left anywhere. */
  lemma RunLeavesNoNull(ss: seq<Statement>, p: Path)
    requires DisciplinedRun(EMPTY, ss)
    ensures Lookup(Run(EMPTY, ss), p) != Some(Null)
  {
    if p != [] {
      RunValue(ss, p);
    } else {
      RootIsObject(ss);
    }
  }

  predicate Apart(p: Path, q: Path) {
    !(p <= q) && !(q <= p)
  }

  function Parent(p: Path): Path
    requires p != []
  {
    p[..|p| - 1]
  }

  lemma DisciplinedAfter(j: Value, s: Statement, q: Path)
    requires Disciplined(j, s.path) && Disciplined(j, q) && Apart(s.path, q)
    ensures Disciplined(Put(j, s), q) && Lookup(Put(j, s), q) == Lookup(j, q)
  {
    var up := Parent(q);
    assert q == up + [q[|q| - 1]];
    DisciplinedParent(j, up, q[|q| - 1]);
    DisciplinedParent(Put(j, s), up, q[|q| - 1]);
    StatementIsLocal(j, s, up);
    StatementIsLocal(j, s, q);
    assert s.path <= up ==> s.path <= q;
  }

  /** Both statements add a member, and to the same object. */
  predicate AddSiblings(j: Value, p: Path, q: Path)
    requires p != [] && q != []
  {
    Parent(p) == Parent(q) && Lookup(j, p).None? && Lookup(j, q).None?
  }

  lemma ParentStep(p: Path, q: Path)
    requires |p| > 1 && |q| > 1 && p[0] == q[0]
    ensures Parent(p) == Parent(q) <==> Parent(p[1..]) == Parent(q[1..])
  {
    assert Parent(p) == [p[0]] + Parent(p[1..]) && Parent(q) == [q[0]] + Parent(q[1..]);
    assert Parent(p)[1..] == Parent(p[1..]) && Parent(q)[1..] == Parent(q[1..]);
  }

  lemma SiblingsBelow(j: Value, p: Path, q: Path)
    requires Disciplined(j, p) && Disciplined(j, q) && Apart(p, q) && p[0] == q[0]
    ensures |p| > 1 && |q| > 1 && Apart(p[1..], q[1..])
    ensures AddSiblings(j, p, q) <==> AddSiblings(j.members[IndexOf(j.members, p[0])].value, p[1..], q[1..])
  {
    hide IndexOf, Replace;
    PrefixStep(p, q);
    assert |p| > 1 && |q| > 1;
    ParentStep(p, q);
  }

  function SetMember(ms: seq<Member>, k: string, x: Value): seq<Member> {
    var i := IndexOf(ms, k);
    if i == -1 then ms + [Member(k, x)] else ms[i := Member(k, x)]
  }

  lemma SetMemberKeeps(ms: seq<Member>, a: string, x: Value, b: string)
    requires a != b
    ensures IndexOf(SetMember(ms, a, x), b) == IndexOf(ms, b)
    ensures IndexOf(ms, b) != -1 ==> SetMember(ms, a, x)[IndexOf(ms, b)] == ms[IndexOf(ms, b)]
  {
    var i := IndexOf(ms, a);
    if i == -1 {
      IndexOfAppended(ms, Member(a, x), b);
    } else {
      IndexOfUpdated(ms, i, x, b);
    }
  }

  lemma SetMembersCommute(ms: seq<Member>, a: string, x: Value, b: string, y: Value)
    requires a != b && (IndexOf(ms, a) != -1 || IndexOf(ms, b) != -1)
    ensures SetMember(SetMember(ms, a, x), b, y) == SetMember(SetMember(ms, b, y), a, x)
  {
    SetMemberKeeps(ms, a, x, b);
    SetMemberKeeps(ms, b, y, a);
  }

  lemma ReplaceIsSetMember(j: Value, p: Path, v: Value)
    requires Disciplined(j, p)
    ensures Replace(j, p, v) == Obj(SetMember(j.members, p[0], ReplacedChild(j, p, v)))
  {
    assert |p| == 1 ==> p[1..] == [];
  }

  lemma AddsRoot(j: Value, p: Path)
    requires Disciplined(j, p) && IndexOf(j.members, p[0]) == -1
    ensures Parent(p) == [] && Lookup(j, p).None?
  {
  }

  lemma RootsCommute(j: Value, p: Path, v: Value, q: Path, w: Value)
    requires Disciplined(j, p) && Disciplined(j, q) && p[0] != q[0] && !AddSiblings(j, p, q)
    ensures Replace(Replace(j, p, v), q, w) == Replace(Replace(j, q, w), p, v)
  {
    var ms := j.members;
    if IndexOf(ms, p[0]) == -1 && IndexOf(ms, q[0]) == -1 {
      AddsRoot(j, p);
      AddsRoot(j, q);
    }
    ReplaceIsSetMember(j, p, v);
    ReplaceIsSetMember(j, q, w);
    SetMemberKeeps(ms, p[0], ReplacedChild(j, p, v), q[0]);
    SetMemberKeeps(ms, q[0], ReplacedChild(j, q, w), p[0]);
    ReplaceIsSetMember(Replace(j, p, v), q, w);
    ReplaceIsSetMember(Replace(j, q, w), p, v);
    SetMembersCommute(ms, p[0], ReplacedChild(j, p, v), q[0], ReplacedChild(j, q, w));
  }

  lemma {:induction false} ReplaceCommutes(j: Value, p: Path, v: Value, q: Path, w: Value)
    requires Disciplined(j, p) && Disciplined(j, q) && Apart(p, q) && !AddSiblings(j, p, q)
    ensures Replace(Replace(j, p, v), q, w) == Replace(Replace(j, q, w), p, v)
    decreases |p|
  {
    hide IndexOf, Lookup, AddSiblings, Apart;
    var ms := j.members;
    var i := IndexOf(ms, p[0]);
    if p[0] == q[0] {
      SiblingsBelow(j, p, q);
      var c := ms[i].value;
      ReplaceCommutes(c, p[1..], v, q[1..], w);
      IndexOfUpdated(ms, i, Replace(c, p[1..], v), q[0]);
      IndexOfUpdated(ms, i, Replace(c, q[1..], w), p[0]);
    } else {
      RootsCommute(j, p, v, q, w);
    }
  }

  lemma AbsentKey(j: Value, p: Path, k: string)
    requires Lookup(j, p + [k]).None? && Shown(Lookup(j, p)) == Some(EMPTY)
    ensures k !in KeysAt(j, p)
  {
    LookupAppend(j, p, [k]);
    IndexOfKey(Lookup(j, p).value.members, k);
  }

  lemma SiblingsKeepOrder(j: Value, s: Statement, t: Statement)
    requires Disciplined(j, s.path) && Disciplined(j, t.path) && Apart(s.path, t.path)
    requires AddSiblings(j, s.path, t.path)
    requires Disciplined(Put(j, s), t.path) && Disciplined(Put(j, t), s.path)
    ensures Put(Put(j, s), t) != Put(Put(j, t), s)
  {
    hide Replace, Lookup, Disciplined, IndexOf;
    var up := Parent(s.path);
    var a, b := s.path[|up|], t.path[|up|];
    assert s.path == up + [a] && t.path == up + [b];
    StatementIsLocal(j, s, up);
    StatementIsLocal(j, t, up);
    AbsentKey(j, up, a);
    AbsentKey(j, up, b);
    StatementIsLocal(Put(j, s), t, up);
    StatementIsLocal(Put(j, t), s, up);
    var ks := KeysAt(j, up);
    assert KeysAt(Put(Put(j, s), t), up)[|ks|] == a;
    assert KeysAt(Put(Put(j, t), s), up)[|ks|] == b;
  }

  /**
   * Statements at paths that do not extend each other may be swapped: always up to the order of
   * members, and to the very same document exactly when they do not both add a member to one object.
   */
  lemma StatementsCommute(j: Value, s: Statement, t: Statement)
    requires Disciplined(j, s.path) && Disciplined(j, t.path) && Apart(s.path, t.path)
    ensures Disciplined(Put(j, s), t.path) && Disciplined(Put(j, t), s.path)
    ensures forall r :: Shown(Lookup(Put(Put(j, s), t), r)) == Shown(Lookup(Put(Put(j, t), s), r))
    ensures Put(Put(j, s), t) == Put(Put(j, t), s) <==> !AddSiblings(j, s.path, t.path)
  {
    DisciplinedAfter(j, s, t.path);
    DisciplinedAfter(j, t, s.path);
    forall r ensures Shown(Lookup(Put(Put(j, s), t), r)) == Shown(Lookup(Put(Put(j, t), s), r)) {
      ShownAfter(j, s, r);
      ShownAfter(j, t, r);
      ShownAfter(Put(j, s), t, r);
      ShownAfter(Put(j, t), s, r);
    }
    if AddSiblings(j, s.path, t.path) {
      SiblingsKeepOrder(j, s, t);
    } else {
      ReplaceCommutes(j, s.path, Written(Lookup(j, s.path), s.write), t.path, Written(Lookup(j, t.path), t.write));
    }
  }

  /** The path before the last key is all objects, so each shorter path is there. */
  lemma {:induction false} DisciplinedPrefix(j: Value, p: Path, i: nat)
    requires Disciplined(j, p) && 0 < i <= |p|
    ensures Disciplined(j, p[..i])
    ensures i < |p| ==> Lookup(j, p[..i]).Some?
    decreases i
  {
    if i > 1 {
      assert p[..i][1..] == p[1..][..i - 1];
      DisciplinedPrefix(j.members[IndexOf(j.members, p[0])].value, p[1..], i - 1);
    } else {
      assert i < |p| ==> p[..i][1..] == [];
    }
  }

  lemma {:induction false} RunPrefix(j: Value, ss: seq<Statement>, i: nat)
    requires DisciplinedRun(j, ss) && i <= |ss|
    ensures DisciplinedRun(j, ss[..i])
    ensures i < |ss| ==> Disciplined(Run(j, ss[..i]), ss[i].path) && Run(j, ss[..i + 1]) == Put(Run(j, ss[..i]), ss[i])
    decreases |ss|
  {
    if i == |ss| {
      assert ss[..i] == ss;
    } else {
      var before := ss[..|ss| - 1];
      assert ss[..i + 1][..i] == ss[..i];
      assert before[..i] == ss[..i];
      if i < |before| {
        assert before[..i + 1] == ss[..i + 1];
      } else {
        assert ss[..i + 1] == ss;
      }
      RunPrefix(j, before, i);
    }
  }
}
