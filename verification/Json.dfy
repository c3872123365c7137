/** JSON documents as values, and what one builder statement does to them (`formats/json/value_builder.cc`). */
module Json {
  import opened Options

  datatype Number = FromInt(i: int) | FromUInt(n: nat) | FromFloat(f: real) | FromDouble(d: real)

  datatype Scalar = Bool(b: bool) | Str(s: string) | Num(n: Number)

  datatype Member = Member(key: string, value: Value)

  datatype Value = Null | Leaf(scalar: Scalar) | Obj(members: seq<Member>)

  /** The right-hand side of a statement: an assignment, or `CreateJsonObject()`. */
  datatype Write = Assign(scalar: Scalar) | MakeObject

  type Path = seq<string>

  datatype Statement = Statement(path: Path, write: Write)

  predicate SameKind(a: Scalar, b: Scalar) {
    (a.Bool? && b.Bool?) || (a.Str? && b.Str?) || (a.Num? && b.Num?)
  }

  /** The text that `c_str()` shows: what precedes the first NUL. */
  function CStr(s: string): string {
    if s == "" || s[0] == '\0' then "" else [s[0]] + CStr(s[1..])
  }

  /** What is stored of a text is all that precedes its first NUL; the text is whole exactly without one. */
  lemma {:induction false} CStrWhole(s: string)
    ensures CStr(s) == s <==> '\0' !in s
    ensures CStr(s) <= s && '\0' !in CStr(s)
    ensures '\0' in s ==> |CStr(s)| < |s| && s[|CStr(s)|] == '\0'
  {
    if s != "" && s[0] != '\0' {
      CStrWhole(s[1..]);
      assert s == [s[0]] + s[1..];
      assert CStr(s)[1..] == CStr(s[1..]);
    }
  }

  function CPath(p: Path): (q: Path)
    ensures |q| == |p|
  {
    seq(|p|, i requires 0 <= i < |p| => CStr(p[i]))
  }

  function CWrite(w: Write): Write {
    match w
    case Assign(Str(t)) => Assign(Str(CStr(t)))
    case _ => w
  }

  /** A statement as the document sees it: keys and strings stop at the first NUL. */
  function CStatement(s: Statement): Statement {
    Statement(CPath(s.path), CWrite(s.write))
  }

  /** A statement reaches the document as it is when neither its keys nor its text hold a NUL. */
  lemma CStatementWhole(s: Statement)
    requires forall k :: k in s.path ==> '\0' !in k
    requires match s.write case Assign(Str(t)) => '\0' !in t case _ => true
    ensures CStatement(s) == s
  {
    forall i | 0 <= i < |s.path| ensures CStr(s.path[i]) == s.path[i] {
      CStrWhole(s.path[i]);
    }
    assert CPath(s.path) == s.path;
    match s.write {
      case Assign(Str(t)) => CStrWhole(t);
      case _ =>
    }
  }

  function CStatements(ss: seq<Statement>): (cs: seq<Statement>)
    ensures |cs| == |ss|
  {
    seq(|ss|, i requires 0 <= i < |ss| => CStatement(ss[i]))
  }

  function Keys(ms: seq<Member>): (ks: seq<string>)
    ensures |ks| == |ms| && forall i :: 0 <= i < |ms| ==> ks[i] == ms[i].key
  {
    seq(|ms|, i requires 0 <= i < |ms| => ms[i].key)
  }

  function IndexOf(ms: seq<Member>, k: string): (i: int)
    ensures -1 <= i < |ms|
    ensures i >= 0 ==> ms[i].key == k
    ensures forall j :: 0 <= j < (if i == -1 then |ms| else i) ==> ms[j].key != k
  {
    if ms == [] then -1
    else if ms[0].key == k then 0
    else
      var i := IndexOf(ms[1..], k);
      assert forall j :: 1 <= j < |ms| ==> ms[j] == ms[1..][j - 1];
      if i == -1 then -1 else i + 1
  }

  function Lookup(j: Value, p: Path): Option<Value>
    decreases |p|
  {
    if p == [] then Some(j)
    else if !j.Obj? || IndexOf(j.members, p[0]) == -1 then None
    else Lookup(j.members[IndexOf(j.members, p[0])].value, p[1..])
  }

  /** Puts `v` at `p`, as a new last member when `p` is not there yet. */
  function Replace(j: Value, p: Path, v: Value): Value
    decreases |p|
  {
    if p == [] then v
    else if !j.Obj? then j
    else
      var i := IndexOf(j.members, p[0]);
      if i == -1 then
        if |p| == 1 then Obj(j.members + [Member(p[0], v)]) else j
      else Obj(j.members[i := Member(p[0], Replace(j.members[i].value, p[1..], v))])
  }

  /** Every proper prefix of `p` is an object: the discipline that the builder's users keep. */
  predicate Disciplined(j: Value, p: Path)
    decreases |p|
  {
    p != [] && j.Obj? &&
    (|p| > 1 ==> IndexOf(j.members, p[0]) != -1 && Disciplined(j.members[IndexOf(j.members, p[0])].value, p[1..]))
  }

  /** A first write decides the kind; later writes of another kind are dropped. */
  function Written(was: Option<Value>, w: Write): Value {
    match was
    case None => (match w case Assign(s) => Leaf(s) case MakeObject => Obj([]))
    case Some(v) => if w.Assign? && v.Leaf? && SameKind(v.scalar, w.scalar) then Leaf(w.scalar) else v
  }

  /** One statement as one nested update. */
  function Put(j: Value, s: Statement): Value {
    Replace(j, s.path, Written(Lookup(j, s.path), s.write))
  }

  function Run(j: Value, ss: seq<Statement>): Value {
    if ss == [] then j else Put(Run(j, ss[..|ss| - 1]), ss[|ss| - 1])
  }

  predicate DisciplinedRun(j: Value, ss: seq<Statement>) {
    ss == [] ||
    (DisciplinedRun(j, ss[..|ss| - 1]) && Disciplined(Run(j, ss[..|ss| - 1]), ss[|ss| - 1].path))
  }

  const EMPTY: Value := Obj([])

  lemma SameIndex(ms: seq<Member>, us: seq<Member>, k: string)
    requires |ms| <= |us| && forall j :: 0 <= j < |ms| ==> us[j].key == ms[j].key
    ensures |ms| == |us| || IndexOf(ms, k) != -1 ==> IndexOf(us, k) == IndexOf(ms, k)
    ensures IndexOf(ms, k) == -1 && |us| == |ms| + 1 ==>
              IndexOf(us, k) == if us[|ms|].key == k then |ms| else -1
  {
    var x, y := IndexOf(ms, k), IndexOf(us, k);
    assert x >= 0 ==> us[x].key == k;
    assert 0 <= y < |ms| ==> ms[y].key == k;
  }

  lemma IndexOfUpdated(ms: seq<Member>, i: nat, v: Value, k: string)
    requires i < |ms|
    ensures IndexOf(ms[i := Member(ms[i].key, v)], k) == IndexOf(ms, k)
  {
    var us := ms[i := Member(ms[i].key, v)];
    assert forall j :: 0 <= j < |ms| ==> us[j].key == ms[j].key;
    SameIndex(ms, us, k);
  }

  lemma IndexOfAppended(ms: seq<Member>, m: Member, k: string)
    requires IndexOf(ms, m.key) == -1
    ensures IndexOf(ms + [m], k) == if k == m.key then |ms| else IndexOf(ms, k)
  {
    SameIndex(ms, ms + [m], k);
  }

  /** The value that the member `p[0]` gets. */
  function ReplacedChild(j: Value, p: Path, v: Value): Value
    requires Disciplined(j, p)
  {
    if |p| == 1 then v else Replace(j.members[IndexOf(j.members, p[0])].value, p[1..], v)
  }

  lemma LookupStep(j: Value, p: Path, v: Value, q: Path)
    requires Disciplined(j, p) && q != []
    ensures Lookup(Replace(j, p, v), q) ==
            if q[0] == p[0] then Lookup(ReplacedChild(j, p, v), q[1..]) else Lookup(j, q)
  {
    var ms, i := j.members, IndexOf(j.members, p[0]);
    if i == -1 {
      IndexOfAppended(ms, Member(p[0], v), q[0]);
    } else {
      assert |p| == 1 ==> Replace(ms[i].value, p[1..], v) == v;
      IndexOfUpdated(ms, i, Replace(ms[i].value, p[1..], v), q[0]);
    }
  }

  lemma PrefixStep(p: Path, q: Path)
    requires p != [] && q != [] && p[0] == q[0]
    ensures p <= q <==> p[1..] <= q[1..]
    ensures q <= p <==> q[1..] <= p[1..]
    ensures p <= q ==> q[|p|..] == q[1..][|p| - 1..]
    ensures q <= p ==> p[|q|..] == p[1..][|q| - 1..]
  {
    assert p == [p[0]] + p[1..] && q == [q[0]] + q[1..];
  }

  /** Below and beside `p`: an update shows its value there and nothing elsewhere. */
  lemma {:induction false} LookupReplace(j: Value, p: Path, v: Value, q: Path)
    requires Disciplined(j, p)
    ensures p <= q ==> Lookup(Replace(j, p, v), q) == Lookup(v, q[|p|..])
    ensures !(p <= q) && !(q <= p) ==> Lookup(Replace(j, p, v), q) == Lookup(j, q)
    ensures q <= p && q != p ==>
              && Lookup(j, q).Some? && Disciplined(Lookup(j, q).value, p[|q|..])
              && Lookup(Replace(j, p, v), q) == Some(Replace(Lookup(j, q).value, p[|q|..], v))
    decreases |p|
  {
    hide IndexOf;
    if q != [] {
      LookupStep(j, p, v, q);
      if q[0] == p[0] {
        PrefixStep(p, q);
        if |p| > 1 {
          LookupReplace(j.members[IndexOf(j.members, p[0])].value, p[1..], v, q[1..]);
        }
      }
    }
  }

  lemma {:induction false} ReplaceTwice(j: Value, p: Path, v: Value, w: Value)
    requires Disciplined(j, p)
    ensures Disciplined(Replace(j, p, v), p)
    ensures Replace(Replace(j, p, v), p, w) == Replace(j, p, w)
    decreases |p|
  {
    hide IndexOf;
    var ms, i := j.members, IndexOf(j.members, p[0]);
    if i == -1 {
      IndexOfAppended(ms, Member(p[0], v), p[0]);
      assert (ms + [Member(p[0], v)])[|ms| := Member(p[0], w)] == ms + [Member(p[0], w)];
    } else {
      IndexOfUpdated(ms, i, Replace(ms[i].value, p[1..], v), p[0]);
      if |p| > 1 {
        ReplaceTwice(ms[i].value, p[1..], v, w);
      }
    }
  }

  lemma {:induction false} ReplaceSame(j: Value, p: Path)
    requires Lookup(j, p).Some?
    ensures Replace(j, p, Lookup(j, p).value) == j
    decreases |p|
  {
    if p != [] {
      ReplaceSame(j.members[IndexOf(j.members, p[0])].value, p[1..]);
    }
  }

  /** The parent of a disciplined path is an object, and all its members can be mentioned. */
  lemma {:induction false} DisciplinedParent(j: Value, p: Path, k: string)
    ensures Disciplined(j, p + [k]) <==> Lookup(j, p).Some? && Lookup(j, p).value.Obj?
    decreases |p|
  {
    if p != [] {
      assert (p + [k])[1..] == p[1..] + [k];
      if j.Obj? && IndexOf(j.members, p[0]) != -1 {
        DisciplinedParent(j.members[IndexOf(j.members, p[0])].value, p[1..], k);
      }
    }
  }

  lemma {:induction false} LookupAppend(j: Value, p: Path, q: Path)
    ensures Lookup(j, p + q) == if Lookup(j, p).None? then None else Lookup(Lookup(j, p).value, q)
    decreases |p|
  {
    if p == [] {
      assert p + q == q;
    } else {
      assert (p + q)[1..] == p[1..] + q;
      if j.Obj? && IndexOf(j.members, p[0]) != -1 {
        LookupAppend(j.members[IndexOf(j.members, p[0])].value, p[1..], q);
      }
    }
  }
}
