/** The JSON builder: a cursor over a tree of cells that move (`formats/json/value_builder.cc`). */
module ValueBuilders {
  import opened Options
  import opened Paths
  import opened Json
  import opened JsonRuns
  import opened JsonHeads

  datatype JsonValueType = Unknown | NullType | FalseType | TrueType | ObjectType | StringType | NumberType

  datatype CellMember = CellMember(key: string, cell: Cell)

  datatype Content = NullContent | LeafContent(scalar: Scalar) | ObjectContent(members: seq<CellMember>)

  function TypeOf(c: Content): JsonValueType {
    match c
    case NullContent => NullType
    case LeafContent(Bool(b)) => if b then TrueType else FalseType
    case LeafContent(Str(_)) => StringType
    case LeafContent(Num(_)) => NumberType
    case ObjectContent(_) => ObjectType
  }

  function CellKeys(ms: seq<CellMember>): (ks: seq<string>)
    ensures |ks| == |ms|
  {
    seq(|ms|, i requires 0 <= i < |ms| => ms[i].key)
  }

  lemma KeyIsAbsent(was: seq<CellMember>, ms: seq<CellMember>, k: string)
    requires CellKeys(ms) == CellKeys(was) && k !in CellKeys(was)
    ensures forall m :: m in ms ==> m.key != k
  {
    forall m | m in ms ensures m.key != k {
      var j :| 0 <= j < |ms| && ms[j] == m;
      assert CellKeys(ms)[j] == m.key;
    }
  }

  lemma KeyIsNew(was: seq<CellMember>, ms: seq<CellMember>, i: nat)
    requires i < |was| && |ms| == i && Distinct(CellKeys(was))
    requires forall j :: 0 <= j < i ==> ms[j].key == was[j].key
    ensures forall m :: m in ms ==> m.key != was[i].key
  {
    forall m | m in ms ensures m.key != was[i].key {
      var j :| 0 <= j < i && ms[j] == m;
      assert CellKeys(was)[j] != CellKeys(was)[i];
    }
  }

  /** A member lives in a new cell, which knows its path. */
  ghost predicate MovedTo(moved: map<Path, Cell>, m: CellMember, p: Path)
    reads m.cell
  {
    p + [m.key] in moved && moved[p + [m.key]] == m.cell && m.cell.alive && m.cell.place == p + [m.key]
  }

  /** One `rapidjson::Value` in memory. It is dead once its storage is given up. */
  class Cell {
    var content: Content
    ghost var alive: bool
    ghost const place: Path

    constructor (content: Content, ghost place: Path)
      ensures this.content == content && this.place == place && alive
    {
      this.content := content;
      this.place := place;
      alive := true;
    }

    function GetType(): JsonValueType
      requires alive
      reads this
    {
      TypeOf(content)
    }

    predicate HasMember(k: string)
      requires alive && content.ObjectContent?
      reads this
    {
      k in CellKeys(content.members)
    }

    /** Assignment of a value, and `SetObject`. */
    method SetContent(content: Content)
      requires alive
      modifies `content
      ensures this.content == content
    {
      this.content := content;
    }

    method FindMember(k: string) returns (cell: Cell)
      requires alive && content.ObjectContent? && HasMember(k)
      ensures exists i :: 0 <= i < |content.members| && content.members[i] == CellMember(k, cell)
    {
      var i := 0;
      while content.members[i].key != k
        invariant 0 <= i < |content.members|
        invariant k !in CellKeys(content.members)[..i]
        decreases |content.members| - i
      {
        i := i + 1;
      }
      cell := content.members[i].cell;
    }

    /** The next member of the new storage. */
    method Extended(ms: seq<CellMember>, ghost moved: map<Path, Cell>, k: string, cell: Cell)
      returns (ms': seq<CellMember>, ghost moved': map<Path, Cell>)
      requires forall m :: m in ms ==> MovedTo(moved, m, place) && m.key != k
      requires forall q :: q in moved ==> exists m :: m in ms && q == place + [m.key]
      requires cell.alive && cell.place == place + [k]
      ensures ms' == ms + [CellMember(k, cell)]
      ensures forall m :: m in ms' ==> MovedTo(moved', m, place)
      ensures forall q :: q in moved' ==> exists m :: m in ms' && q == place + [m.key]
    {
      ms', moved' := ms + [CellMember(k, cell)], moved[place + [k] := cell];
      forall m | m in ms' ensures MovedTo(moved', m, place) {
        AppendIsInjective(place, m.key, place, k);
      }
      forall q | q in moved' ensures exists m :: m in ms' && q == place + [m.key] {
        if q == place + [k] {
          assert CellMember(k, cell) in ms';
        } else {
          var m :| m in ms && q == place + [m.key];
          assert m in ms';
        }
      }
    }

    /** New storage for the members, with the contents of the old cells. */
    method MoveMembers(was: seq<CellMember>) returns (ms: seq<CellMember>, ghost moved: map<Path, Cell>)
      requires Distinct(CellKeys(was))
      ensures CellKeys(ms) == CellKeys(was)
      ensures forall i :: 0 <= i < |was| ==> ms[i].cell.content == was[i].cell.content
      ensures forall m :: m in ms ==> MovedTo(moved, m, place) && fresh(m.cell)
      ensures forall q :: q in moved ==> exists m :: m in ms && q == place + [m.key]
    {
      ms, moved := [], map[];
      var i := 0;
      while i < |was|
        invariant 0 <= i <= |was| && |ms| == i
        invariant forall j :: 0 <= j < i ==> ms[j].key == was[j].key && ms[j].cell.content == was[j].cell.content
        invariant forall m :: m in ms ==> MovedTo(moved, m, place) && fresh(m.cell)
        invariant forall q :: q in moved ==> exists m :: m in ms && q == place + [m.key]
      {
        var m := was[i];
        var cell := new Cell(m.cell.content, place + [m.key]);
        KeyIsNew(was, ms, i);
        ms, moved := Extended(ms, moved, m.key, cell);
        i := i + 1;
      }
    }

    /**
     * `AddMember` in the worst case: the members' storage moves. Every member gets a new cell with
     * the old contents, the old cells die, and a null member is added. Deeper cells stay put.
     */
    method AddMember(k: string) returns (ghost moved: map<Path, Cell>)
      requires alive && content.ObjectContent? && !HasMember(k)
      requires Distinct(CellKeys(content.members))
      requires forall m :: m in content.members ==> m.cell.place == place + [m.key]
      modifies this, set m | m in content.members :: m.cell
      ensures alive && content.ObjectContent?
      ensures CellKeys(content.members) == CellKeys(old(content.members)) + [k]
      ensures forall m :: m in content.members ==> MovedTo(moved, m, place) && fresh(m.cell)
      ensures forall q :: q in moved ==> exists m :: m in content.members && q == place + [m.key]
      ensures forall i :: 0 <= i < |old(content.members)| ==>
                content.members[i].cell.content == old(content.members[i].cell.content)
      ensures content.members[|old(content.members)|].cell.content == NullContent
      ensures forall m :: m in old(content.members) ==> !m.cell.alive
    {
      var was := content.members;
      var ms;
      ms, moved := MoveMembers(was);
      KeyIsAbsent(was, ms, k);
      var cell := new Cell(NullContent, place + [k]);
      ms, moved := Extended(ms, moved, k, cell);
      forall m | m in was {
        m.cell.alive := false;
      }
      content := ObjectContent(ms);
    }
  }

  ghost predicate Shows(content: Content, head: Head) {
    match content
    case NullContent => head == NullHead
    case LeafContent(s) => head == LeafHead(s)
    case ObjectContent(ms) => head == ObjHead(CellKeys(ms))
  }

  ghost predicate LinksOk(ms: seq<CellMember>, cells: map<Path, Cell>, p: Path) {
    forall m :: m in ms ==> p + [m.key] in cells && cells[p + [m.key]] == m.cell
  }

  /** A live cell that knows its path, shows its head, and whose members are the cells one key further. */
  ghost predicate CellOk(cell: Cell, head: Head, cells: map<Path, Cell>, p: Path)
    reads cell
  {
    && cell.alive && cell.place == p
    && Shows(cell.content, head)
    && (cell.content.ObjectContent? ==> LinksOk(cell.content.members, cells, p))
  }

  ghost predicate Represents(cells: map<Path, Cell>, heads: Heads, repr: set<Cell>)
    reads repr
  {
    && cells.Keys == heads.Keys
    && (forall p :: p in cells ==> cells[p] in repr && CellOk(cells[p], heads[p], cells, p))
  }

  predicate Below(p: Path, q: Path) {
    q != [] && q[..|q| - 1] == p
  }

  ghost predicate OneStepBelow(moved: map<Path, Cell>, p: Path) {
    forall q :: q in moved ==> Below(p, q)
  }

  /** Links of other cells do not pass through the moved ones. */
  lemma LinksKept(ms: seq<CellMember>, cells: map<Path, Cell>, moved: map<Path, Cell>, p: Path, q: Path)
    requires LinksOk(ms, cells, q) && q != p && OneStepBelow(moved, p)
    ensures LinksOk(ms, cells + moved, q)
  {
    forall m | m in ms ensures q + [m.key] !in moved {
      assert (q + [m.key])[..|q|] == q;
    }
  }

  lemma OtherCellOk(cell: Cell, head: Head, cells: map<Path, Cell>, moved: map<Path, Cell>, p: Path, q: Path)
    requires cell.alive && cell.place == q && Shows(cell.content, head) && q != p && OneStepBelow(moved, p)
    requires cell.content.ObjectContent? ==> LinksOk(cell.content.members, cells, q)
    ensures CellOk(cell, head, cells + moved, q)
  {
    if cell.content.ObjectContent? {
      LinksKept(cell.content.members, cells, moved, p, q);
    }
  }

  lemma MovedKeys(cells: map<Path, Cell>, moved: map<Path, Cell>, heads: Heads,
                  was: seq<CellMember>, ms: seq<CellMember>, p: Path, k: string)
    requires cells.Keys == heads.Keys && p in cells && heads[p] == ObjHead(CellKeys(was)) && LinksOk(was, cells, p)
    requires CellKeys(ms) == CellKeys(was) + [k]
    requires forall m :: m in ms ==> p + [m.key] in moved
    requires forall q :: q in moved ==> exists m :: m in ms && q == p + [m.key]
    requires KeysOk(heads)
    ensures OneStepBelow(moved, p)
    ensures (cells + moved).Keys == Mentioned(heads, p, k).Keys
    ensures forall q :: q in cells && Below(p, q) ==> q in moved
  {
    forall q | q in cells && Below(p, q) ensures q in moved {
      assert q == p + [q[|q| - 1]];
      var i :| 0 <= i < |was| && CellKeys(was)[i] == q[|q| - 1];
      assert CellKeys(ms)[i] == CellKeys(was)[i] && ms[i] in ms;
    }
    assert CellKeys(ms)[|was|] == k && ms[|was|] in ms;
    forall q | q in moved ensures q != [] && q[..|q| - 1] == p && (q in cells || q == p + [k]) {
      var m :| m in ms && q == p + [m.key];
      assert q[..|q| - 1] == p;
      var i :| 0 <= i < |ms| && ms[i] == m;
      assert CellKeys(ms)[i] == m.key;
      if i < |was| {
        assert CellKeys(was)[i] == m.key && was[i] in was;
      }
    }
  }

  ghost predicate ContentOk(content: Content, head: Head, cells: map<Path, Cell>, p: Path) {
    Shows(content, head) && (content.ObjectContent? ==> LinksOk(content.members, cells, p))
  }

  /** A moved cell shows what the cell at its path showed before. */
  lemma MovedCellOk(ms: seq<CellMember>, was: seq<CellMember>, contents: map<Path, Content>, cells: map<Path, Cell>,
                    moved: map<Path, Cell>, heads: Heads, p: Path, k: string, q: Path)
    requires contents.Keys == cells.Keys == heads.Keys && LinksOk(was, cells, p) && k !in CellKeys(was)
    requires forall r :: r in cells ==> ContentOk(contents[r], heads[r], cells, r)
    requires CellKeys(ms) == CellKeys(was) + [k] && OneStepBelow(moved, p)
    requires forall m :: m in ms ==> MovedTo(moved, m, p)
    requires forall r :: r in moved ==> exists m :: m in ms && r == p + [m.key]
    requires forall i :: 0 <= i < |was| ==>
               p + [was[i].key] in contents && ms[i].cell.content == contents[p + [was[i].key]]
    requires ms[|was|].cell.content == NullContent
    requires q in moved
    ensures q == p + [k] ==> CellOk(moved[q], NullHead, cells + moved, q)
    ensures q != p + [k] ==> q in cells && CellOk(moved[q], heads[q], cells + moved, q)
  {
    var m :| m in ms && q == p + [m.key];
    var i :| 0 <= i < |ms| && ms[i] == m;
    assert CellKeys(ms)[i] == m.key;
    AppendIsInjective(p, m.key, p, k);
    if i < |was| {
      assert CellKeys(was)[i] == m.key;
      assert ContentOk(contents[q], heads[q], cells, q);
      OtherCellOk(m.cell, heads[q], cells, moved, p, q);
    }
  }

  /** What `AddMember` on the cell at `p` does to the contents of the cells. */
  ghost predicate MembersMoved(was: seq<CellMember>, ms: seq<CellMember>, contents: map<Path, Content>,
                               cells: map<Path, Cell>, moved: map<Path, Cell>, p: Path, k: string)
    reads set m | m in ms :: m.cell
    reads cells.Values
  {
    && CellKeys(ms) == CellKeys(was) + [k]
    && (forall m :: m in ms ==> MovedTo(moved, m, p))
    && (forall q :: q in moved ==> exists m :: m in ms && q == p + [m.key])
    && (forall i :: 0 <= i < |was| ==> p + [was[i].key] in contents && ms[i].cell.content == contents[p + [was[i].key]])
    && ms[|was|].cell.content == NullContent
    && (forall q :: q in cells && q in contents && q != p && !Below(p, q) ==>
          cells[q].alive && cells[q].place == q && cells[q].content == contents[q])
  }

  lemma OneCellOk(was: seq<CellMember>, ms: seq<CellMember>, contents: map<Path, Content>, cells: map<Path, Cell>,
                  moved: map<Path, Cell>, heads: Heads, p: Path, k: string, q: Path)
    requires contents.Keys == cells.Keys == heads.Keys
    requires p in cells && heads[p] == ObjHead(CellKeys(was)) && k !in CellKeys(was) && LinksOk(was, cells, p)
    requires forall r :: r in cells ==> ContentOk(contents[r], heads[r], cells, r)
    requires MembersMoved(was, ms, contents, cells, moved, p, k)
    requires cells[p].alive && cells[p].place == p && cells[p].content == ObjectContent(ms)
    requires OneStepBelow(moved, p) && forall r :: r in cells && Below(p, r) ==> r in moved
    requires q in cells + moved
    ensures q in Mentioned(heads, p, k) ==> CellOk((cells + moved)[q], Mentioned(heads, p, k)[q], cells + moved, q)
  {
    if q in moved {
      MovedCellOk(ms, was, contents, cells, moved, heads, p, k, q);
    } else if q != p {
      assert ContentOk(contents[q], heads[q], cells, q);
      OtherCellOk(cells[q], heads[q], cells, moved, p, q);
    }
  }

  lemma AllCellsOk(was: seq<CellMember>, ms: seq<CellMember>, contents: map<Path, Content>, cells: map<Path, Cell>,
                   moved: map<Path, Cell>, heads: Heads, p: Path, k: string)
    requires contents.Keys == cells.Keys == heads.Keys && KeysOk(heads)
    requires p in cells && heads[p] == ObjHead(CellKeys(was)) && k !in CellKeys(was) && LinksOk(was, cells, p)
    requires forall q :: q in cells ==> ContentOk(contents[q], heads[q], cells, q)
    requires MembersMoved(was, ms, contents, cells, moved, p, k)
    requires cells[p].alive && cells[p].place == p && cells[p].content == ObjectContent(ms)
    ensures (cells + moved).Keys == Mentioned(heads, p, k).Keys && OneStepBelow(moved, p)
    ensures forall q :: q in cells + moved ==> CellOk((cells + moved)[q], Mentioned(heads, p, k)[q], cells + moved, q)
  {
    MovedKeys(cells, moved, heads, was, ms, p, k);
    forall q | q in cells + moved
      ensures CellOk((cells + moved)[q], Mentioned(heads, p, k)[q], cells + moved, q)
    {
      OneCellOk(was, ms, contents, cells, moved, heads, p, k, q);
    }
  }

  /** Cells elsewhere in the tree are neither the object nor one of its members. */
  lemma OthersApart(ms: seq<CellMember>, cells: map<Path, Cell>, heads: Heads, repr: set<Cell>, p: Path)
    requires Represents(cells, heads, repr) && p in cells
    requires forall m :: m in ms ==> m.cell.place == p + [m.key]
    ensures forall q :: q in cells && q != p && !Below(p, q) ==>
              cells[q] != cells[p] && forall m :: m in ms ==> m.cell != cells[q]
  {
    forall q | q in cells && q != p && !Below(p, q)
      ensures cells[q] != cells[p] && forall m :: m in ms ==> m.cell != cells[q]
    {
      assert CellOk(cells[q], heads[q], cells, q) && CellOk(cells[p], heads[p], cells, p);
      assert forall m :: m in ms ==> Below(p, p + [m.key]);
    }
  }

  lemma MembersAreCells(ms: seq<CellMember>, cells: map<Path, Cell>, heads: Heads, repr: set<Cell>, p: Path)
    requires Represents(cells, heads, repr) && LinksOk(ms, cells, p)
    ensures forall m :: m in ms ==> m.cell in repr && m.cell.place == p + [m.key]
  {
    forall m | m in ms ensures m.cell in repr && m.cell.place == p + [m.key] {
      assert CellOk(cells[p + [m.key]], heads[p + [m.key]], cells, p + [m.key]);
    }
  }

  /** `AddMember` on the cell at `p`: what becomes of each cell. */
  method MoveMembersOf(node: Cell, k: string, ghost p: Path, ghost cells: map<Path, Cell>,
      ghost heads: Heads, ghost repr: set<Cell>)
    returns (ghost moved: map<Path, Cell>, ghost was: seq<CellMember>, ghost contents: map<Path, Content>)
    requires Represents(cells, heads, repr) && KeysOk(heads)
    requires p in cells && node == cells[p] && heads[p].ObjHead? && k !in heads[p].keys
    modifies repr
    ensures heads[p] == ObjHead(CellKeys(was)) && LinksOk(was, cells, p)
    ensures contents.Keys == cells.Keys && forall q :: q in cells ==> ContentOk(contents[q], heads[q], cells, q)
    ensures node.content.ObjectContent? && MembersMoved(was, node.content.members, contents, cells, moved, p, k)
    ensures node.alive && node.place == p && fresh(moved.Values)
  {
    was := node.content.members;
    contents := map q | q in cells :: cells[q].content;
    assert CellOk(node, heads[p], cells, p);
    MembersAreCells(was, cells, heads, repr, p);
    OthersApart(was, cells, heads, repr, p);
    forall q | q in cells ensures ContentOk(contents[q], heads[q], cells, q) && cells[q].alive && cells[q].place == q {
      assert CellOk(cells[q], heads[q], cells, q);
    }
    moved := node.AddMember(k);
    forall i | 0 <= i < |was|
      ensures p + [was[i].key] in contents && node.content.members[i].cell.content == contents[p + [was[i].key]]
    {
      assert was[i] in was;
    }
  }

  /** `AddMember` on the cell at `p`, seen from the whole document. */
  method AddNull(node: Cell, k: string, ghost p: Path, ghost cells: map<Path, Cell>, ghost heads: Heads,
      ghost repr: set<Cell>)
    returns (ghost cells': map<Path, Cell>, ghost repr': set<Cell>)
    requires Represents(cells, heads, repr) && KeysOk(heads)
    requires p in cells && node == cells[p] && heads[p].ObjHead? && k !in heads[p].keys
    modifies repr
    ensures Represents(cells', Mentioned(heads, p, k), repr')
    ensures repr <= repr' && fresh(repr' - repr)
    ensures forall q :: q in cells && !Below(p, q) ==> q in cells' && cells'[q] == cells[q]
  {
    hide KeysOk, LinksOk, CellOk, ContentOk;
    ghost var moved, was, contents := MoveMembersOf(node, k, p, cells, heads, repr);
    AllCellsOk(was, node.content.members, contents, cells, moved, heads, p, k);
    cells', repr' := cells + moved, repr + moved.Values;
  }

  /** One cell without members takes another value without members. */
  method SetCell(cell: Cell, content: Content, ghost p: Path, ghost cells: map<Path, Cell>,
      ghost heads: Heads, ghost v: Value, ghost repr: set<Cell>)
    requires Represents(cells, heads, repr) && p in cells && cell == cells[p]
    requires (v.Leaf? || v == EMPTY) && Shows(content, HeadOf(v))
    modifies cell`content
    ensures Represents(cells, heads[p := HeadOf(v)], repr)
  {
    assert CellOk(cell, heads[p], cells, p);
    cell.SetContent(content);
    forall q | q in cells ensures CellOk(cells[q], heads[p := HeadOf(v)][q], cells, q) {
      assert old(CellOk(cells[q], heads[q], cells, q));
    }
  }

  datatype JsonBuilderNode = JsonBuilderNode(key: string, value: Cell)

  function HeadType(h: Head): JsonValueType {
    match h
    case NullHead => NullType
    case LeafHead(Bool(b)) => if b then TrueType else FalseType
    case LeafHead(Str(_)) => StringType
    case LeafHead(Num(_)) => NumberType
    case ObjHead(_) => ObjectType
  }

  /** A type is `Unknown` only for a member that has just been made. */
  predicate TypeAgrees(t: JsonValueType, h: Head) {
    if t == Unknown then h == NullHead else t == HeadType(h)
  }

  ghost predicate NodeAt(n: JsonBuilderNode, cells: map<Path, Cell>, p: Path) {
    p != [] && p in cells && n.value == cells[p] && CStr(n.key) == p[|p| - 1]
  }

  /** The stack spells the path from the root to the cursor, in live cells. */
  ghost predicate Spells(nodes: seq<JsonBuilderNode>, cells: map<Path, Cell>, path: Path) {
    |nodes| == |path| && forall i :: 0 <= i < |nodes| ==> NodeAt(nodes[i], cells, path[..i + 1])
  }

  lemma SpellsMore(nodes: seq<JsonBuilderNode>, cells: map<Path, Cell>, path: Path, n: JsonBuilderNode)
    requires Spells(nodes, cells, path)
    requires var q := path + [CStr(n.key)]; q in cells && n.value == cells[q]
    ensures Spells(nodes + [n], cells, path + [CStr(n.key)])
  {
    var q := path + [CStr(n.key)];
    forall i | 0 <= i < |nodes| + 1 ensures NodeAt((nodes + [n])[i], cells, q[..i + 1]) {
      if i < |nodes| {
        assert q[..i + 1] == path[..i + 1];
        assert NodeAt(nodes[i], cells, path[..i + 1]);
      } else {
        assert q[..i + 1] == q;
      }
    }
  }

  lemma SpellsKept(nodes: seq<JsonBuilderNode>, cells: map<Path, Cell>, cells': map<Path, Cell>, path: Path)
    requires Spells(nodes, cells, path)
    requires forall q :: q in cells && !Below(path, q) ==> q in cells' && cells'[q] == cells[q]
    ensures Spells(nodes, cells', path)
    ensures path in cells ==> path in cells' && cells'[path] == cells[path]
  {
    forall i | 0 <= i < |nodes| ensures NodeAt(nodes[i], cells', path[..i + 1]) {
      assert NodeAt(nodes[i], cells, path[..i + 1]);
    }
  }

  /** The type check in front of each assignment and of `CreateJsonObject`. */
  predicate Accepts(t: JsonValueType, w: Write) {
    match w
    case Assign(Bool(_)) => t == Unknown || t == FalseType || t == TrueType
    case Assign(Str(_)) => t == Unknown || t == StringType
    case Assign(Num(_)) => t == Unknown || t == NumberType
    case MakeObject => t == Unknown
  }

  /** The document after a write at `p`: a member of unknown type is one that the statement itself has made. */
  function AfterWrite(t: JsonValueType, j: Value, p: Path, w: Write): Value {
    Replace(j, p, Written(if t == Unknown then None else Lookup(j, p), w))
  }

  /** The check lets a write through exactly when the nested update changes the member. */
  lemma AcceptedWrite(t: JsonValueType, j: Value, p: Path, w: Write)
    requires Lookup(j, p).Some? && TypeAgrees(t, HeadOf(Lookup(j, p).value))
    ensures Accepts(t, w) ==> !Lookup(j, p).value.Obj?
    ensures AfterWrite(t, j, p, w) == if Accepts(t, w) then Replace(j, p, Written(None, w)) else j
  {
    ReplaceSame(j, p);
  }

  lemma StringOver(t: JsonValueType, j: Value, p: Path, text: string)
    requires Lookup(j, p).Some? && TypeAgrees(t, HeadOf(Lookup(j, p).value))
    ensures AfterWrite(t, j, p, Assign(Str(text))) ==
            if t == Unknown || exists u :: Lookup(j, p) == Some(Leaf(Str(u)))
            then Replace(j, p, Leaf(Str(text))) else j
  {
    hide Replace, Lookup;
    AcceptedWrite(t, j, p, Assign(Str(text)));
  }

  lemma NumberOver(t: JsonValueType, j: Value, p: Path, number: Number)
    requires Lookup(j, p).Some? && TypeAgrees(t, HeadOf(Lookup(j, p).value))
    ensures AfterWrite(t, j, p, Assign(Num(number))) ==
            if t == Unknown || exists n :: Lookup(j, p) == Some(Leaf(Num(n)))
            then Replace(j, p, Leaf(Num(number))) else j
  {
    hide Replace, Lookup;
    AcceptedWrite(t, j, p, Assign(Num(number)));
  }

  lemma BoolOver(t: JsonValueType, j: Value, p: Path, value: bool)
    requires Lookup(j, p).Some? && TypeAgrees(t, HeadOf(Lookup(j, p).value))
    ensures AfterWrite(t, j, p, Assign(Bool(value))) ==
            if t == Unknown || exists b :: Lookup(j, p) == Some(Leaf(Bool(b)))
            then Replace(j, p, Leaf(Bool(value))) else j
  {
    hide Replace, Lookup;
    AcceptedWrite(t, j, p, Assign(Bool(value)));
  }

  lemma ObjectOver(t: JsonValueType, j: Value, p: Path)
    requires Lookup(j, p).Some? && TypeAgrees(t, HeadOf(Lookup(j, p).value))
    ensures AfterWrite(t, j, p, MakeObject) == if t == Unknown then Replace(j, p, Obj([])) else j
  {
    hide Replace, Lookup;
    AcceptedWrite(t, j, p, MakeObject);
  }

  /** The cells at and below `p` that `copied` has to have. */
  ghost predicate CopiedBelow(copied: map<Path, Cell>, cells: map<Path, Cell>, heads: Heads, p: Path)
    reads copied.Values
  {
    && cells.Keys == heads.Keys
    && (forall q :: q in copied <==> q in cells && p <= q)
    && (forall q :: q in copied ==> CellOk(copied[q], heads[q], copied, q))
  }

  /** Only an object has anything below it. */
  lemma NothingBelow(heads: Heads, doc: Value, p: Path)
    requires Agrees(heads, doc) && p in heads && !heads[p].ObjHead?
    ensures forall q :: q in heads && p <= q ==> q == p
  {
    forall q | q in heads && p <= q ensures q == p {
      var rest := Extension(p, q);
      LookupAppend(doc, p, rest);
      assert rest == [] ==> q == p;
    }
  }

  /** At or below one of the members. */
  ghost predicate UnderOne(ms: seq<CellMember>, p: Path, q: Path) {
    exists i :: 0 <= i < |ms| && p + [ms[i].key] <= q
  }

  /** The copies of the first `i` members. */
  ghost predicate CopiedMembers(ms: seq<CellMember>, copied: map<Path, Cell>, was: seq<CellMember>, i: nat,
                                cells: map<Path, Cell>, heads: Heads, p: Path)
    requires i <= |was| && cells.Keys == heads.Keys
    reads copied.Values
  {
    && CellKeys(ms) == CellKeys(was)[..i] && LinksOk(ms, copied, p)
    && (forall q :: q in copied <==> q in cells && UnderOne(was[..i], p, q))
    && (forall q :: q in copied ==> CellOk(copied[q], heads[q], copied, q))
  }

  /** A copied cell stays right when copies at other paths are added. */
  lemma CopiedStaysOk(copied: map<Path, Cell>, more: map<Path, Cell>, head: Head, q: Path)
    requires q in copied && CellOk(copied[q], head, copied, q)
    requires copied.Keys !! more.Keys
    ensures CellOk(copied[q], head, copied + more, q)
    ensures CellOk(copied[q], head, more + copied, q)
  {
  }

  lemma UnderOneMore(was: seq<CellMember>, i: nat, p: Path, q: Path)
    requires i < |was|
    ensures UnderOne(was[..i + 1], p, q) <==> UnderOne(was[..i], p, q) || p + [was[i].key] <= q
  {
    if UnderOne(was[..i + 1], p, q) {
      var j :| 0 <= j < i + 1 && p + [was[..i + 1][j].key] <= q;
      assert j < i ==> was[..i][j] == was[j];
    }
    if UnderOne(was[..i], p, q) {
      var j :| 0 <= j < i && p + [was[..i][j].key] <= q;
      assert was[..i + 1][j] == was[j];
    }
    assert was[..i + 1][i] == was[i];
  }

  /** Copies of different members have no path in common. */
  lemma UnderOtherMembers(was: seq<CellMember>, i: nat, p: Path, q: Path)
    requires i < |was| && Distinct(CellKeys(was)) && p + [was[i].key] <= q
    ensures !UnderOne(was[..i], p, q)
  {
    forall j | 0 <= j < i ensures !(p + [was[..i][j].key] <= q) {
      assert CellKeys(was)[j] != CellKeys(was)[i];
      assert q[|p|] == (p + [was[i].key])[|p|] == was[i].key;
      assert (p + [was[j].key])[|p|] == was[j].key;
    }
  }

  lemma CopyDomain(copied: map<Path, Cell>, more: map<Path, Cell>, was: seq<CellMember>, i: nat,
                   cells: map<Path, Cell>, heads: Heads, p: Path)
    requires i < |was| && Distinct(CellKeys(was))
    requires forall q :: q in copied <==> q in cells && UnderOne(was[..i], p, q)
    requires forall q :: q in more <==> q in cells && p + [was[i].key] <= q
    ensures copied.Keys !! more.Keys
    ensures forall q :: q in copied + more <==> q in cells && UnderOne(was[..i + 1], p, q)
  {
    hide UnderOne;
    forall q | q in more ensures q !in copied {
      UnderOtherMembers(was, i, p, q);
    }
    forall q ensures q in copied + more <==> q in cells && UnderOne(was[..i + 1], p, q) {
      UnderOneMore(was, i, p, q);
    }
  }

  lemma CopyOneMore(ms: seq<CellMember>, copied: map<Path, Cell>, more: map<Path, Cell>, cell: Cell,
                    was: seq<CellMember>, i: nat, cells: map<Path, Cell>, heads: Heads, p: Path)
    requires i < |was| && cells.Keys == heads.Keys && Distinct(CellKeys(was))
    requires CopiedMembers(ms, copied, was, i, cells, heads, p)
    requires CopiedBelow(more, cells, heads, p + [was[i].key])
    requires p + [was[i].key] in more && more[p + [was[i].key]] == cell
    ensures CopiedMembers(ms + [CellMember(was[i].key, cell)], copied + more, was, i + 1, cells, heads, p)
  {
    hide UnderOne, CellOk;
    CopyDomain(copied, more, was, i, cells, heads, p);
    forall q | q in copied + more ensures CellOk((copied + more)[q], heads[q], copied + more, q) {
      if q in more {
        CopiedStaysOk(more, copied, heads[q], q);
      } else {
        CopiedStaysOk(copied, more, heads[q], q);
      }
    }
    assert CellKeys(ms + [CellMember(was[i].key, cell)]) == CellKeys(was)[..i + 1];
  }

  lemma NoCopies(was: seq<CellMember>, cells: map<Path, Cell>, heads: Heads, repr: set<Cell>, p: Path)
    requires Represents(cells, heads, repr) && KeysOk(heads) && p in cells && heads[p] == ObjHead(CellKeys(was))
    ensures cells.Keys == heads.Keys && Distinct(CellKeys(was)) && CopiedMembers([], map[], was, 0, cells, heads, p)
  {
  }

  lemma ChildIsSmaller(heads: Heads, doc: Value, p: Path, k: string)
    requires Agrees(heads, doc) && p in heads && p + [k] in heads
    ensures Lookup(doc, p + [k]).value < Lookup(doc, p).value
  {
    LookupAppend(doc, p, [k]);
  }

  lemma ObjectOk(copy: Cell, ms: seq<CellMember>, cells: map<Path, Cell>, p: Path)
    requires copy.alive && copy.place == p && copy.content == ObjectContent(ms) && LinksOk(ms, cells, p)
    ensures CellOk(copy, ObjHead(CellKeys(ms)), cells, p)
  {
  }

  /** What is below an object is at or below one of its members. */
  lemma BelowMember(heads: Heads, doc: Value, p: Path, q: Path)
    requires Agrees(heads, doc) && p in heads && q in heads && p <= q && p != q && heads[p].ObjHead?
    ensures q[|p|] in heads[p].keys && p + [q[|p|]] <= q
  {
    KeyOnTheWay(doc, p, q);
    assert q[..|p| + 1] == p + [q[|p|]];
  }

  /** What is strictly below an object is what is at or below its members. */
  lemma UnderAny(heads: Heads, doc: Value, was: seq<CellMember>, p: Path, q: Path)
    requires Agrees(heads, doc) && p in heads && heads[p] == ObjHead(CellKeys(was))
    ensures q in heads ==> (UnderOne(was, p, q) <==> p <= q && p != q)
  {
    if q in heads && p <= q && q != p {
      BelowMember(heads, doc, p, q);
      var i :| 0 <= i < |was| && CellKeys(was)[i] == q[|p|];
      assert p + [was[i].key] <= q;
    }
    if UnderOne(was, p, q) {
      var i :| 0 <= i < |was| && p + [was[i].key] <= q;
      assert p <= p + [was[i].key];
    }
  }

  /** The copied members and the copied object make a copy of the whole subtree. */
  lemma CopyOfObject(copy: Cell, ms: seq<CellMember>, copied: map<Path, Cell>, was: seq<CellMember>,
                     cells: map<Path, Cell>, heads: Heads, doc: Value, p: Path)
    requires cells.Keys == heads.Keys && Agrees(heads, doc) && p in cells && heads[p] == ObjHead(CellKeys(was))
    requires CopiedMembers(ms, copied, was, |was|, cells, heads, p)
    requires copy.alive && copy.place == p && copy.content == ObjectContent(ms)
    ensures CopiedBelow(copied[p := copy], cells, heads, p)
  {
    hide CellOk, Agrees;
    assert was[..|was|] == was && CellKeys(ms) == CellKeys(was);
    forall q ensures q in copied[p := copy] <==> q in cells && p <= q {
      UnderAny(heads, doc, was, p, q);
    }
    UnderAny(heads, doc, was, p, p);
    assert copied + map[p := copy] == copied[p := copy];
    forall q | q in copied ensures CellOk(copied[q], heads[q], copied[p := copy], q) {
      CopiedStaysOk(copied, map[p := copy], heads[q], q);
    }
    ObjectOk(copy, ms, copied[p := copy], p);
  }

  /** The copied cell of a value without members is a copy of the whole subtree. */
  lemma CopyOfLeaf(copy: Cell, cells: map<Path, Cell>, heads: Heads, doc: Value, p: Path)
    requires cells.Keys == heads.Keys && Agrees(heads, doc) && p in cells && !copy.content.ObjectContent?
    requires copy.alive && copy.place == p && Shows(copy.content, heads[p])
    ensures CopiedBelow(map[p := copy], cells, heads, p)
  {
    hide Agrees;
    NothingBelow(heads, doc, p);
  }

  /** What the content of a cell says of the document. */
  lemma SourceFacts(cells: map<Path, Cell>, heads: Heads, repr: set<Cell>, p: Path)
    requires Represents(cells, heads, repr) && p in cells
    ensures cells.Keys == heads.Keys
    ensures match cells[p].content
            case ObjectContent(was) => heads[p] == ObjHead(CellKeys(was)) && LinksOk(was, cells, p)
            case content => Shows(content, heads[p])
  {
    assert CellOk(cells[p], heads[p], cells, p);
  }

  /** `CopyFrom`: a deep copy, cell by cell. */
  method CopyFrom(src: Cell, ghost p: Path, ghost cells: map<Path, Cell>, ghost heads: Heads,
      ghost repr: set<Cell>, ghost doc: Value)
    returns (copy: Cell, ghost copied: map<Path, Cell>)
    requires Represents(cells, heads, repr) && Agrees(heads, doc) && KeysOk(heads) && p in cells && src == cells[p]
    ensures p in copied && copied[p] == copy && forall q :: q in copied ==> fresh(copied[q])
    ensures CopiedBelow(copied, cells, heads, p)
    decreases Lookup(doc, p).value
  {
    hide Represents, Agrees, KeysOk, CellOk, CopiedMembers, CopiedBelow, Shows, CellKeys;
    SourceFacts(cells, heads, repr, p);
    match src.content {
      case ObjectContent(was) =>
        var ms;
        ms, copied := CopyMembers(was, p, cells, heads, repr, doc);
        copy := new Cell(ObjectContent(ms), p);
        CopyOfObject(copy, ms, copied, was, cells, heads, doc, p);
        copied := copied[p := copy];
      case _ =>
        copy := new Cell(src.content, p);
        copied := map[p := copy];
        CopyOfLeaf(copy, cells, heads, doc, p);
    }
  }

  method CopyMembers(was: seq<CellMember>, ghost p: Path, ghost cells: map<Path, Cell>, ghost heads: Heads,
      ghost repr: set<Cell>, ghost doc: Value)
    returns (ms: seq<CellMember>, ghost copied: map<Path, Cell>)
    requires Represents(cells, heads, repr) && Agrees(heads, doc) && KeysOk(heads) && p in cells
    requires heads[p] == ObjHead(CellKeys(was)) && LinksOk(was, cells, p)
    ensures CopiedMembers(ms, copied, was, |was|, cells, heads, p)
    ensures forall q :: q in copied ==> fresh(copied[q])
    decreases Lookup(doc, p).value, 0
  {
    hide Represents, Agrees, KeysOk, CellOk, CopiedMembers, CopiedBelow;
    ms, copied := [], map[];
    NoCopies(was, cells, heads, repr, p);
    var i := 0;
    while i < |was|
      invariant 0 <= i <= |was| && cells.Keys == heads.Keys
      invariant CopiedMembers(ms, copied, was, i, cells, heads, p)
      invariant forall q :: q in copied ==> fresh(copied[q])
    {
      var m := was[i];
      ChildIsSmaller(heads, doc, p, m.key);
      var cell, more := CopyFrom(m.cell, p + [m.key], cells, heads, repr, doc);
      CopyOneMore(ms, copied, more, cell, was, i, cells, heads, p);
      ms, copied := ms + [CellMember(m.key, cell)], copied + more;
      i := i + 1;
    }
  }

  lemma CopyRepresents(copied: map<Path, Cell>, cells: map<Path, Cell>, heads: Heads, repr: set<Cell>)
    requires Represents(cells, heads, repr) && CopiedBelow(copied, cells, heads, [])
    ensures Represents(copied, heads, copied.Values)
  {
    forall q ensures q in copied <==> q in heads {
      assert [] <= q;
    }
  }

  class ValueBuilder {
    const document: Cell
    var currentValue: Cell
    var isEmpty: bool
    var currentType: JsonValueType
    var valueNodes: seq<JsonBuilderNode>
    /** The live cell at each path. */
    ghost var cells: map<Path, Cell>
    ghost var repr: set<Cell>
    ghost var heads: Heads
    /** The document that the cells hold. */
    ghost var doc: Value
    /** The path of the statement that is being run; empty between statements. */
    ghost var path: Path

    /** The cells hold the document. */
    ghost predicate Holds()
      reads this`cells, this`heads, this`repr, this`doc, repr
    {
      && Represents(cells, heads, repr) && Agrees(heads, doc) && KeysOk(heads)
      && [] in cells && cells[[]] == document && heads[[]].ObjHead?
    }

    ghost predicate CursorOk()
      reads this`cells, this`path, this`currentValue, this`currentType, this`heads
    {
      path != [] ==>
        path in cells && path in heads && currentValue == cells[path] && TypeAgrees(currentType, heads[path])
    }

    ghost predicate Valid()
      reads this, repr
    {
      && Holds() && Spells(valueNodes, cells, path) && CursorOk()
      && (isEmpty ==> doc == EMPTY && path == [])
    }

    constructor ()
      ensures Valid() && doc == EMPTY && path == [] && fresh(repr)
    {
      var cell := new Cell(ObjectContent([]), []);
      document := cell;
      currentValue, isEmpty, currentType, valueNodes := cell, true, Unknown, [];
      cells, repr, heads := map[[] := cell], {cell}, map[[] := ObjHead([])];
      doc, path := EMPTY, [];
    }

    /** The copy constructor: a deep copy that is at rest, even when the original is inside a statement. */
    constructor Copy(other: ValueBuilder)
      requires other.Valid()
      ensures Valid() && doc == other.doc && path == [] && fresh(repr)
    {
      hide Represents, Agrees, KeysOk, CopiedBelow;
      var cell;
      ghost var copied;
      cell, copied := CopyFrom(other.document, [], other.cells, other.heads, other.repr, other.doc);
      CopyRepresents(copied, other.cells, other.heads, other.repr);
      document := cell;
      currentValue, isEmpty, currentType, valueNodes := cell, other.isEmpty, Unknown, [];
      cells, repr, heads := copied, copied.Values, other.heads;
      doc, path := other.doc, [];
    }

    method GetNodeValue() returns (node: Cell)
      requires Valid()
      ensures path in cells && node == cells[path]
    {
      if |valueNodes| == 0 {
        node := document;
      } else {
        node := valueNodes[|valueNodes| - 1].value;
        assert NodeAt(valueNodes[|path| - 1], cells, path[..|path|]) && path[..|path|] == path;
      }
    }

    /** `document_.SetObject()` on first use: the document is an empty object already. */
    method SetRootObject()
      requires Valid()
      modifies this`isEmpty, document`content
      ensures Valid() && !isEmpty
    {
      if isEmpty {
        assert heads[[]] == ObjHead([]);
        assert CellOk(document, heads[[]], cells, []);
        document.SetContent(ObjectContent([]));
        isEmpty := false;
        forall p | p in cells ensures CellOk(cells[p], heads[p], cells, p) {
          assert old(CellOk(cells[p], heads[p], cells, p));
        }
      }
    }

    method FindMemberAt(node: Cell, k: string) returns (cell: Cell)
      requires Holds() && path in cells && node == cells[path] && path + [k] in heads && heads[path].ObjHead?
      requires k in heads[path].keys
      ensures path + [k] in cells && cell == cells[path + [k]]
      ensures cell.alive && HeadType(heads[path + [k]]) == TypeOf(cell.content)
    {
      assert CellOk(node, heads[path], cells, path);
      cell := node.FindMember(k);
      assert CellMember(k, cell) in node.content.members;
      assert CellOk(cell, heads[path + [k]], cells, path + [k]);
    }

    lemma HoldsFacts()
      requires Holds()
      ensures cells.Keys == heads.Keys && document in repr
      ensures path in cells ==> cells[path] in repr
    {
    }

    /** The cursor's cell is an object whose keys tell whether the next key is there. */
    lemma NextKey(k: string)
      requires Holds() && path in cells && Disciplined(doc, path + [k])
      ensures cells[path].alive && cells[path].content.ObjectContent? && heads[path].ObjHead?
      ensures cells[path].HasMember(k) <==> path + [k] in heads
      ensures k in heads[path].keys <==> path + [k] in heads
      ensures Lookup(doc, path + [k]).Some? <==> path + [k] in heads
    {
      DisciplinedParent(doc, path, k);
      LookupAppend(doc, path, [k]);
      assert CellOk(cells[path], heads[path], cells, path);
      IndexOfKey(Lookup(doc, path).value.members, k);
    }

    method AddMemberAt(node: Cell, k: string)
      requires Holds() && Spells(valueNodes, cells, path)
      requires path in cells && node == cells[path] && heads[path].ObjHead? && k !in heads[path].keys
      modifies this`cells, this`repr, this`heads, this`doc, repr
      ensures Holds() && Spells(valueNodes, cells, path) && fresh(repr - old(repr))
      ensures doc == Replace(old(doc), path + [k], Null)
      ensures path in cells && path in heads && node == cells[path] && heads[path].ObjHead? && k in heads[path].keys
      ensures path + [k] in heads && heads[path + [k]] == NullHead
    {
      hide Represents, Agrees, KeysOk, Spells;
      HoldsFacts();
      ghost var before := heads;
      MentionAgrees(heads, doc, path, k);
      MentionKeysOk(heads, path, k);
      heads, doc := Mentioned(heads, path, k), Replace(doc, path + [k], Null);
      ghost var moved, all := AddNull(node, k, path, cells, before, repr);
      SpellsKept(valueNodes, cells, moved, path);
      cells, repr := moved, all;
    }

    method FindOrAdd(node: Cell, k: string)
      requires Holds() && Spells(valueNodes, cells, path)
      requires path in cells && node == cells[path] && Disciplined(doc, path + [k])
      modifies this`cells, this`repr, this`heads, this`doc, this`currentType, this`currentValue, repr
      ensures Holds() && Spells(valueNodes, cells, path) && fresh(repr - old(repr))
      ensures path + [k] in cells && path + [k] in heads && currentValue == cells[path + [k]]
      ensures TypeAgrees(currentType, heads[path + [k]])
      ensures currentType == Unknown <==> Lookup(old(doc), path + [k]).None?
      ensures doc == if Lookup(old(doc), path + [k]).Some? then old(doc) else Replace(old(doc), path + [k], Null)
    {
      hide Represents, Agrees, KeysOk, Spells;
      HoldsFacts();
      NextKey(k);
      if !node.HasMember(k) {
        AddMemberAt(node, k);
        currentType := Unknown;
        currentValue := FindMemberAt(node, k);
      } else {
        currentValue := FindMemberAt(node, k);
        currentType := currentValue.GetType();
      }
    }

    /** `value_nodes_.emplace_back`. */
    method Push(key: string)
      requires Spells(valueNodes, cells, path) && path + [CStr(key)] in cells && path + [CStr(key)] in heads
      requires currentValue == cells[path + [CStr(key)]] && TypeAgrees(currentType, heads[path + [CStr(key)]])
      modifies `valueNodes, `path
      ensures Spells(valueNodes, cells, path) && CursorOk() && path == old(path) + [CStr(key)]
    {
      SpellsMore(valueNodes, cells, path, JsonBuilderNode(key, currentValue));
      valueNodes := valueNodes + [JsonBuilderNode(key, currentValue)];
      path := path + [CStr(key)];
    }

    /** `json[key]`: descend to the member, which is made as a null when missing. */
    method Index(key: string)
      requires Valid() && Disciplined(doc, path + [CStr(key)])
      modifies this, repr
      ensures Valid() && fresh(repr - old(repr))
      ensures path == old(path) + [CStr(key)]
      ensures currentType == Unknown <==> Lookup(old(doc), path).None?
      ensures doc == if Lookup(old(doc), path).Some? then old(doc) else Replace(old(doc), path, Null)
    {
      hide Represents, Agrees, KeysOk, Spells;
      HoldsFacts();
      SetRootObject();
      var node := GetNodeValue();
      FindOrAdd(node, CStr(key));
      Push(key);
    }

    /** The cursor's cell takes a value without members. */
    method SetCurrent(content: Content, ghost v: Value)
      requires Holds() && path != [] && path in heads && path in cells && currentValue == cells[path]
      requires !heads[path].ObjHead? && (v.Leaf? || v == EMPTY) && Shows(content, HeadOf(v))
      modifies this`heads, this`doc, repr
      ensures Holds() && doc == Replace(old(doc), path, v)
    {
      hide Represents, Agrees, KeysOk;
      HoldsFacts();
      SetAgrees(heads, doc, path, v);
      SetKeysOk(heads, path, v);
      SetCell(currentValue, content, path, cells, heads, v, repr);
      heads, doc := heads[path := HeadOf(v)], Replace(doc, path, v);
    }

    /** `value_nodes_.clear()`. */
    method Clear()
      modifies `valueNodes, `path
      ensures valueNodes == [] && path == [] && Spells(valueNodes, cells, path) && CursorOk()
    {
      valueNodes, path := [], [];
    }

    lemma CursorFacts()
      requires Valid() && path != []
      ensures path in heads && path in cells && currentValue == cells[path] && TypeAgrees(currentType, heads[path])
      ensures Lookup(doc, path).Some? && heads[path] == HeadOf(Lookup(doc, path).value)
      ensures !isEmpty && document in repr
    {
    }

    /** The end of a statement: the value is set when the check let it through, and the stack is cleared. */
    method Finish(accepted: bool, w: Write)
      requires Valid() && path != [] && (accepted <==> Accepts(currentType, w))
      modifies this, repr
      ensures Valid() && path == [] && repr == old(repr)
      ensures doc == AfterWrite(old(currentType), old(doc), old(path), w)
    {
      hide Represents, Agrees, KeysOk, Spells;
      CursorFacts();
      AcceptedWrite(currentType, doc, path, w);
      if accepted {
        SetCurrent(if w.Assign? then LeafContent(w.scalar) else ObjectContent([]), Written(None, w));
      }
      Clear();
    }

    /** `json[...] = std::string`. */
    method AssignString(value: string)
      requires Valid() && path != []
      modifies this, repr
      ensures Valid() && path == [] && fresh(repr - old(repr))
      ensures var was := Lookup(old(doc), old(path));
              doc == if old(currentType) == Unknown || exists t :: was == Some(Leaf(Str(t)))
                     then Replace(old(doc), old(path), Leaf(Str(CStr(value)))) else old(doc)
      ensures doc == AfterWrite(old(currentType), old(doc), old(path), Assign(Str(CStr(value))))
    {
      hide ValueBuilder.Valid, AfterWrite, Lookup, Replace;
      CursorFacts();
      StringOver(currentType, doc, path, CStr(value));
      SetRootObject();
      Finish(currentType == Unknown || currentType == StringType, Assign(Str(CStr(value))));
    }

    /** `json[...] = int`, `unsigned int`, `float` or `double`. */
    method AssignNumber(value: Number)
      requires Valid() && path != []
      modifies this, repr
      ensures Valid() && path == [] && fresh(repr - old(repr))
      ensures var was := Lookup(old(doc), old(path));
              doc == if old(currentType) == Unknown || exists n :: was == Some(Leaf(Num(n)))
                     then Replace(old(doc), old(path), Leaf(Num(value))) else old(doc)
      ensures doc == AfterWrite(old(currentType), old(doc), old(path), Assign(Num(value)))
    {
      hide ValueBuilder.Valid, AfterWrite, Lookup, Replace;
      CursorFacts();
      NumberOver(currentType, doc, path, value);
      SetRootObject();
      Finish(currentType == Unknown || currentType == NumberType, Assign(Num(value)));
    }

    method AssignBool(value: bool)
      requires Valid() && path != []
      modifies this, repr
      ensures Valid() && path == [] && fresh(repr - old(repr))
      ensures var was := Lookup(old(doc), old(path));
              doc == if old(currentType) == Unknown || exists b :: was == Some(Leaf(Bool(b)))
                     then Replace(old(doc), old(path), Leaf(Bool(value))) else old(doc)
      ensures doc == AfterWrite(old(currentType), old(doc), old(path), Assign(Bool(value)))
    {
      hide ValueBuilder.Valid, AfterWrite, Lookup, Replace;
      CursorFacts();
      BoolOver(currentType, doc, path, value);
      SetRootObject();
      Finish(currentType == Unknown || currentType == FalseType || currentType == TrueType, Assign(Bool(value)));
    }

    method CreateJsonObject()
      requires Valid() && path != []
      modifies this, repr
      ensures Valid() && path == [] && fresh(repr - old(repr))
      ensures doc == if old(currentType) == Unknown then Replace(old(doc), old(path), Obj([])) else old(doc)
      ensures doc == AfterWrite(old(currentType), old(doc), old(path), MakeObject)
    {
      hide ValueBuilder.Valid, AfterWrite, Lookup, Replace;
      CursorFacts();
      ObjectOver(currentType, doc, path);
      Finish(currentType == Unknown, MakeObject);
    }
  }

  /** The chain of `[]`. */
  method Reach(json: ValueBuilder, p: Path)
    requires json.Valid() && json.path == [] && Disciplined(json.doc, CPath(p))
    modifies json, json.repr
    ensures json.Valid() && json.path == CPath(p) && fresh(json.repr - old(json.repr))
    ensures json.currentType == Unknown <==> Lookup(old(json.doc), CPath(p)).None?
    ensures json.doc == if Lookup(old(json.doc), CPath(p)).Some? then old(json.doc)
                        else Replace(old(json.doc), CPath(p), Null)
  {
    hide ValueBuilder.Valid;
    ghost var q := CPath(p);
    var i := 0;
    while i < |p|
      invariant 0 <= i <= |p| && json.Valid() && json.path == q[..i] && fresh(json.repr - old(json.repr))
      invariant i < |p| ==> json.doc == old(json.doc)
      invariant i == |p| ==> (json.currentType == Unknown <==> Lookup(old(json.doc), q).None?)
      invariant i == |p| ==>
                  json.doc == if Lookup(old(json.doc), q).Some? then old(json.doc) else Replace(old(json.doc), q, Null)
    {
      DisciplinedPrefix(old(json.doc), q, i + 1);
      assert q[..i] + [CStr(p[i])] == q[..i + 1];
      json.Index(p[i]);
      i := i + 1;
      assert q[..|p|] == q;
    }
    assert q[..|p|] == q;
  }

  lemma AcceptedAfterReach(before: Value, after: Value, p: Path, t: JsonValueType, w: Write)
    requires Disciplined(before, p) && (t == Unknown <==> Lookup(before, p).None?)
    requires after == if Lookup(before, p).Some? then before else Replace(before, p, Null)
    ensures AfterWrite(t, after, p, w) == Put(before, Statement(p, w))
  {
    ReplaceTwice(before, p, Null, Written(None, w));
  }

  /** `json[k1]...[kn] = value` or `json[k1]...[kn].CreateJsonObject()`: one nested update of the document. */
  method Execute(json: ValueBuilder, s: Statement)
    requires json.Valid() && json.path == [] && Disciplined(json.doc, CPath(s.path))
    modifies json, json.repr
    ensures json.Valid() && json.path == [] && fresh(json.repr - old(json.repr))
    ensures json.doc == Put(old(json.doc), CStatement(s))
  {
    hide ValueBuilder.Valid;
    Reach(json, s.path);
    AcceptedAfterReach(old(json.doc), json.doc, json.path, json.currentType, CWrite(s.write));
    match s.write {
      case Assign(Str(t)) => json.AssignString(t);
      case Assign(Num(n)) => json.AssignNumber(n);
      case Assign(Bool(b)) => json.AssignBool(b);
      case MakeObject => json.CreateJsonObject();
    }
  }

  lemma StackIsEmpty(json: ValueBuilder)
    requires json.Valid() && json.path == []
    ensures json.valueNodes == []
  {
  }

  /** A disciplined run is the fold of its nested updates, and leaves the builder at rest. */
  method RunStatements(json: ValueBuilder, ss: seq<Statement>)
    requires json.Valid() && json.path == [] && DisciplinedRun(json.doc, CStatements(ss))
    modifies json, json.repr
    ensures json.Valid() && json.path == [] && json.valueNodes == [] && fresh(json.repr - old(json.repr))
    ensures json.doc == Run(old(json.doc), CStatements(ss))
  {
    hide ValueBuilder.Valid;
    ghost var cs := CStatements(ss);
    var i := 0;
    while i < |ss|
      invariant 0 <= i <= |ss| && json.Valid() && json.path == [] && fresh(json.repr - old(json.repr))
      invariant json.doc == Run(old(json.doc), cs[..i])
    {
      RunPrefix(old(json.doc), cs, i);
      Execute(json, ss[i]);
      i := i + 1;
    }
    assert cs[..|ss|] == cs;
    StackIsEmpty(json);
  }

  /** After a copy, runs on the original and on the copy do not see each other. */
  method CopyIsIndependent(json: ValueBuilder, ss: seq<Statement>, ts: seq<Statement>) returns (copy: ValueBuilder)
    requires json.Valid() && json.path == []
    requires DisciplinedRun(json.doc, CStatements(ss)) && DisciplinedRun(json.doc, CStatements(ts))
    modifies json, json.repr
    ensures json.Valid() && json.doc == Run(old(json.doc), CStatements(ss))
    ensures copy.Valid() && copy.doc == Run(old(json.doc), CStatements(ts))
    ensures json.repr !! copy.repr && fresh(copy) && fresh(copy.repr)
  {
    hide ValueBuilder.Valid;
    copy := new ValueBuilder.Copy(json);
    RunStatements(json, ss);
    RunStatements(copy, ts);
  }

  lemma ReadFacts(ms: seq<CellMember>, cells: map<Path, Cell>, heads: Heads, repr: set<Cell>, p: Path)
    requires Represents(cells, heads, repr) && KeysOk(heads) && p in cells && heads[p] == ObjHead(CellKeys(ms))
    ensures cells.Keys == heads.Keys && Distinct(CellKeys(ms))
  {
  }

  lemma MemberAt(doc: Value, p: Path, i: nat)
    requires Lookup(doc, p).Some? && Lookup(doc, p).value.Obj? && i < |Lookup(doc, p).value.members|
    requires Distinct(Keys(Lookup(doc, p).value.members))
    ensures var m := Lookup(doc, p).value.members[i]; Lookup(doc, p + [m.key]) == Some(m.value)
  {
    var ms := Lookup(doc, p).value.members;
    LookupAppend(doc, p, [ms[i].key]);
    var x := IndexOf(ms, ms[i].key);
    assert Keys(ms)[i] == ms[i].key && x != -1 && Keys(ms)[x] == ms[x].key;
  }

  method ReadCell(cell: Cell, ghost p: Path, ghost cells: map<Path, Cell>, ghost heads: Heads,
      ghost repr: set<Cell>, ghost doc: Value)
    returns (v: Value)
    requires Represents(cells, heads, repr) && Agrees(heads, doc) && KeysOk(heads) && p in cells && cell == cells[p]
    ensures Lookup(doc, p) == Some(v)
    decreases Lookup(doc, p).value
  {
    assert CellOk(cell, heads[p], cells, p);
    match cell.content {
      case NullContent => v := Null;
      case LeafContent(s) => v := Leaf(s);
      case ObjectContent(ms) =>
        var us := ReadMembers(ms, p, cells, heads, repr, doc);
        v := Obj(us);
    }
  }

  method ReadMembers(ms: seq<CellMember>, ghost p: Path, ghost cells: map<Path, Cell>, ghost heads: Heads,
      ghost repr: set<Cell>, ghost doc: Value)
    returns (us: seq<Member>)
    requires Represents(cells, heads, repr) && Agrees(heads, doc) && KeysOk(heads) && p in cells
    requires heads[p] == ObjHead(CellKeys(ms)) && LinksOk(ms, cells, p)
    ensures Lookup(doc, p) == Some(Obj(us))
    decreases Lookup(doc, p).value, 0
  {
    hide Represents, KeysOk;
    ReadFacts(ms, cells, heads, repr, p);
    us := [];
    ghost var all := Lookup(doc, p).value.members;
    assert Keys(all) == CellKeys(ms);
    var i := 0;
    while i < |ms|
      invariant 0 <= i <= |ms| && us == all[..i]
    {
      ChildIsSmaller(heads, doc, p, ms[i].key);
      MemberAt(doc, p, i);
      var u := ReadCell(ms[i].cell, p + [ms[i].key], cells, heads, repr, doc);
      us := us + [Member(ms[i].key, u)];
      i := i + 1;
    }
    assert all[..|ms|] == all;
  }

  /** The walk that serialisation makes over the cells: it sees exactly the document. */
  method Document(json: ValueBuilder) returns (v: Value)
    requires json.Valid()
    ensures v == json.doc
  {
    v := ReadCell(json.document, [], json.cells, json.heads, json.repr, json.doc);
  }
}
