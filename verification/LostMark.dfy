/** A run of the library that leaves a waiting-writer mark behind. "x" is being read when a rename of "x"
    to "/d/a/b/y" has to wait and marks it; then the file system lets "a" be removed from "/d" although it
    holds "b", so that the rename fails when it is woken, and nobody takes the mark away. */
module LostMark {

  import opened Options
  import opened InodeTree
  import opened TreeLocks
  import opened TreeProtocol
  import opened LockQueue
  import opened PathBuffer
  import opened NodeIds
  import opened FuseTables
  import opened FuseNodes

  const X: Link := Link(ROOT, "x")
  const D: Link := Link(ROOT, "d")
  const A: Link := Link(3, "a")
  const B: Link := Link(4, "b")

  const READ: HoldId := HoldId(1, First)
  const FROM: PathReq := PathReq(ROOT, Some("x"), true)
  const TO: PathReq := PathReq(5, Some("y"), true)
  const REMOVAL: PathReq := PathReq(3, Some("a"), true)
  const RENAME: Elem := NewElem(2, FROM, Some(TO), None)

  function RunNames(there: bool): Names {
    if there then map[X := 2, D := 3, A := 4, B := 5] else map[X := 2, D := 3, B := 5]
  }

  predicate Looks(nodes: Nodes, n: Ino, link: Option<Link>, treelock: int) {
    n in nodes && nodes[n].link == link && nodes[n].treelock == treelock && nodes[n].nlookup > 0
  }

  /** The nodes during the run: whether "a" still has its name, and the tree locks of "x", "d" and "a". */
  predicate RunNodes(nodes: Nodes, there: bool, x: int, d: int, a: int) {
    && nodes.Keys == {ROOT, 2, 3, 4, 5}
    && Looks(nodes, ROOT, None, 0) && Looks(nodes, 2, Some(X), x) && Looks(nodes, 3, Some(D), d)
    && Looks(nodes, 4, if there then Some(A) else None, a) && Looks(nodes, 5, Some(B), 0)
  }

  lemma RunChains(nodes: Nodes, there: bool, x: int, d: int, a: int)
    requires RunNodes(nodes, there, x, d, a)
    ensures Chain(nodes, ROOT, [ROOT]) && Chain(nodes, 2, [2, ROOT]) && Chain(nodes, 3, [3, ROOT])
    ensures Chain(nodes, 5, if there then [5, 4, 3, ROOT] else [5, 4])
  {
    assert [2, ROOT][1..] == [ROOT] && [3, ROOT][1..] == [ROOT] && [4, 3, ROOT][1..] == [3, ROOT];
    assert Chain(nodes, 3, [3, ROOT]);
    if there {
      assert [5, 4, 3, ROOT][1..] == [4, 3, ROOT];
      assert Chain(nodes, 4, [4, 3, ROOT]);
    } else {
      assert [5, 4][1..] == [4];
      assert Chain(nodes, 4, [4]);
    }
  }

  lemma RunPaths(nodes: Nodes, there: bool, x: int, d: int, a: int)
    requires RunNodes(nodes, there, x, d, a)
    ensures PathFits(nodes, FROM) && PathFits(nodes, TO) && PathFits(nodes, REMOVAL) &&
      PathFits(nodes, PathReq(2, None, false))
  {
    RunChains(nodes, there, x, d, a);
    Short(nodes, FROM, [ROOT]);
    Short(nodes, REMOVAL, [3, ROOT]);
    Short(nodes, PathReq(2, None, false), [2, ROOT]);
    Short(nodes, TO, if there then [5, 4, 3, ROOT] else [5, 4]);
  }

  lemma Short(nodes: Nodes, p: PathReq, c: seq<Ino>)
    requires Chain(nodes, p.nodeid, c) && |c| <= 4 && ReqOk(p) && (p.name.Some? ==> |p.name.value| == 1)
    requires forall n :: n in nodes && nodes[n].link.Some? ==> |nodes[n].link.value.name| == 1
    ensures PathFits(nodes, p)
  {
    ShortDirs(nodes, c);
    forall d | Chain(nodes, p.nodeid, d) ensures TextSize(nodes, d, p.name) <= UINT_MAX {
      ChainUnique(nodes, p.nodeid, c, d);
    }
  }

  lemma {:induction false} ShortDirs(nodes: Nodes, c: seq<Ino>)
    requires forall n :: n in nodes && nodes[n].link.Some? ==> |nodes[n].link.value.name| == 1
    ensures |Dirs(nodes, c)| <= 2 * |c|
  {
    if c != [] {
      ShortDirs(nodes, c[1..]);
    }
  }

  /** What an attempt at a path of the run finds. */
  lemma AttemptAt(nodes: Nodes, names: Names, p: PathReq, c: seq<Ino>)
    requires Chain(nodes, p.nodeid, c)
    ensures Attempt(nodes, names, p) == TryPath(nodes, names, p, c)
  {
    ChainUnique(nodes, p.nodeid, c, ChainOf(nodes, p.nodeid));
  }

  method MakeNode(f: Fuse, parent: Ino, name: string, n: Ino)
    requires f.Valid() && f.MarksOk() && f.IdsOk() && parent in f.nodes && Link(parent, name) !in f.names
    requires f.ids.pos < n <= 5 && |f.nodes| <= 5 && n !in f.nodes && forall m :: f.ids.pos < m < n ==> m in f.nodes
    requires f.TablesOk()
    modifies f, f.ids, f.tables.Repr
    ensures f.TablesOk() && fresh(f.tables.Repr - old(f.tables.Repr))
    ensures f.Valid() && f.MarksOk() && f.IdsOk() && f.ids.pos == n
    ensures f.nodes == AddNode(old(f.nodes), n, Link(parent, name))
    ensures f.names == old(f.names)[Link(parent, name) := n]
    ensures f.held == old(f.held) && f.lockq == old(f.lockq) && f.dots == old(f.dots)
  {
    hide Inv, QueueOk, MarksAwaited, AddNode, AllKnown, Known, Tables.Valid, Tables.Loaded;
    var found := f.FindNode(parent, Some(name), true, true, _ => true);
    assert f.ids.pos > n ==> !Usable(n % WRAP, old(f.nodes).Keys);
  }

  lemma Built(nodes: Nodes)
    requires nodes == map[ROOT := Node(None, 1, 1, 0)]
    ensures var two := AddNode(nodes, 2, X); var three := AddNode(two, 3, D); var four := AddNode(three, 4, A);
      RunNodes(AddNode(four, 5, B), true, 0, 0, 0)
  {
  }

  method BuildTree() returns (f: Fuse)
    ensures fresh(f) && f.Valid() && f.MarksOk() && f.held == map[] && f.lockq == []
    ensures f.TablesOk() && fresh(f.tables.Repr)
    ensures RunNodes(f.nodes, true, 0, 0, 0) && f.names == RunNames(true)
  {
    hide LookupsAre, Fuse.LookupsOk, Inv, QueueOk, MarksAwaited, AllKnown, RunNodes, IdGenerator.Valid, Tables.Valid,
         Tables.Loaded, Fuse.TablesOk, Fuse.NamesHashed, FailuresFinal;
    f := new Fuse();
    Built(f.nodes);
    MakeNode(f, ROOT, "x", 2);
    MakeNode(f, ROOT, "d", 3);
    MakeNode(f, 3, "a", 4);
    MakeNode(f, 4, "b", 5);
  }

  lemma ReadTaken(nodes: Nodes, names: Names)
    requires RunNodes(nodes, true, 0, 0, 0) && names == RunNames(true)
    ensures var p := PathReq(2, None, false); var r := Attempt(nodes, names, p);
      && r.Got? && RunNodes(r.nodes, true, 1, 0, 0) && r.nodes.Keys == nodes.Keys
      && KernelKeeps(nodes, names, map[], p, None)
  {
    RunChains(nodes, true, 0, 0, 0);
    AttemptAt(nodes, names, PathReq(2, None, false), [2, ROOT]);
    assert Walk(nodes, [ROOT]) == None && [2, ROOT][1..] == [ROOT];
  }

  /** A reader of "x" gets its path. */
  method ReadX(f: Fuse)
    requires f.Valid() && f.MarksOk() && f.held == map[] && f.lockq == []
    requires RunNodes(f.nodes, true, 0, 0, 0) && f.names == RunNames(true)
    requires f.TablesOk()
    modifies f
    ensures f.TablesOk()
    ensures f.Valid() && f.MarksOk() && f.held.Keys == {READ} && f.lockq == []
    ensures RunNodes(f.nodes, true, 1, 0, 0) && f.names == RunNames(true)
  {
    hide Inv, QueueOk, MarksAwaited, OnlyLocks, OnlyMarked, PathFits, RunNodes, Attempt, RunNames, Tables.Valid;
    var p := PathReq(2, None, false);
    RunPaths(f.nodes, true, 0, 0, 0);
    ReadTaken(f.nodes, f.names);
    var err, _, _ := f.GetPathCommon(1, p, None);
  }

  lemma MustWait(nodes: Nodes, names: Names)
    requires RunNodes(nodes, true, 1, 0, 0) && names == RunNames(true)
    ensures Refused(nodes, names, FROM, TO).Keys == nodes.Keys
    ensures PairErr(nodes, names, FROM, TO) == Some(EAGAIN) &&
      RunNodes(Refused(nodes, names, FROM, TO), true, Mark(1), 0, 0)
    ensures KernelKeeps(nodes, names, map[], FROM, None) && KernelKeeps(nodes, names, map[], TO, None)
  {
    RunChains(nodes, true, 1, 0, 0);
    AttemptAt(nodes, names, FROM, [ROOT]);
    assert WNode(names, FROM) == Some(2) && WNode(names, TO) == None;
  }

  /** A rename of "x" to "/d/a/b/y" has to wait for the reader, and marks "x". */
  method QueueRename(f: Fuse)
    requires f.Valid() && f.MarksOk() && f.held.Keys == {READ} && f.lockq == []
    requires RunNodes(f.nodes, true, 1, 0, 0) && f.names == RunNames(true)
    requires f.TablesOk()
    modifies f
    ensures f.TablesOk()
    ensures f.Valid() && f.MarksOk() && f.held.Keys == {READ} && f.lockq == [RENAME]
    ensures RunNodes(f.nodes, true, Mark(1), 0, 0) && f.names == RunNames(true)
  {
    hide Inv, QueueOk, MarksAwaited, OnlyLocks, OnlyMarked, PathFits, RunNodes, Attempt, RunNames, PairErr,
         Refused, Tables.Valid;
    RunPaths(f.nodes, true, 1, 0, 0);
    MustWait(f.nodes, f.names);
    var err, _, _, _, _ := f.GetPath2(2, FROM, TO);
  }

  lemma RemovalTaken(nodes: Nodes, names: Names)
    requires RunNodes(nodes, true, Mark(1), 0, 0) && names == RunNames(true)
    ensures var r := Attempt(nodes, names, REMOVAL);
      r.Got? && RunNodes(r.nodes, true, Mark(1), 1, TREELOCK_WRITE) && r.nodes.Keys == nodes.Keys
    ensures KernelKeeps(nodes, names, map[], REMOVAL, None) && WNode(names, REMOVAL) == Some(4)
  {
    RunChains(nodes, true, Mark(1), 0, 0);
    AttemptAt(nodes, names, REMOVAL, [3, ROOT]);
    assert Walk(nodes, [ROOT]) == None && [3, ROOT][1..] == [ROOT];
  }

  /** "a" is removed from "/d", up to the point where its request gives the path back. */
  method RemoveA(f: Fuse)
    requires f.Valid() && f.MarksOk() && f.held.Keys == {READ} && f.lockq == [RENAME]
    requires RunNodes(f.nodes, true, Mark(1), 0, 0) && f.names == RunNames(true)
    requires f.TablesOk()
    modifies f, f.tables.Repr
    ensures f.Valid() && f.MarksOk() && f.held.Keys == {READ, HoldId(3, First)} && f.lockq == [RENAME]
    ensures HoldsPath(f.held, HoldId(3, First), REMOVAL, Some(4))
    ensures RunNodes(f.nodes, false, Mark(1), 1, TREELOCK_WRITE) && f.names == RunNames(false)
  {
    hide Inv, QueueOk, MarksAwaited, OnlyLocks, OnlyMarked, PathFits, RunNodes, Attempt, Tables.Valid, Tables.Loaded;
    RunPaths(f.nodes, true, Mark(1), 0, 0);
    RemovalTaken(f.nodes, f.names);
    var err, _, _ := f.GetPathCommon(3, REMOVAL, None);
    ghost var was := f.nodes;
    f.RemoveNode(3, "a", (_, _) => true, HoldId(3, First));
    Unnamed(was, f.nodes, f.names);
  }

  lemma Unnamed(nodes: Nodes, nodes': Nodes, names: Names)
    requires RunNodes(nodes, true, Mark(1), 1, TREELOCK_WRITE) && names == RunNames(true) - {A} &&
      nodes'.Keys == nodes.Keys
    requires forall m :: m in nodes' ==> nodes'[m] == nodes[m].(refctr := nodes'[m].refctr,
      link := if nodes[m].link == Some(A) then None else nodes[m].link)
    ensures RunNodes(nodes', false, Mark(1), 1, TREELOCK_WRITE) && names == RunNames(false)
  {
  }

  /** Woken now, the rename leaves its mark. */
  lemma WillLeave(nodes: Nodes, names: Names, q: seq<Elem>)
    requires RunNodes(nodes, false, Mark(1), 0, 0) && names == RunNames(false) && q == [RENAME]
    ensures LeavesMark(nodes, names, q, 0)
    ensures BothTurns(nodes, names, RENAME) == (Some(EAGAIN), Some(ENOENT))
  {
    RunChains(nodes, false, Mark(1), 0, 0);
    AttemptAt(nodes, names, FROM, [ROOT]);
    assert WNode(names, FROM) == Some(2) && WNode(names, TO) == None;
    var r := TryPath(nodes, names, FROM, [ROOT]);
    assert r == Failed(nodes[2 := nodes[2].(treelock := Mark(1))], EAGAIN) && r.nodes == nodes;
    AttemptAt(nodes, names, TO, [5, 4]);
    assert [5, 4][1..] == [4] && Walk(nodes, [4]) == Some(ENOENT);
  }

  /** The removal gives its path back. */
  lemma GivenBack(nodes: Nodes, held: Held, h: HoldId)
    requires RunNodes(nodes, false, Mark(1), 1, TREELOCK_WRITE) && LocksOk(nodes, held) &&
      HoldsPath(held, h, REMOVAL, Some(4))
    ensures RunNodes(UnlockPath(nodes, held[h]), false, Mark(1), 0, 0)
  {
    RunChains(nodes, false, Mark(1), 1, TREELOCK_WRITE);
    assert HoldOk(nodes, held[h]);
    ChainUnique(nodes, 3, [3, ROOT], held[h].chain);
  }

  /** The whole run: in the end nobody waits for "x"; the mark is still there. */
  method MarkOutlivesWaiter() returns (f: Fuse)
    ensures fresh(f) && f.Valid() && !f.MarksOk()
    ensures |f.lockq| == 1 && Done(f.lockq[0]) && f.lockq[0].err == Some(ENOENT)
  {
    f := BuildTree();
    ReadX(f);
    QueueRename(f);
    RemoveA(f);
    GiveBack(f);
  }

  method GiveBack(f: Fuse)
    requires f.Valid() && f.MarksOk() && f.held.Keys == {READ, HoldId(3, First)} && f.lockq == [RENAME]
    requires HoldsPath(f.held, HoldId(3, First), REMOVAL, Some(4))
    requires RunNodes(f.nodes, false, Mark(1), 1, TREELOCK_WRITE) && f.names == RunNames(false)
    modifies f
    ensures f.Valid() && !f.MarksOk()
    ensures |f.lockq| == 1 && Done(f.lockq[0]) && f.lockq[0].err == Some(ENOENT)
  {
    hide QueueOk, MarksAwaited, OnlyLocks, PathFits, RunNodes, LeavesMark, BothTurns, UnlockPath, LocksOk, Tree,
         RefExact, AllKept;
    RunPaths(f.nodes, false, Mark(1), 1, TREELOCK_WRITE);
    GivenBack(f.nodes, f.held, HoldId(3, First));
    ghost var freed := UnlockPath(f.nodes, f.held[HoldId(3, First)]);
    f.FreePath(3, Some(4), 3);
    WillLeave(freed, f.names, [RENAME]);
    assert Pass(freed, f.names, [RENAME], 0) == (freed, [RENAME]);
    assert TurnTaken(freed, f.names, [RENAME], f.lockq, 0);
  }
}
