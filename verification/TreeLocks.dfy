/** Path locks: every node on a held path carries a reader count in `treelock`, the node being
    removed or renamed carries -1, and INT_MIN is added to a reader count while a writer is kept
    waiting.  This module says what the numbers stand for and what locking and unlocking a path
    does to them. */
module TreeLocks {

  import opened Options
  import opened InodeTree

  const TREELOCK_WRITE: int := -1
  const TREELOCK_WAIT_OFFSET: int := -0x8000_0000
  const MAX_HOLDS: nat := 0x7fff_fffe    // fewer than 2^31 - 1 readers at a time

  // What a request locks: a directory path, and the child it will remove or rename.
  datatype PathReq = PathReq(nodeid: Ino, name: Option<string>, write: bool)

  // A request locks one path or two.
  datatype Slot = First | Second
  datatype HoldId = HoldId(req: nat, slot: Slot)

  // A path that is held: the nodes walked, the write-locked child, the "." lookup keeping the
  // target alive if there is one, and the path string given out.
  datatype Hold = Hold(target: Ino, chain: seq<Ino>, name: Option<string>, wnode: Option<Ino>, dot: Option<nat>,
                       path: string)

  type Held = map<HoldId, Hold>

  datatype Error = EAGAIN | ENOENT

  // -------------------------------------------------------------------------
  // What the numbers stand for

  ghost function Readers(held: Held, n: Ino): set<HoldId> {
    set h | h in held && n != ROOT && n in held[h].chain
  }

  ghost function Writers(held: Held, n: Ino): set<HoldId> {
    set h | h in held && held[h].wnode == Some(n)
  }

  ghost predicate Encodes(treelock: int, readers: nat, writers: nat) {
    if writers > 0 then
      writers == 1 && readers == 0 && treelock == TREELOCK_WRITE
    else
      treelock == readers || (readers > 0 && treelock == TREELOCK_WAIT_OFFSET + readers)
  }

  /** The full path of the node a chain starts at: "" for the root. */
  function Dirs(nodes: Nodes, c: seq<Ino>): string {
    if c == [] || c[0] == ROOT || c[0] !in nodes || nodes[c[0]].link == None then ""
    else Dirs(nodes, c[1..]) + "/" + nodes[c[0]].link.value.name
  }

  function PathText(nodes: Nodes, c: seq<Ino>, name: Option<string>): string {
    var p := Dirs(nodes, c) + (if name.Some? then "/" + name.value else "");
    if p == "" then "/" else p
  }

  ghost predicate HoldOk(nodes: Nodes, h: Hold) {
    && Chain(nodes, h.target, h.chain)
    && h.chain[|h.chain| - 1] == ROOT
    && h.path == PathText(nodes, h.chain, h.name)
    && (h.wnode.Some? ==> h.wnode.value in nodes && h.wnode.value != ROOT)
  }

  ghost predicate LockOk(nodes: Nodes, held: Held, n: Ino)
    requires n in nodes
  {
    Encodes(nodes[n].treelock, |Readers(held, n)|, |Writers(held, n)|)
  }

  /** Every tree lock encodes its holders, every held path is the present path of its target, and
      the path string given out is still the right one. */
  ghost predicate LocksOk(nodes: Nodes, held: Held) {
    && |held| <= MAX_HOLDS
    && (forall h {:trigger HoldOk(nodes, held[h])} :: h in held ==> HoldOk(nodes, held[h]))
    && (forall n {:trigger LockOk(nodes, held, n)} :: n in nodes ==> LockOk(nodes, held, n))
  }

  /** Whoever holds a path keeps its target and its write-locked child alive. */
  ghost predicate Kept(nodes: Nodes, dots: Dots, h: Hold) {
    && h.target in nodes
    && (nodes[h.target].nlookup > 0 || (h.dot.Some? && h.dot.value in dots && dots[h.dot.value] == h.target))
    && (h.wnode.Some? ==> h.wnode.value in nodes && nodes[h.wnode.value].nlookup > 0)
  }

  ghost predicate AllKept(nodes: Nodes, dots: Dots, held: Held) {
    forall h {:trigger Kept(nodes, dots, held[h])} :: h in held ==> Kept(nodes, dots, held[h])
  }

  // -------------------------------------------------------------------------
  // Counting facts

  lemma SubsetCount(a: set<HoldId>, b: set<HoldId>)
    requires a <= b
    ensures |a| <= |b|
  {
    assert b == a + (b - a);
  }

  lemma ReadersBounded(held: Held, n: Ino)
    ensures |Readers(held, n)| <= |held|
  {
    SubsetCount(Readers(held, n), held.Keys);
    assert |held.Keys| == |held|;
  }

  lemma AddReader(held: Held, h: HoldId, x: Hold, n: Ino)
    requires h !in held
    ensures |Readers(held[h := x], n)| == |Readers(held, n)| + (if n != ROOT && n in x.chain then 1 else 0)
  {
    if n != ROOT && n in x.chain {
      assert Readers(held[h := x], n) == Readers(held, n) + {h};
    } else {
      assert Readers(held[h := x], n) == Readers(held, n);
    }
  }

  lemma AddWriter(held: Held, h: HoldId, x: Hold, n: Ino)
    requires h !in held
    ensures |Writers(held[h := x], n)| == |Writers(held, n)| + (if x.wnode == Some(n) then 1 else 0)
  {
    if x.wnode == Some(n) {
      assert Writers(held[h := x], n) == Writers(held, n) + {h};
    } else {
      assert Writers(held[h := x], n) == Writers(held, n);
    }
  }

  lemma RemoveHold(held: Held, h: HoldId, n: Ino)
    requires h in held
    ensures |Readers(held - {h}, n)| == |Readers(held, n)| - (if n != ROOT && n in held[h].chain then 1 else 0)
    ensures |Writers(held - {h}, n)| == |Writers(held, n)| - (if held[h].wnode == Some(n) then 1 else 0)
  {
    var held' := held - {h};
    assert held == held'[h := held[h]];
    AddReader(held', h, held[h], n);
    AddWriter(held', h, held[h], n);
  }

  lemma AReader(held: Held, h: HoldId, n: Ino)
    requires h in held && n != ROOT && n in held[h].chain
    ensures |Readers(held, n)| >= 1
  {
    assert h in Readers(held, n);
  }

  lemma AWriter(held: Held, h: HoldId, n: Ino)
    requires h in held && held[h].wnode == Some(n)
    ensures |Writers(held, n)| >= 1
  {
    assert h in Writers(held, n);
  }

  /** A write-locked node is on no held path, and nobody else write-locks it. */
  lemma WriterExcludes(nodes: Nodes, held: Held, h: HoldId, n: Ino, h': HoldId)
    requires LocksOk(nodes, held) && h in held && held[h].wnode == Some(n) && h' in held
    ensures n !in held[h'].chain
    ensures held[h'].wnode == Some(n) ==> h' == h
    ensures n in nodes && nodes[n].treelock == TREELOCK_WRITE
  {
    AWriter(held, h, n);
    assert HoldOk(nodes, held[h]);
    assert LockOk(nodes, held, n);
    if n in held[h'].chain { AReader(held, h', n); }
    OneWriter(held, h, h', n);
  }

  lemma OneWriter(held: Held, h: HoldId, h': HoldId, n: Ino)
    requires h in held && h' in held && held[h].wnode == Some(n) && |Writers(held, n)| <= 1
    ensures held[h'].wnode == Some(n) ==> h' == h
  {
    if held[h'].wnode == Some(n) && h' != h {
      SubsetCount({h, h'}, Writers(held, n));
    }
  }

  /** A node whose tree lock is zero is not involved in any held path. */
  lemma UnlockedUninvolved(nodes: Nodes, held: Held, n: Ino, h: HoldId)
    requires LocksOk(nodes, held) && n in nodes && n != ROOT && nodes[n].treelock == 0 && h in held
    ensures n !in held[h].chain && held[h].wnode != Some(n)
  {
    assert LockOk(nodes, held, n);
    ReadersBounded(held, n);
    if n in held[h].chain { AReader(held, h, n); }
    if held[h].wnode == Some(n) { AWriter(held, h, n); }
  }

  /** A node whose tree lock is not zero is on a held path or write-locked. */
  lemma LockedInvolved(nodes: Nodes, held: Held, n: Ino) returns (h: HoldId)
    requires LocksOk(nodes, held) && n in nodes && nodes[n].treelock != 0
    ensures h in held && (n in held[h].chain || held[h].wnode == Some(n))
  {
    assert LockOk(nodes, held, n);
    if |Writers(held, n)| > 0 {
      h :| h in Writers(held, n);
    } else {
      assert |Readers(held, n)| > 0;
      h :| h in Readers(held, n);
    }
  }

  // -------------------------------------------------------------------------
  // try_get_path

  /** What stops the walk up from c[0]: nothing, a missing name, or a writer in the way. */
  function Walk(nodes: Nodes, c: seq<Ino>): Option<Error> {
    if c == [] || c[0] !in nodes then Some(ENOENT)
    else if c[0] == ROOT then None
    else if nodes[c[0]].link == None then Some(ENOENT)
    else if nodes[c[0]].treelock < 0 then Some(EAGAIN)
    else Walk(nodes, c[1..])
  }

  function SetLock(nodes: Nodes, n: Ino, t: int): Nodes
    requires n in nodes
  {
    nodes[n := nodes[n].(treelock := t)]
  }

  function SetOptLock(nodes: Nodes, w: Option<Ino>, t: int): Nodes {
    if w.Some? && w.value in nodes then SetLock(nodes, w.value, t) else nodes
  }

  /** One more reader on every node of `c` but the root. */
  function Bump(nodes: Nodes, c: seq<Ino>): Nodes {
    map n | n in nodes :: if n != ROOT && n in c then nodes[n].(treelock := nodes[n].treelock + 1) else nodes[n]
  }

  function Dec(t: int): int {
    if t - 1 == TREELOCK_WAIT_OFFSET then 0 else t - 1
  }

  /** One reader less on every node of `c` but the root. */
  function UnBump(nodes: Nodes, c: seq<Ino>): Nodes {
    map n | n in nodes :: if n != ROOT && n in c then nodes[n].(treelock := Dec(nodes[n].treelock)) else nodes[n]
  }

  function Lookup(names: Names, parent: Ino, name: string): Option<Ino> {
    if Link(parent, name) in names then Some(names[Link(parent, name)]) else None
  }

  function WNode(names: Names, p: PathReq): Option<Ino> {
    if p.write && p.name.Some? then Lookup(names, p.nodeid, p.name.value) else None
  }

  datatype TryResult = Got(nodes: Nodes, wnode: Option<Ino>) | Failed(nodes: Nodes, err: Error)

  /** A reader count that stops admitting readers. */
  function Mark(t: int): int {
    if t > 0 then t + TREELOCK_WAIT_OFFSET else t
  }

  /** What try_get_path with need_lock set does, for the chain `c` of p.nodeid. */
  function TryPath(nodes: Nodes, names: Names, p: PathReq, c: seq<Ino>): TryResult {
    var w := WNode(names, p);
    if w.Some? && w.value in nodes && nodes[w.value].treelock != 0 then
      Failed(SetLock(nodes, w.value, Mark(nodes[w.value].treelock)), EAGAIN)
    else
      match Walk(nodes, c)
      case Some(e) => Failed(nodes, e)
      case None => Got(Bump(SetOptLock(nodes, w, TREELOCK_WRITE), c), w)
  }

  /** What unlock_path does for a held path. */
  function UnlockPath(nodes: Nodes, h: Hold): Nodes {
    UnBump(SetOptLock(nodes, h.wnode, 0), h.chain)
  }

  /** `nodes'` differs from `nodes` at most by a waiting-writer mark on `w`. */
  ghost predicate OnlyMarked(nodes: Nodes, nodes': Nodes, w: Option<Ino>) {
    && nodes'.Keys == nodes.Keys
    && forall n {:trigger MarkedAt(nodes, nodes', w, n)} :: n in nodes ==> MarkedAt(nodes, nodes', w, n)
  }

  ghost predicate MarkedAt(nodes: Nodes, nodes': Nodes, w: Option<Ino>, n: Ino)
    requires n in nodes && n in nodes'
  {
    || nodes'[n] == nodes[n]
    || (w == Some(n) && nodes[n].treelock > 0 && nodes'[n] == nodes[n].(treelock := Mark(nodes[n].treelock)))
  }

  lemma {:induction false} WalkClear(nodes: Nodes, n: Ino, c: seq<Ino>)
    requires Chain(nodes, n, c) && ROOT in nodes && nodes[ROOT].link == None
    ensures Walk(nodes, c) == None <==>
      c[|c| - 1] == ROOT && forall i :: 0 <= i < |c| - 1 ==> c[i] in nodes && nodes[c[i]].treelock >= 0
    decreases |c|
  {
    ChainInNodes(nodes, n, c);
    if nodes[n].link.Some? {
      var d := c[1..];
      WalkClear(nodes, nodes[n].link.value.parent, d);
      assert c == [n] + d && d != [];
    }
  }

  lemma {:induction false} PathTextFrame(nodes: Nodes, nodes': Nodes, c: seq<Ino>)
    requires forall m :: m in c ==> m in nodes && m in nodes' && nodes'[m].link == nodes[m].link
    ensures Dirs(nodes', c) == Dirs(nodes, c)
  {
    if c != [] { PathTextFrame(nodes, nodes', c[1..]); }
  }

  lemma HoldFrame(nodes: Nodes, nodes': Nodes, h: Hold)
    requires HoldOk(nodes, h)
    requires forall m :: m in h.chain && m in nodes ==> m in nodes' && nodes'[m].link == nodes[m].link
    requires h.wnode.Some? ==> h.wnode.value in nodes'
    ensures HoldOk(nodes', h)
  {
    ChainInNodes(nodes, h.target, h.chain);
    ChainFrame(nodes, nodes', h.target, h.chain);
    PathTextFrame(nodes, nodes', h.chain);
  }

  lemma HoldsFrame(nodes: Nodes, nodes': Nodes, held: Held)
    requires forall h :: h in held ==> HoldOk(nodes, held[h])
    requires nodes'.Keys == nodes.Keys && forall m :: m in nodes ==> nodes'[m].link == nodes[m].link
    ensures forall h :: h in held ==> HoldOk(nodes', held[h])
  {
    forall h | h in held ensures HoldOk(nodes', held[h]) { HoldFrame(nodes, nodes', held[h]); }
  }

  /** The child named in a write request is never on the path it hangs from. */
  lemma ChildOffChain(nodes: Nodes, names: Names, l: Link, c: seq<Ino>)
    requires Tree(nodes, names) && l in names && Chain(nodes, l.parent, c)
    ensures names[l] !in c && names[l] != ROOT
  {
    var w := names[l];
    assert NameOk(nodes, names, l);
    assert Chain(nodes, w, [w] + c) by { assert ([w] + c)[1..] == c; }
    ChainNoRepeat(nodes, w, [w] + c);
    forall i | 0 <= i < |c| ensures c[i] != w {
      assert ([w] + c)[0] == w && ([w] + c)[i + 1] == c[i];
    }
  }

  /** What locking a path does to node `n`: the write-locked child, off the path and free before,
      gets -1; a node on the path, not write-locked before, gets one more reader. */
  ghost predicate Locked(nodes: Nodes, nodes': Nodes, w: Option<Ino>, c: seq<Ino>, n: Ino)
    requires n in nodes
  {
    && n in nodes'
    && if w == Some(n) then
         n !in c && n != ROOT && nodes[n].treelock == 0 && nodes'[n] == nodes[n].(treelock := TREELOCK_WRITE)
       else if n != ROOT && n in c then
         nodes[n].treelock >= 0 && nodes'[n] == nodes[n].(treelock := nodes[n].treelock + 1)
       else
         nodes'[n] == nodes[n]
  }

  lemma GotLocked(nodes: Nodes, names: Names, p: PathReq, c: seq<Ino>, r: TryResult)
    requires Tree(nodes, names) && Chain(nodes, p.nodeid, c) && r == TryPath(nodes, names, p, c) && r.Got?
    ensures r.wnode == WNode(names, p) && r.nodes.Keys == nodes.Keys
    ensures forall n :: n in nodes ==> Locked(nodes, r.nodes, r.wnode, c, n)
    ensures c[|c| - 1] == ROOT
    ensures r.wnode.Some? ==> r.wnode.value in nodes
  {
    if r.wnode.Some? { assert NameOk(nodes, names, Link(p.nodeid, p.name.value)); }
    WalkClear(nodes, p.nodeid, c);
    if r.wnode.Some? { ChildOffChain(nodes, names, Link(p.nodeid, p.name.value), c); }
    forall n | n in nodes ensures Locked(nodes, r.nodes, r.wnode, c, n) {
      if n != ROOT && n in c {
        var i :| 0 <= i < |c| && c[i] == n;
        assert nodes[c[i]].treelock >= 0;
      }
    }
  }

  /** One more holder. */
  lemma LockedEncodes(nodes: Nodes, nodes': Nodes, held: Held, h: HoldId, x: Hold, n: Ino)
    requires n in nodes && Locked(nodes, nodes', x.wnode, x.chain, n) && LockOk(nodes, held, n)
    requires h !in held && |held| < MAX_HOLDS
    ensures LockOk(nodes', held[h := x], n)
  {
    AddReader(held, h, x, n);
    AddWriter(held, h, x, n);
    ReadersBounded(held, n);
  }

  lemma MarkStillEncodes(nodes: Nodes, held: Held, n: Ino)
    requires n in nodes && LockOk(nodes, held, n) && |held| <= MAX_HOLDS
    ensures Encodes(Mark(nodes[n].treelock), |Readers(held, n)|, |Writers(held, n)|)
  {
    ReadersBounded(held, n);
  }

  /** A failed attempt changes nothing but, at most, one mark. */
  lemma TryPathFailed(nodes: Nodes, names: Names, p: PathReq, c: seq<Ino>)
    requires TryPath(nodes, names, p, c).Failed?
    ensures OnlyMarked(nodes, TryPath(nodes, names, p, c).nodes, WNode(names, p))
  {
  }

  /** A mark disturbs no invariant. */
  lemma MarkKeeps(nodes: Nodes, nodes': Nodes, names: Names, held: Held, w: Option<Ino>)
    requires Tree(nodes, names) && LocksOk(nodes, held) && OnlyMarked(nodes, nodes', w)
    ensures Tree(nodes', names) && LocksOk(nodes', held)
  {
    forall n | n in nodes ensures nodes'[n].link == nodes[n].link { assert MarkedAt(nodes, nodes', w, n); }
    SameLinks(nodes, nodes', names);
    HoldsFrame(nodes, nodes', held);
    forall n | n in nodes' ensures LockOk(nodes', held, n) {
      assert MarkedAt(nodes, nodes', w, n);
      assert LockOk(nodes, held, n);
      MarkStillEncodes(nodes, held, n);
    }
  }

  ghost function HoldFor(nodes: Nodes, p: PathReq, c: seq<Ino>, w: Option<Ino>, dot: Option<nat>): Hold {
    Hold(p.nodeid, c, p.name, w, dot, PathText(nodes, c, p.name))
  }

  /** Taking the locks keeps the encoding: the new path is one more holder. */
  lemma TryPathGot(nodes: Nodes, names: Names, held: Held, p: PathReq, c: seq<Ino>, r: TryResult, h: HoldId,
                   dot: Option<nat>)
    requires Tree(nodes, names) && LocksOk(nodes, held) && Chain(nodes, p.nodeid, c)
    requires h !in held && |held| < MAX_HOLDS
    requires r == TryPath(nodes, names, p, c) && r.Got?
    ensures Tree(r.nodes, names) && LocksOk(r.nodes, held[h := HoldFor(nodes, p, c, r.wnode, dot)])
  {
    var x := HoldFor(nodes, p, c, r.wnode, dot);
    GotLocked(nodes, names, p, c, r);
    SameLinksLocked(nodes, r.nodes, names, x.wnode, c);
    assert HoldOk(nodes, x) by {
      if x.wnode.Some? { assert Locked(nodes, r.nodes, x.wnode, c, x.wnode.value); }
    }
    HoldsFrame(nodes, r.nodes, held[h := x]);
    forall n | n in r.nodes ensures LockOk(r.nodes, held[h := x], n) {
      LockedEncodes(nodes, r.nodes, held, h, x, n);
    }
  }

  lemma SameLinksLocked(nodes: Nodes, nodes': Nodes, names: Names, w: Option<Ino>, c: seq<Ino>)
    requires Tree(nodes, names) && nodes'.Keys == nodes.Keys
    requires forall n :: n in nodes ==> Locked(nodes, nodes', w, c, n)
    ensures Tree(nodes', names)
    ensures forall n :: n in nodes ==> nodes'[n].link == nodes[n].link
  {
    forall n | n in nodes ensures nodes'[n].link == nodes[n].link {
      assert Locked(nodes, nodes', w, c, n);
    }
    SameLinks(nodes, nodes', names);
  }

  /** Giving a path back keeps the encoding: one holder less. In particular the walk up the parent
      pointers releases exactly what was taken, since the chain is still the chain. */
  lemma UnlockKeeps(nodes: Nodes, names: Names, held: Held, h: HoldId)
    requires Tree(nodes, names) && LocksOk(nodes, held) && h in held
    ensures Tree(UnlockPath(nodes, held[h]), names) && LocksOk(UnlockPath(nodes, held[h]), held - {h})
    ensures Unlockable(nodes, held[h])
  {
    var x := held[h];
    var nodes' := UnlockPath(nodes, x);
    SameLinks(nodes, nodes', names);
    HoldsFrame(nodes, nodes', held - {h});
    HoldUnlockable(nodes, held, h);
    forall n | n in nodes' ensures LockOk(nodes', held - {h}, n) {
      UnlockAt(nodes, held, h, n);
    }
  }

  lemma UnlockAt(nodes: Nodes, held: Held, h: HoldId, n: Ino)
    requires LocksOk(nodes, held) && h in held && n in nodes && Unlockable(nodes, held[h])
    ensures LockOk(UnlockPath(nodes, held[h]), held - {h}, n)
  {
    assert LockOk(nodes, held, n);
    RemoveHold(held, h, n);
    ReadersBounded(held, n);
    if held[h].wnode == Some(n) { AWriter(held, h, n); }
    if n != ROOT && n in held[h].chain { AReader(held, h, n); }
  }

  lemma HoldUnlockable(nodes: Nodes, held: Held, h: HoldId)
    requires LocksOk(nodes, held) && h in held
    ensures Unlockable(nodes, held[h])
  {
    var x := held[h];
    assert HoldOk(nodes, x);
    ChainInNodes(nodes, x.target, x.chain);
    forall n | n in x.chain && n != ROOT
      ensures nodes[n].treelock != 0 && nodes[n].treelock != TREELOCK_WAIT_OFFSET && nodes[n].treelock != TREELOCK_WRITE
    {
      AReader(held, h, n);
      ReadersBounded(held, n);
      assert LockOk(nodes, held, n);
    }
    if x.wnode.Some? { WriterExcludes(nodes, held, h, x.wnode.value, h); }
  }

  /** The assertions of unlock_path. */
  ghost predicate Unlockable(nodes: Nodes, h: Hold) {
    && (h.wnode.Some? ==>
          h.wnode.value in nodes && nodes[h.wnode.value].treelock == TREELOCK_WRITE && h.wnode.value !in h.chain)
    && forall n :: n in h.chain && n != ROOT ==>
         n in nodes && nodes[n].treelock !in {0, TREELOCK_WAIT_OFFSET, TREELOCK_WRITE}
  }

  // -------------------------------------------------------------------------
  // try_get_path2

  /** Both paths or neither: when the second fails the first is given back. */
  function TryPath2(nodes: Nodes, names: Names, p1: PathReq, c1: seq<Ino>, p2: PathReq, c2: seq<Ino>): (TryResult,
                    Option<Ino>) {
    var r1 := TryPath(nodes, names, p1, c1);
    if r1.Failed? then (r1, None)
    else
      var r2 := TryPath(r1.nodes, names, p2, c2);
      if r2.Got? then (r2, r1.wnode)
      else (Failed(UnBump(SetOptLock(r2.nodes, r1.wnode, 0), c1), r2.err), None)
  }

  /** A failing two-path lock is atomic, even when the node the second path waits for is on the
      first path or is the child the first path had just write-locked. */
  lemma TryPath2Atomic(nodes: Nodes, names: Names, held: Held, p1: PathReq, c1: seq<Ino>, p2: PathReq, c2: seq<Ino>)
    requires Tree(nodes, names) && LocksOk(nodes, held)
    requires Chain(nodes, p1.nodeid, c1) && Chain(nodes, p2.nodeid, c2)
    requires TryPath2(nodes, names, p1, c1, p2, c2).0.Failed?
    ensures var nodes' := TryPath2(nodes, names, p1, c1, p2, c2).0.nodes;
      OnlyMarked(nodes, nodes', WNode(names, p1)) || OnlyMarked(nodes, nodes', WNode(names, p2))
  {
    var r1 := TryPath(nodes, names, p1, c1);
    if r1.Failed? {
      TryPathFailed(nodes, names, p1, c1);
    } else {
      TryPathFailed(r1.nodes, names, p2, c2);
      GotLocked(nodes, names, p1, c1, r1);
      RollBack(nodes, r1.nodes, TryPath(r1.nodes, names, p2, c2).nodes, held, r1.wnode, c1, WNode(names, p2));
    }
  }

  lemma RollBack(nodes: Nodes, nodes1: Nodes, nodes2: Nodes, held: Held, w1: Option<Ino>, c1: seq<Ino>, w2: Option<Ino>)
    requires LocksOk(nodes, held) && nodes1.Keys == nodes.Keys
    requires forall n :: n in nodes ==> Locked(nodes, nodes1, w1, c1, n)
    requires OnlyMarked(nodes1, nodes2, w2)
    ensures OnlyMarked(nodes, UnBump(SetOptLock(nodes2, w1, 0), c1), w2)
  {
    var back := UnBump(SetOptLock(nodes2, w1, 0), c1);
    assert back.Keys == nodes.Keys;
    forall n | n in nodes ensures MarkedAt(nodes, back, w2, n) {
      assert Locked(nodes, nodes1, w1, c1, n);
      assert MarkedAt(nodes1, nodes2, w2, n);
      assert LockOk(nodes, held, n);
      ReadersBounded(held, n);
      RolledBack(nodes, nodes1, nodes2, w1, c1, w2, n);
    }
  }

  lemma RolledBack(nodes: Nodes, nodes1: Nodes, nodes2: Nodes, w1: Option<Ino>, c1: seq<Ino>, w2: Option<Ino>, n: Ino)
    requires n in nodes && Locked(nodes, nodes1, w1, c1, n) && nodes[n].treelock <= MAX_HOLDS
    requires n in nodes2 && MarkedAt(nodes1, nodes2, w2, n)
    ensures var back := UnBump(SetOptLock(nodes2, w1, 0), c1); n in back && MarkedAt(nodes, back, w2, n)
  {
  }
}
