/** The invariant that ties the tree, the reference counts and the path locks together, and one
    lemma per critical section of fuse.c that it keeps it. */
module TreeProtocol {

  import opened Options
  import opened InodeTree
  import opened TreeLocks

  /** What holds whenever the library's mutex is free. */
  ghost predicate Inv(nodes: Nodes, names: Names, dots: Dots, held: Held) {
    Tree(nodes, names) && RefExact(nodes, names, dots, None) && LocksOk(nodes, held) && AllKept(nodes, dots, held)
  }

  /** The same, while `n` carries a reference that is about to be dropped. */
  ghost predicate InvOwing(nodes: Nodes, names: Names, dots: Dots, held: Held, n: Ino) {
    Tree(nodes, names) && RefExact(nodes, names, dots, Some(n)) && LocksOk(nodes, held) && AllKept(nodes, dots, held)
  }

  // -------------------------------------------------------------------------
  // Dropping a reference

  /** The assertions met on the way up: counts are positive, deleted nodes are unlocked and are
      found in the name table. */
  ghost predicate Deletable(nodes: Nodes, names: Names, n: Ino, c: seq<Ino>)
    requires Chain(nodes, n, c)
    decreases |c|
  {
    && nodes[n].refctr > 0
    && (nodes[n].refctr == 1 ==>
          && nodes[n].treelock == 0
          && (nodes[n].link.Some? ==>
                var l := nodes[n].link.value;
                && l in names && names[l] == n
                && Chain(nodes - {n}, l.parent, c[1..])
                && Deletable(nodes - {n}, names - {l}, l.parent, c[1..])))
  }

  lemma TargetWanted(nodes: Nodes, dots: Dots, held: Held, h: HoldId)
    requires AllKept(nodes, dots, held) && h in held
    ensures Wanted(nodes, dots, held[h].target)
    ensures held[h].wnode.Some? ==> Wanted(nodes, dots, held[h].wnode.value)
  {
    assert Kept(nodes, dots, held[h]);
    if nodes[held[h].target].nlookup == 0 {
      assert held[h].dot.value in DotsOn(dots, held[h].target);
    }
  }

  /** A node on its last reference is involved in no held path; its tree lock is zero. */
  lemma LastReferenceUnlocked(nodes: Nodes, names: Names, dots: Dots, held: Held, n: Ino)
    requires InvOwing(nodes, names, dots, held, n) && nodes[n].refctr == 1
    ensures forall h :: h in held ==> n !in held[h].chain && held[h].wnode != Some(n)
    ensures nodes[n].treelock == 0
  {
    LastReference(nodes, names, dots, n);
    forall h | h in held ensures n !in held[h].chain && held[h].wnode != Some(n) {
      TargetWanted(nodes, dots, held, h);
      assert HoldOk(nodes, held[h]);
      if n in held[h].chain { ChildlessOnChain(nodes, names, n, held[h].target, held[h].chain); }
    }
    if nodes[n].treelock != 0 {
      var h := LockedInvolved(nodes, held, n);
    }
  }

  lemma DeleteInv(nodes: Nodes, names: Names, dots: Dots, held: Held, n: Ino)
    requires InvOwing(nodes, names, dots, held, n) && nodes[n].refctr == 1
    ensures LocksOk(nodes - {n}, held) && AllKept(nodes - {n}, dots, held)
    ensures match nodes[n].link
      case None => Inv(nodes - {n}, names, dots, held)
      case Some(l) => InvOwing(nodes - {n}, names - {l}, dots, held, l.parent)
  {
    var nodes' := nodes - {n};
    LastReference(nodes, names, dots, n);
    LastReferenceUnlocked(nodes, names, dots, held, n);
    DeleteTree(nodes, names, n);
    DeleteCounts(nodes, names, dots, n);
    forall h | h in held ensures HoldOk(nodes', held[h]) && Kept(nodes', dots, held[h]) {
      assert HoldOk(nodes, held[h]) && Kept(nodes, dots, held[h]);
      HoldFrame(nodes, nodes', held[h]);
    }
    forall m | m in nodes' ensures LockOk(nodes', held, m) { assert LockOk(nodes, held, m); }
  }

  /** unref_node: the cascade meets none of its assertions, never deletes a locked node, and leaves
      the invariant in place. */
  lemma {:induction false} ReleaseInv(nodes: Nodes, names: Names, dots: Dots, held: Held, n: Ino, c: seq<Ino>)
    requires InvOwing(nodes, names, dots, held, n) && Chain(nodes, n, c)
    ensures Deletable(nodes, names, n, c)
    ensures Inv(Release(nodes, names, n, c).0, Release(nodes, names, n, c).1, dots, held)
    decreases |c|
  {
    assert CountOk(nodes, names, dots, n, Some(n));
    if nodes[n].refctr != 1 {
      DecrementKeeps(nodes, names, dots, n);
      var nodes' := nodes[n := nodes[n].(refctr := nodes[n].refctr - 1)];
      SameLocks(nodes, nodes', dots, held);
    } else {
      LastReferenceUnlocked(nodes, names, dots, held, n);
      DeleteInv(nodes, names, dots, held, n);
      assert LinkOk(nodes, names, n);
      if nodes[n].link.Some? {
        ChainWithout(nodes, n, c);
        ReleaseInv(nodes - {n}, names - {nodes[n].link.value}, dots, held, nodes[n].link.value.parent, c[1..]);
      }
    }
  }

  /** Changing counts alone disturbs no lock. */
  lemma SameLocks(nodes: Nodes, nodes': Nodes, dots: Dots, held: Held)
    requires LocksOk(nodes, held) && AllKept(nodes, dots, held) && nodes'.Keys == nodes.Keys
    requires forall m :: m in nodes ==>
      && nodes'[m].link == nodes[m].link && nodes'[m].treelock == nodes[m].treelock
      && nodes'[m].nlookup >= nodes[m].nlookup
    ensures LocksOk(nodes', held) && AllKept(nodes', dots, held)
  {
    HoldsFrame(nodes, nodes', held);
    forall h | h in held ensures Kept(nodes', dots, held[h]) { assert Kept(nodes, dots, held[h]); }
    forall m | m in nodes' ensures LockOk(nodes', held, m) { assert LockOk(nodes, held, m); }
  }

  // -------------------------------------------------------------------------
  // find_node and forget_node

  /** inc_nlookup. */
  function IncLookup(nd: Node): Node {
    nd.(nlookup := nd.nlookup + 1, refctr := if nd.nlookup == 0 then nd.refctr + 1 else nd.refctr)
  }

  lemma IncLookupInv(nodes: Nodes, names: Names, dots: Dots, held: Held, n: Ino)
    requires Inv(nodes, names, dots, held) && n in nodes
    ensures Inv(nodes[n := IncLookup(nodes[n])], names, dots, held)
  {
    var nodes' := nodes[n := IncLookup(nodes[n])];
    SameLinks(nodes, nodes', names);
    SameLocks(nodes, nodes', dots, held);
    forall m | m in nodes' ensures CountOk(nodes', names, dots, m, None) {
      assert CountOk(nodes, names, dots, m, None);
    }
  }

  /** find_node when the name is not known yet: a new node, linked in and looked up once. */
  ghost function AddNode(nodes: Nodes, newid: Ino, l: Link): Nodes
    requires l.parent in nodes && newid !in nodes
  {
    LinkIn(nodes[newid := Node(None, 1, 1, 0)], newid, l)
  }

  lemma AddNodeInv(nodes: Nodes, names: Names, dots: Dots, held: Held, newid: Ino, l: Link)
    requires Inv(nodes, names, dots, held) && newid !in nodes && l.parent in nodes && l !in names
    ensures Inv(AddNode(nodes, newid, l), names[l := newid], dots, held)
  {
    var nodes1 := nodes[newid := Node(None, 1, 1, 0)];
    var d := ChainOf(nodes, l.parent);
    NewNodeKeeps(nodes, names, dots, newid);
    ChainInNodes(nodes, l.parent, d);
    ChainFrame(nodes, nodes1, l.parent, d);
    LinkInKeeps(nodes1, names, dots, newid, l, d);
    var nodes' := AddNode(nodes, newid, l);
    forall h | h in held
      ensures HoldOk(nodes', held[h]) && Kept(nodes', dots, held[h]) && newid !in held[h].chain &&
        held[h].wnode != Some(newid) {
      assert HoldOk(nodes, held[h]) && Kept(nodes, dots, held[h]);
      ChainInNodes(nodes, held[h].target, held[h].chain);
      HoldFrame(nodes, nodes', held[h]);
    }
    forall m | m in nodes' ensures LockOk(nodes', held, m) {
      if m == newid {
        assert Readers(held, m) == {} && Writers(held, m) == {};
      } else {
        assert LockOk(nodes, held, m);
      }
    }
  }

  /** The lookup count going down, possibly to zero; it may reach zero only when the tree lock is
      free, which is what forget_node waits for. */
  lemma ForgetInv(nodes: Nodes, names: Names, dots: Dots, held: Held, n: Ino, k: nat)
    requires Inv(nodes, names, dots, held) && n in nodes && n != ROOT
    requires 1 <= k <= nodes[n].nlookup && (k == nodes[n].nlookup ==> nodes[n].treelock == 0)
    ensures var nodes' := nodes[n := nodes[n].(nlookup := nodes[n].nlookup - k)];
      if k == nodes[n].nlookup then InvOwing(nodes', names, dots, held, n) else Inv(nodes', names, dots, held)
  {
    var nodes' := nodes[n := nodes[n].(nlookup := nodes[n].nlookup - k)];
    SameLinks(nodes, nodes', names);
    HoldsFrame(nodes, nodes', held);
    forall m | m in nodes' ensures LockOk(nodes', held, m) { assert LockOk(nodes, held, m); }
    ForgetKept(nodes, dots, held, n, k);
    ForgetCounts(nodes, names, dots, n, k);
  }

  lemma ForgetKept(nodes: Nodes, dots: Dots, held: Held, n: Ino, k: nat)
    requires LocksOk(nodes, held) && AllKept(nodes, dots, held) && n in nodes && n != ROOT
    requires 1 <= k <= nodes[n].nlookup && (k == nodes[n].nlookup ==> nodes[n].treelock == 0)
    ensures AllKept(nodes[n := nodes[n].(nlookup := nodes[n].nlookup - k)], dots, held)
  {
    var nodes' := nodes[n := nodes[n].(nlookup := nodes[n].nlookup - k)];
    forall h | h in held ensures Kept(nodes', dots, held[h]) {
      assert Kept(nodes, dots, held[h]);
      if k == nodes[n].nlookup {
        UnlockedUninvolved(nodes, held, n, h);
        assert HoldOk(nodes, held[h]);
      }
    }
  }

  lemma ForgetCounts(nodes: Nodes, names: Names, dots: Dots, n: Ino, k: nat)
    requires RefExact(nodes, names, dots, None) && n in nodes && n != ROOT && 1 <= k <= nodes[n].nlookup
    ensures RefExact(nodes[n := nodes[n].(nlookup := nodes[n].nlookup - k)], names, dots,
                     if k == nodes[n].nlookup then Some(n) else None)
  {
    var nodes' := nodes[n := nodes[n].(nlookup := nodes[n].nlookup - k)];
    forall m | m in nodes' ensures CountOk(nodes', names, dots, m, if k == nodes[n].nlookup then Some(n) else None) {
      assert CountOk(nodes, names, dots, m, None);
    }
  }

  // -------------------------------------------------------------------------
  // "." lookups

  lemma DotBeginInv(nodes: Nodes, names: Names, dots: Dots, held: Held, r: nat, n: Ino)
    requires Inv(nodes, names, dots, held) && n in nodes && r !in dots
    ensures Inv(nodes[n := nodes[n].(refctr := nodes[n].refctr + 1)], names, dots[r := n], held)
  {
    var nodes', dots' := nodes[n := nodes[n].(refctr := nodes[n].refctr + 1)], dots[r := n];
    SameLinks(nodes, nodes', names);
    SameLocks(nodes, nodes', dots, held);
    forall h | h in held ensures Kept(nodes', dots', held[h]) { assert Kept(nodes', dots, held[h]); }
    forall m | m in nodes' ensures CountOk(nodes', names, dots', m, None) {
      assert CountOk(nodes, names, dots, m, None);
      DotsWith(dots, r, n, m);
    }
  }

  lemma DotsWith(dots: Dots, r: nat, n: Ino, m: Ino)
    requires r !in dots
    ensures |DotsOn(dots[r := n], m)| == |DotsOn(dots, m)| + (if m == n then 1 else 0)
  {
    if m == n {
      assert DotsOn(dots[r := n], m) == DotsOn(dots, m) + {r};
    } else {
      assert DotsOn(dots[r := n], m) == DotsOn(dots, m);
    }
  }

  /** A "." lookup ends after its path has been given back. */
  lemma DotEndInv(nodes: Nodes, names: Names, dots: Dots, held: Held, r: nat)
    requires Inv(nodes, names, dots, held) && r in dots
    requires forall h :: h in held ==> held[h].dot != Some(r)
    ensures InvOwing(nodes, names, dots - {r}, held, dots[r])
  {
    var dots' := dots - {r};
    forall h | h in held ensures Kept(nodes, dots', held[h]) { assert Kept(nodes, dots, held[h]); }
    forall m | m in nodes ensures CountOk(nodes, names, dots', m, Some(dots[r])) {
      assert CountOk(nodes, names, dots, m, None);
      assert dots == dots'[r := dots[r]];
      DotsWith(dots', r, dots[r], m);
    }
  }

  // -------------------------------------------------------------------------
  // Removing and renaming under the write lock

  ghost function Cut(nodes: Nodes, n: Ino): Nodes
    requires n in nodes
  {
    nodes[n := nodes[n].(link := None)]
  }

  /** Edges of a write-locked node may change: no held path goes through it. */
  lemma CutInv(nodes: Nodes, names: Names, dots: Dots, held: Held, n: Ino, h: HoldId)
    requires Inv(nodes, names, dots, held) && h in held && held[h].wnode == Some(n)
    requires n in nodes && nodes[n].link.Some?
    ensures InvOwing(Cut(nodes, n), names - {nodes[n].link.value}, dots, held, nodes[n].link.value.parent)
  {
    CutKeeps(nodes, names, dots, n);
    RelinkLocks(nodes, Cut(nodes, n), dots, held, n, h);
  }

  lemma RelinkLocks(nodes: Nodes, nodes': Nodes, dots: Dots, held: Held, n: Ino, h: HoldId)
    requires LocksOk(nodes, held) && AllKept(nodes, dots, held) && h in held && held[h].wnode == Some(n)
    requires nodes'.Keys == nodes.Keys
    requires forall m :: m in nodes ==> nodes'[m].treelock == nodes[m].treelock && nodes'[m].nlookup == nodes[m].nlookup
    requires forall m :: m in nodes && m != n ==> nodes'[m].link == nodes[m].link
    ensures LocksOk(nodes', held) && AllKept(nodes', dots, held)
  {
    forall h' | h' in held ensures HoldOk(nodes', held[h']) && Kept(nodes', dots, held[h']) {
      WriterExcludes(nodes, held, h, n, h');
      assert HoldOk(nodes, held[h']) && Kept(nodes, dots, held[h']);
      HoldFrame(nodes, nodes', held[h']);
    }
    forall m | m in nodes' ensures LockOk(nodes', held, m) { assert LockOk(nodes, held, m); }
  }

  /** unhash_name on a live node: its edge goes, and with it one reference on its parent. */
  ghost function Unlink(nodes: Nodes, names: Names, n: Ino, d: seq<Ino>): (Nodes, Names)
    requires n in nodes && nodes[n].link.Some? && Chain(Cut(nodes, n), nodes[n].link.value.parent, d)
  {
    Release(Cut(nodes, n), names - {nodes[n].link.value}, nodes[n].link.value.parent, d)
  }

  /** Since the caller holds the parent's path, only the parent's count changes. */
  lemma UnlinkInv(nodes: Nodes, names: Names, dots: Dots, held: Held, n: Ino, h: HoldId, hp: HoldId)
    returns (d: seq<Ino>)
    requires Inv(nodes, names, dots, held) && n in nodes && nodes[n].link.Some?
    requires h in held && held[h].wnode == Some(n)
    requires hp in held && held[hp].target == nodes[n].link.value.parent
    ensures d == held[hp].chain && n !in d
    ensures Chain(nodes, nodes[n].link.value.parent, d) && Chain(Cut(nodes, n), nodes[n].link.value.parent, d)
    ensures Deletable(Cut(nodes, n), names - {nodes[n].link.value}, nodes[n].link.value.parent, d)
    ensures var l := nodes[n].link.value; var cut := Cut(nodes, n);
      Unlink(nodes, names, n, d) == (cut[l.parent := cut[l.parent].(refctr := cut[l.parent].refctr - 1)], names - {l})
    ensures Inv(Unlink(nodes, names, n, d).0, Unlink(nodes, names, n, d).1, dots, held)
  {
    var p := nodes[n].link.value.parent;
    d := held[hp].chain;
    assert HoldOk(nodes, held[hp]);
    WriterExcludes(nodes, held, h, n, hp);
    ChainFrame(nodes, Cut(nodes, n), p, d);
    CutInv(nodes, names, dots, held, n, h);
    ReleaseInv(Cut(nodes, n), names - {nodes[n].link.value}, dots, held, p, d);
    TargetWanted(Cut(nodes, n), dots, held, hp);
    WantedCounts(Cut(nodes, n), names - {nodes[n].link.value}, dots, p);
    assert CountOk(Cut(nodes, n), names - {nodes[n].link.value}, dots, p, Some(p));
  }

  /** hash_name for a node being renamed: the new directory's held path cannot lead through the
      node, which is write-locked, so no cycle arises. */
  lemma RelinkInv(nodes: Nodes, names: Names, dots: Dots, held: Held, n: Ino, l: Link, h: HoldId, hp: HoldId)
    requires Inv(nodes, names, dots, held) && n in nodes && nodes[n].link == None && l !in names
    requires h in held && held[h].wnode == Some(n)
    requires hp in held && held[hp].target == l.parent
    ensures n != l.parent && l.parent in nodes
    ensures Inv(LinkIn(nodes, n, l), names[l := n], dots, held)
  {
    assert HoldOk(nodes, held[hp]) && HoldOk(nodes, held[h]);
    WriterExcludes(nodes, held, h, n, hp);
    ChainInNodes(nodes, l.parent, held[hp].chain);
    LinkInKeeps(nodes, names, dots, n, l, held[hp].chain);
    RelinkLocks(nodes, LinkIn(nodes, n, l), dots, held, n, h);
  }

  // -------------------------------------------------------------------------
  // Locking and unlocking

  lemma GotInv(nodes: Nodes, names: Names, dots: Dots, held: Held, p: PathReq, c: seq<Ino>, r: TryResult, h: HoldId,
               dot: Option<nat>)
    requires Inv(nodes, names, dots, held) && Chain(nodes, p.nodeid, c) && h !in held && |held| < MAX_HOLDS
    requires r == TryPath(nodes, names, p, c) && r.Got?
    requires KernelKeeps(nodes, names, dots, p, dot)
    ensures Inv(r.nodes, names, dots, held[h := HoldFor(nodes, p, c, r.wnode, dot)])
  {
    TryPathGot(nodes, names, held, p, c, r, h, dot);
    GotLocked(nodes, names, p, c, r);
    LocksLeaveCounts(nodes, r.nodes, names, dots, held, r.wnode, c);
    var held' := held[h := HoldFor(nodes, p, c, r.wnode, dot)];
    forall h' | h' in held' ensures Kept(r.nodes, dots, held'[h']) {
      if h' == h {
        assert Locked(nodes, r.nodes, r.wnode, c, p.nodeid);
        if r.wnode.Some? { assert Locked(nodes, r.nodes, r.wnode, c, r.wnode.value); }
      } else {
        assert Kept(r.nodes, dots, held[h']);
      }
    }
  }

  lemma LocksLeaveCounts(nodes: Nodes, nodes': Nodes, names: Names, dots: Dots, held: Held, w: Option<Ino>, c: seq<Ino>)
    requires RefExact(nodes, names, dots, None) && AllKept(nodes, dots, held) && nodes'.Keys == nodes.Keys
    requires forall n :: n in nodes ==> Locked(nodes, nodes', w, c, n)
    ensures RefExact(nodes', names, dots, None) && AllKept(nodes', dots, held)
  {
    forall n | n in nodes ensures nodes'[n] == nodes[n].(treelock := nodes'[n].treelock) {
      assert Locked(nodes, nodes', w, c, n);
    }
    TreelocksLeaveCounts(nodes, nodes', names, dots, held);
  }

  lemma TreelocksLeaveCounts(nodes: Nodes, nodes': Nodes, names: Names, dots: Dots, held: Held)
    requires RefExact(nodes, names, dots, None) && AllKept(nodes, dots, held) && nodes'.Keys == nodes.Keys
    requires forall n :: n in nodes ==> nodes'[n] == nodes[n].(treelock := nodes'[n].treelock)
    ensures RefExact(nodes', names, dots, None) && AllKept(nodes', dots, held)
  {
    forall m | m in nodes' ensures CountOk(nodes', names, dots, m, None) {
      assert CountOk(nodes, names, dots, m, None);
    }
    forall h | h in held ensures Kept(nodes', dots, held[h]) { assert Kept(nodes, dots, held[h]); }
  }

  lemma MarkInv(nodes: Nodes, nodes': Nodes, names: Names, dots: Dots, held: Held, w: Option<Ino>)
    requires Inv(nodes, names, dots, held) && OnlyMarked(nodes, nodes', w)
    ensures Inv(nodes', names, dots, held)
  {
    MarkKeeps(nodes, nodes', names, held, w);
    forall n | n in nodes ensures nodes'[n] == nodes[n].(treelock := nodes'[n].treelock) {
      assert MarkedAt(nodes, nodes', w, n);
    }
    TreelocksLeaveCounts(nodes, nodes', names, dots, held);
  }

  lemma UnlockInv(nodes: Nodes, names: Names, dots: Dots, held: Held, h: HoldId)
    requires Inv(nodes, names, dots, held) && h in held
    ensures Unlockable(nodes, held[h])
    ensures Inv(UnlockPath(nodes, held[h]), names, dots, held - {h})
  {
    UnlockKeeps(nodes, names, held, h);
    TreelocksLeaveCounts(nodes, UnlockPath(nodes, held[h]), names, dots, held);
  }

  /** What the kernel, or a "." lookup, guarantees of a path request: its directory is looked up,
      and so is the child it is about to remove or rename. */
  ghost predicate KernelKeeps(nodes: Nodes, names: Names, dots: Dots, p: PathReq, dot: Option<nat>) {
    && p.nodeid in nodes
    && (nodes[p.nodeid].nlookup > 0 || (dot.Some? && dot.value in dots && dots[dot.value] == p.nodeid))
    && (WNode(names, p).Some? ==> WNode(names, p).value in nodes && nodes[WNode(names, p).value].nlookup > 0)
  }
}
