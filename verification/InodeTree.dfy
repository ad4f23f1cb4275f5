/** The inode cache of fuse.c as a tree: nodes with a parent and a name, reference counts that say
    when a node dies, and the cascade that deletes a node and then, perhaps, its ancestors. */
module InodeTree {

  import opened Options

  type Ino = nat

  const ROOT: Ino := 1

  // The parent pointer and the name of a node; both are set and cleared together.
  datatype Link = Link(parent: Ino, name: string)

  datatype Node = Node(link: Option<Link>, nlookup: nat, refctr: int, treelock: int)

  type Nodes = map<Ino, Node>    // what the id table holds
  type Names = map<Link, Ino>    // what the name table holds
  type Dots = map<nat, Ino>      // the "." lookups in flight, each with the node it refers to

  // -------------------------------------------------------------------------
  // The walk up the parent pointers

  /** `c` lists the nodes met when walking up from `n`, until a node without a parent. */
  ghost predicate Chain(nodes: Nodes, n: Ino, c: seq<Ino>)
    decreases |c|
  {
    && n in nodes && c != [] && c[0] == n
    && match nodes[n].link
       case None => |c| == 1
       case Some(l) => Chain(nodes, l.parent, c[1..])
  }

  lemma {:induction false} ChainUnique(nodes: Nodes, n: Ino, c: seq<Ino>, d: seq<Ino>)
    requires Chain(nodes, n, c) && Chain(nodes, n, d)
    ensures c == d
    decreases |c|
  {
    match nodes[n].link
    case None =>
    case Some(l) =>
      ChainUnique(nodes, l.parent, c[1..], d[1..]);
      assert c == [n] + c[1..] && d == [n] + d[1..];
  }

  lemma {:induction false} ChainSuffix(nodes: Nodes, n: Ino, c: seq<Ino>, i: nat)
    requires Chain(nodes, n, c) && i < |c|
    ensures Chain(nodes, c[i], c[i..])
    decreases i
  {
    if i == 0 {
      assert c[0..] == c;
    } else {
      ChainSuffix(nodes, nodes[n].link.value.parent, c[1..], i - 1);
      assert c[1..][i - 1..] == c[i..];
    }
  }

  /** Consecutive nodes of a chain are child and parent. */
  lemma ChainStep(nodes: Nodes, n: Ino, c: seq<Ino>, i: nat)
    requires Chain(nodes, n, c) && i < |c|
    ensures c[i] in nodes
    ensures nodes[c[i]].link.Some? <==> i + 1 < |c|
    ensures i + 1 < |c| ==> nodes[c[i]].link.value.parent == c[i + 1]
  {
    ChainSuffix(nodes, n, c, i);
    if i + 1 < |c| { ChainSuffix(nodes, n, c, i + 1); }
  }

  lemma ChainNoRepeat(nodes: Nodes, n: Ino, c: seq<Ino>)
    requires Chain(nodes, n, c)
    ensures forall i, j :: 0 <= i < j < |c| ==> c[i] != c[j]
  {
    forall i, j | 0 <= i < j < |c| ensures c[i] != c[j] {
      ChainSuffix(nodes, n, c, i);
      ChainSuffix(nodes, n, c, j);
      if c[i] == c[j] {
        ChainUnique(nodes, c[i], c[i..], c[j..]);
      }
    }
  }

  /** Only the links of the nodes on a chain matter to it. */
  lemma {:induction false} ChainFrame(nodes: Nodes, nodes': Nodes, n: Ino, c: seq<Ino>)
    requires Chain(nodes, n, c)
    requires forall m :: m in c && m in nodes ==> m in nodes' && nodes'[m].link == nodes[m].link
    ensures Chain(nodes', n, c)
    decreases |c|
  {
    match nodes[n].link
    case None =>
    case Some(l) => ChainFrame(nodes, nodes', l.parent, c[1..]);
  }

  lemma ChainInNodes(nodes: Nodes, n: Ino, c: seq<Ino>)
    requires Chain(nodes, n, c)
    ensures forall m :: m in c ==> m in nodes
  {
    forall m | m in c ensures m in nodes {
      var i :| 0 <= i < |c| && c[i] == m;
      ChainStep(nodes, n, c, i);
    }
  }

  lemma ChainWithout(nodes: Nodes, n: Ino, c: seq<Ino>)
    requires Chain(nodes, n, c) && nodes[n].link.Some?
    ensures Chain(nodes - {n}, nodes[n].link.value.parent, c[1..])
  {
    ChainNoRepeat(nodes, n, c);
    ChainFrame(nodes, nodes - {n}, nodes[n].link.value.parent, c[1..]);
  }

  /** Chains are no longer than there are nodes. */
  lemma ChainBounded(nodes: Nodes, n: Ino, c: seq<Ino>)
    requires Chain(nodes, n, c)
    ensures |c| <= |nodes|
  {
    ChainNoRepeat(nodes, n, c);
    ChainInNodes(nodes, n, c);
    DistinctFit(c, nodes.Keys);
  }

  lemma {:induction false} DistinctFit(c: seq<Ino>, s: set<Ino>)
    requires forall i, j :: 0 <= i < j < |c| ==> c[i] != c[j]
    requires forall m :: m in c ==> m in s
    ensures |c| <= |s|
  {
    if c != [] {
      assert c[0] in s;
      DistinctFit(c[1..], s - {c[0]});
    }
  }

  // -------------------------------------------------------------------------
  // The tree invariant

  ghost predicate HasChain(nodes: Nodes, n: Ino) {
    exists c :: Chain(nodes, n, c)
  }

  /** A node with a name is found under that name, and its parent is there. */
  ghost predicate LinkOk(nodes: Nodes, names: Names, n: Ino)
    requires n in nodes
  {
    nodes[n].link.Some? ==>
      nodes[n].link.value in names && names[nodes[n].link.value] == n && nodes[n].link.value.parent in nodes
  }

  /** What is found under a name has that name. */
  ghost predicate NameOk(nodes: Nodes, names: Names, l: Link)
    requires l in names
  {
    names[l] in nodes && nodes[names[l]].link == Some(l)
  }

  /** Both tables describe the same forest, rooted at ROOT and at nodes whose name is gone; no walk
      up the parents goes on for ever. */
  ghost predicate Tree(nodes: Nodes, names: Names) {
    && ROOT in nodes && nodes[ROOT].link == None
    && (forall n {:trigger LinkOk(nodes, names, n)} :: n in nodes ==> LinkOk(nodes, names, n))
    && (forall l {:trigger NameOk(nodes, names, l)} :: l in names ==> NameOk(nodes, names, l))
    && (forall n {:trigger HasChain(nodes, n)} :: n in nodes ==> HasChain(nodes, n))
  }

  ghost function ChainOf(nodes: Nodes, n: Ino): (c: seq<Ino>)
    requires HasChain(nodes, n)
    ensures Chain(nodes, n, c)
  {
    var c :| Chain(nodes, n, c); c
  }

  // -------------------------------------------------------------------------
  // Reference counts

  ghost function ChildLinks(names: Names, n: Ino): set<Link> {
    set l | l in names && l.parent == n
  }

  ghost function DotsOn(dots: Dots, n: Ino): set<nat> {
    set r | r in dots && dots[r] == n
  }

  /** What refctr counts: named children, one for a positive nlookup, and "." lookups in flight. */
  ghost function Owed(nodes: Nodes, names: Names, dots: Dots, n: Ino): int
    requires n in nodes
  {
    |ChildLinks(names, n)| + (if nodes[n].nlookup > 0 then 1 else 0) + |DotsOn(dots, n)|
  }

  ghost predicate CountOk(nodes: Nodes, names: Names, dots: Dots, n: Ino, extra: Option<Ino>)
    requires n in nodes
  {
    nodes[n].refctr == Owed(nodes, names, dots, n) + (if extra == Some(n) then 1 else 0) && nodes[n].refctr > 0
  }

  /** Every count is exact and positive. Inside a critical section one node, `extra`, may carry a
      reference that is about to be dropped. */
  ghost predicate RefExact(nodes: Nodes, names: Names, dots: Dots, extra: Option<Ino>) {
    && (forall n {:trigger CountOk(nodes, names, dots, n, extra)} :: n in nodes ==>
          CountOk(nodes, names, dots, n, extra))
    && (forall r :: r in dots ==> dots[r] in nodes)
    && (extra.Some? ==> extra.value in nodes)
    && (ROOT in nodes ==> nodes[ROOT].nlookup > 0)
  }

  /** The kernel, or a "." lookup, refers to the node. */
  ghost predicate Wanted(nodes: Nodes, dots: Dots, n: Ino) {
    n in nodes && (nodes[n].nlookup > 0 || DotsOn(dots, n) != {})
  }

  lemma WantedCounts(nodes: Nodes, names: Names, dots: Dots, n: Ino)
    requires Wanted(nodes, dots, n)
    ensures Owed(nodes, names, dots, n) >= 1
  {
    if DotsOn(dots, n) != {} {
      var r :| r in DotsOn(dots, n);
      assert |DotsOn(dots, n)| >= 1;
    }
  }

  lemma ChildCounts(nodes: Nodes, names: Names, dots: Dots, n: Ino, l: Link)
    requires n in nodes && l in names && l.parent == n
    ensures Owed(nodes, names, dots, n) >= 1
  {
    assert l in ChildLinks(names, n);
    assert |ChildLinks(names, n)| >= 1;
  }

  // -------------------------------------------------------------------------
  // Dropping one reference

  /** What unref_node leaves behind: one reference less on `n`; a node left without references is
      deleted, which drops a reference on its parent, and so on up the chain `c`. */
  ghost function Release(nodes: Nodes, names: Names, n: Ino, c: seq<Ino>): (Nodes, Names)
    requires Chain(nodes, n, c)
    decreases |c|
  {
    var nd := nodes[n];
    if nd.refctr != 1 then
      (nodes[n := nd.(refctr := nd.refctr - 1)], names)
    else
      match nd.link
      case None => (nodes - {n}, names)
      case Some(l) =>
        ChainWithout(nodes, n, c);
        Release(nodes - {n}, names - {l}, l.parent, c[1..])
  }

  /** A node whose only reference is the extra one has no children and nobody wants it. */
  lemma LastReference(nodes: Nodes, names: Names, dots: Dots, n: Ino)
    requires RefExact(nodes, names, dots, Some(n)) && nodes[n].refctr == 1
    ensures n != ROOT && !Wanted(nodes, dots, n) && ChildLinks(names, n) == {}
  {
    assert CountOk(nodes, names, dots, n, Some(n));
    if Wanted(nodes, dots, n) { WantedCounts(nodes, names, dots, n); }
    if l :| l in ChildLinks(names, n) { ChildCounts(nodes, names, dots, n, l); }
  }

  /** A node without children is on no chain but those that start at it. */
  lemma ChildlessOnChain(nodes: Nodes, names: Names, n: Ino, m: Ino, c: seq<Ino>)
    requires Tree(nodes, names) && ChildLinks(names, n) == {} && Chain(nodes, m, c) && n in c
    ensures n == m
  {
    var i :| 0 <= i < |c| && c[i] == n;
    if i > 0 {
      ChainStep(nodes, m, c, i - 1);
      OnlyChild(nodes, names, c[i - 1]);
    }
  }

  lemma OnlyChild(nodes: Nodes, names: Names, m: Ino)
    requires Tree(nodes, names) && m in nodes && nodes[m].link.Some?
    ensures nodes[m].link.value in ChildLinks(names, nodes[m].link.value.parent)
  {
    assert LinkOk(nodes, names, m);
  }

  function NamesWithout(names: Names, link: Option<Link>): Names {
    match link
    case None => names
    case Some(l) => names - {l}
  }

  lemma DeleteTree(nodes: Nodes, names: Names, n: Ino)
    requires Tree(nodes, names) && n in nodes && n != ROOT && ChildLinks(names, n) == {}
    ensures Tree(nodes - {n}, NamesWithout(names, nodes[n].link))
    ensures nodes[n].link.Some? ==> nodes[n].link.value.parent != n
  {
    var nodes', names' := nodes - {n}, NamesWithout(names, nodes[n].link);
    assert LinkOk(nodes, names, n);
    forall m | m in nodes && nodes[m].link.Some? ensures nodes[m].link.value.parent != n {
      OnlyChild(nodes, names, m);
    }
    forall m | m in nodes' ensures HasChain(nodes', m) && LinkOk(nodes', names', m) {
      var c := ChainOf(nodes, m);
      if n in c { ChildlessOnChain(nodes, names, n, m, c); }
      ChainFrame(nodes, nodes', m, c);
      assert LinkOk(nodes, names, m);
    }
    forall l | l in names' ensures NameOk(nodes', names', l) { assert NameOk(nodes, names, l); }
  }

  lemma ChildLinksWithout(names: Names, l: Link, m: Ino)
    requires l in names
    ensures |ChildLinks(names - {l}, m)| == |ChildLinks(names, m)| - (if l.parent == m then 1 else 0)
  {
    if l.parent == m {
      assert ChildLinks(names - {l}, m) == ChildLinks(names, m) - {l};
    } else {
      assert ChildLinks(names - {l}, m) == ChildLinks(names, m);
    }
  }

  lemma ChildLinksWith(names: Names, l: Link, n: Ino, m: Ino)
    requires l !in names
    ensures |ChildLinks(names[l := n], m)| == |ChildLinks(names, m)| + (if l.parent == m then 1 else 0)
  {
    if l.parent == m {
      assert ChildLinks(names[l := n], m) == ChildLinks(names, m) + {l};
    } else {
      assert ChildLinks(names[l := n], m) == ChildLinks(names, m);
    }
  }

  function ParentOf(link: Option<Link>): Option<Ino> {
    match link
    case None => None
    case Some(l) => Some(l.parent)
  }

  lemma DeleteCounts(nodes: Nodes, names: Names, dots: Dots, n: Ino)
    requires Tree(nodes, names) && RefExact(nodes, names, dots, Some(n)) && nodes[n].refctr == 1
    ensures RefExact(nodes - {n}, NamesWithout(names, nodes[n].link), dots, ParentOf(nodes[n].link))
  {
    LastReference(nodes, names, dots, n);
    DeleteTree(nodes, names, n);
    assert LinkOk(nodes, names, n);
    var nodes', names' := nodes - {n}, NamesWithout(names, nodes[n].link);
    forall m | m in nodes' ensures CountOk(nodes', names', dots, m, ParentOf(nodes[n].link)) {
      assert CountOk(nodes, names, dots, m, Some(n));
      if nodes[n].link.Some? { ChildLinksWithout(names, nodes[n].link.value, m); }
    }
    forall r | r in dots ensures dots[r] in nodes' {
      assert r in DotsOn(dots, dots[r]);
    }
  }

  /** Dropping the extra reference without deleting anything. */
  lemma DecrementKeeps(nodes: Nodes, names: Names, dots: Dots, n: Ino)
    requires Tree(nodes, names) && RefExact(nodes, names, dots, Some(n)) && nodes[n].refctr != 1
    ensures var nodes' := nodes[n := nodes[n].(refctr := nodes[n].refctr - 1)];
      Tree(nodes', names) && RefExact(nodes', names, dots, None)
  {
    var nodes' := nodes[n := nodes[n].(refctr := nodes[n].refctr - 1)];
    SameLinks(nodes, nodes', names);
    forall m | m in nodes' ensures CountOk(nodes', names, dots, m, None) {
      assert CountOk(nodes, names, dots, m, Some(n));
    }
  }

  lemma SameLinks(nodes: Nodes, nodes': Nodes, names: Names)
    requires Tree(nodes, names) && nodes'.Keys == nodes.Keys
    requires forall m :: m in nodes ==> nodes'[m].link == nodes[m].link
    ensures Tree(nodes', names)
  {
    forall m | m in nodes' ensures HasChain(nodes', m) && LinkOk(nodes', names, m) {
      ChainFrame(nodes, nodes', m, ChainOf(nodes, m));
      assert LinkOk(nodes, names, m);
    }
    forall l | l in names ensures NameOk(nodes', names, l) { assert NameOk(nodes, names, l); }
  }

  /** Dropping the extra reference restores both invariants. */
  lemma {:induction false} ReleaseKeeps(nodes: Nodes, names: Names, dots: Dots, n: Ino, c: seq<Ino>)
    requires Tree(nodes, names) && RefExact(nodes, names, dots, Some(n)) && Chain(nodes, n, c)
    ensures var (nodes', names') := Release(nodes, names, n, c);
      Tree(nodes', names') && RefExact(nodes', names', dots, None)
    decreases |c|
  {
    if nodes[n].refctr != 1 {
      DecrementKeeps(nodes, names, dots, n);
    } else {
      LastReference(nodes, names, dots, n);
      DeleteTree(nodes, names, n);
      DeleteCounts(nodes, names, dots, n);
      if nodes[n].link.Some? {
        ChainWithout(nodes, n, c);
        ReleaseKeeps(nodes - {n}, names - {nodes[n].link.value}, dots, nodes[n].link.value.parent, c[1..]);
      }
    }
  }

  /** Nothing but reference counts changes in a node that survives. */
  lemma {:induction false} ReleaseFrame(nodes: Nodes, names: Names, n: Ino, c: seq<Ino>)
    requires Chain(nodes, n, c)
    ensures var (nodes', names') := Release(nodes, names, n, c);
      && (forall m :: m in nodes' ==> m in nodes && nodes'[m] == nodes[m].(refctr := nodes'[m].refctr))
      && (forall m :: m in nodes && m !in c ==> m in nodes' && nodes'[m] == nodes[m])
      && (forall l :: l in names' ==> l in names && names'[l] == names[l])
    decreases |c|
  {
    if nodes[n].refctr == 1 && nodes[n].link.Some? {
      ChainWithout(nodes, n, c);
      ReleaseFrame(nodes - {n}, names - {nodes[n].link.value}, nodes[n].link.value.parent, c[1..]);
    }
  }

  /** The cascade never reaches a wanted node or an ancestor of one. */
  lemma {:induction false} ReleaseSpares(nodes: Nodes, names: Names, dots: Dots, n: Ino, c: seq<Ino>, t: Ino,
                                         ct: seq<Ino>)
    requires Tree(nodes, names) && RefExact(nodes, names, dots, Some(n)) && Chain(nodes, n, c)
    requires Wanted(nodes, dots, t) && Chain(nodes, t, ct)
    ensures var (nodes', _) := Release(nodes, names, n, c);
      (forall m :: m in ct ==> m in nodes') && Chain(nodes', t, ct)
    decreases |c|
  {
    ChainInNodes(nodes, t, ct);
    if nodes[n].refctr != 1 {
      ChainFrame(nodes, Release(nodes, names, n, c).0, t, ct);
    } else {
      LastReference(nodes, names, dots, n);
      DeleteTree(nodes, names, n);
      DeleteCounts(nodes, names, dots, n);
      if n in ct { ChildlessOnChain(nodes, names, n, t, ct); }
      ChainFrame(nodes, nodes - {n}, t, ct);
      if nodes[n].link.Some? {
        ChainWithout(nodes, n, c);
        assert DotsOn(dots, t) != {} || nodes[t].nlookup > 0;
        ReleaseSpares(nodes - {n}, names - {nodes[n].link.value}, dots, nodes[n].link.value.parent, c[1..], t, ct);
      }
    }
  }

  // -------------------------------------------------------------------------
  // Which nodes are alive

  /** Some wanted node lies at or below `n`. */
  ghost predicate Needed(nodes: Nodes, dots: Dots, n: Ino) {
    exists t, ct :: Wanted(nodes, dots, t) && Chain(nodes, t, ct) && n in ct
  }

  /** The live nodes are exactly the wanted ones and their ancestors: nothing leaks, and nothing
      still in use is gone. */
  lemma LiveExactly(nodes: Nodes, names: Names, dots: Dots)
    requires Tree(nodes, names) && RefExact(nodes, names, dots, None)
    ensures forall n :: n in nodes <==> Needed(nodes, dots, n)
  {
    forall n ensures n in nodes <==> Needed(nodes, dots, n) {
      if n in nodes {
        LiveIsNeeded(nodes, names, dots, n, ChainOf(nodes, n));
      }
      if Needed(nodes, dots, n) {
        var t, ct :| Wanted(nodes, dots, t) && Chain(nodes, t, ct) && n in ct;
        ChainInNodes(nodes, t, ct);
      }
    }
  }

  lemma {:induction false} LiveIsNeeded(nodes: Nodes, names: Names, dots: Dots, n: Ino, c: seq<Ino>)
    requires Tree(nodes, names) && RefExact(nodes, names, dots, None) && Chain(nodes, n, c)
    ensures Needed(nodes, dots, n)
    decreases |nodes| - |c|
  {
    ChainBounded(nodes, n, c);
    if Wanted(nodes, dots, n) {
    } else {
      assert CountOk(nodes, names, dots, n, None);
      assert Owed(nodes, names, dots, n) == |ChildLinks(names, n)|;
      var l :| l in ChildLinks(names, n);
      assert NameOk(nodes, names, l);
      var m := names[l];
      assert Chain(nodes, m, [m] + c) by { assert ([m] + c)[1..] == c; }
      ChainBounded(nodes, m, [m] + c);
      LiveIsNeeded(nodes, names, dots, m, [m] + c);
      var t, ct :| Wanted(nodes, dots, t) && Chain(nodes, t, ct) && m in ct;
      var i :| 0 <= i < |ct| && ct[i] == m;
      ChainStep(nodes, t, ct, i);
      assert ct[i + 1] == n;
    }
  }

  // -------------------------------------------------------------------------
  // Unlinking and linking

  /** Clearing the link of `n` cuts every chain at `n`. */
  lemma {:induction false} ChainCut(nodes: Nodes, n: Ino, m: Ino, c: seq<Ino>)
    requires n in nodes && Chain(nodes, m, c)
    ensures HasChain(nodes[n := nodes[n].(link := None)], m)
    decreases |c|
  {
    var nodes' := nodes[n := nodes[n].(link := None)];
    if m == n {
      assert Chain(nodes', m, [m]);
    } else if nodes[m].link == None {
      assert Chain(nodes', m, c);
    } else {
      var p := nodes[m].link.value.parent;
      ChainCut(nodes, n, p, c[1..]);
      var d := ChainOf(nodes', p);
      assert Chain(nodes', m, [m] + d) by { assert ([m] + d)[1..] == d; }
    }
  }

  /** Hanging `n` under a node whose chain avoids it extends every chain that ended at `n`. */
  lemma {:induction false} ChainJoin(nodes: Nodes, n: Ino, l: Link, d: seq<Ino>, m: Ino, c: seq<Ino>)
    requires n in nodes && nodes[n].link == None
    requires Chain(nodes, l.parent, d) && n !in d
    requires Chain(nodes, m, c)
    ensures HasChain(nodes[n := nodes[n].(link := Some(l))], m)
    decreases |c|
  {
    var nodes' := nodes[n := nodes[n].(link := Some(l))];
    if m == n {
      ChainFrame(nodes, nodes', l.parent, d);
      assert Chain(nodes', m, [m] + d) by { assert ([m] + d)[1..] == d; }
    } else if nodes[m].link == None {
      assert Chain(nodes', m, c);
    } else {
      var p := nodes[m].link.value.parent;
      ChainJoin(nodes, n, l, d, p, c[1..]);
      var e := ChainOf(nodes', p);
      assert Chain(nodes', m, [m] + e) by { assert ([m] + e)[1..] == e; }
    }
  }

  lemma CutTree(nodes: Nodes, names: Names, n: Ino)
    requires Tree(nodes, names) && n in nodes && nodes[n].link.Some?
    ensures Tree(nodes[n := nodes[n].(link := None)], names - {nodes[n].link.value})
  {
    var nodes', names' := nodes[n := nodes[n].(link := None)], names - {nodes[n].link.value};
    assert LinkOk(nodes, names, n);
    forall m | m in nodes' ensures HasChain(nodes', m) && LinkOk(nodes', names', m) {
      ChainCut(nodes, n, m, ChainOf(nodes, m));
      assert LinkOk(nodes, names, m);
    }
    forall l | l in names' ensures NameOk(nodes', names', l) { assert NameOk(nodes, names, l); }
  }

  /** unhash_name before its reference to the parent is dropped. */
  lemma CutKeeps(nodes: Nodes, names: Names, dots: Dots, n: Ino)
    requires Tree(nodes, names) && RefExact(nodes, names, dots, None)
    requires n in nodes && nodes[n].link.Some?
    ensures var l := nodes[n].link.value; var nodes' := nodes[n := nodes[n].(link := None)];
      Tree(nodes', names - {l}) && RefExact(nodes', names - {l}, dots, Some(l.parent))
  {
    var l, nodes' := nodes[n].link.value, nodes[n := nodes[n].(link := None)];
    CutTree(nodes, names, n);
    assert LinkOk(nodes, names, n);
    forall m | m in nodes' ensures CountOk(nodes', names - {l}, dots, m, Some(l.parent)) {
      assert CountOk(nodes, names, dots, m, None);
      ChildLinksWithout(names, l, m);
    }
  }

  /** hash_name. */
  ghost function LinkIn(nodes: Nodes, n: Ino, l: Link): Nodes
    requires n in nodes && l.parent in nodes && n != l.parent
  {
    nodes[n := nodes[n].(link := Some(l))][l.parent := nodes[l.parent].(refctr := nodes[l.parent].refctr + 1)]
  }

  lemma LinkInTree(nodes: Nodes, names: Names, n: Ino, l: Link, d: seq<Ino>)
    requires Tree(nodes, names) && n in nodes && n != ROOT && nodes[n].link == None && l !in names
    requires Chain(nodes, l.parent, d) && n !in d
    ensures Tree(LinkIn(nodes, n, l), names[l := n])
  {
    var nodes1 := nodes[n := nodes[n].(link := Some(l))];
    forall m | m in nodes1 ensures HasChain(nodes1, m) && LinkOk(nodes1, names[l := n], m) {
      ChainJoin(nodes, n, l, d, m, ChainOf(nodes, m));
      assert LinkOk(nodes, names, m);
    }
    forall k | k in names ensures NameOk(nodes1, names[l := n], k) {
      if k != l { assert NameOk(nodes, names, k); }
    }
    assert Tree(nodes1, names[l := n]);
    SameLinks(nodes1, LinkIn(nodes, n, l), names[l := n]);
  }

  lemma LinkInKeeps(nodes: Nodes, names: Names, dots: Dots, n: Ino, l: Link, d: seq<Ino>)
    requires Tree(nodes, names) && RefExact(nodes, names, dots, None)
    requires n in nodes && n != ROOT && nodes[n].link == None && l !in names
    requires Chain(nodes, l.parent, d) && n !in d
    ensures Tree(LinkIn(nodes, n, l), names[l := n]) && RefExact(LinkIn(nodes, n, l), names[l := n], dots, None)
  {
    LinkInTree(nodes, names, n, l, d);
    var nodes', names' := LinkIn(nodes, n, l), names[l := n];
    forall m | m in nodes' ensures CountOk(nodes', names', dots, m, None) {
      assert CountOk(nodes, names, dots, m, None);
      ChildLinksWith(names, l, n, m);
    }
  }

  /** A fresh node with one lookup, not yet linked. */
  lemma NewNodeKeeps(nodes: Nodes, names: Names, dots: Dots, n: Ino)
    requires Tree(nodes, names) && RefExact(nodes, names, dots, None) && n !in nodes
    ensures var nodes' := nodes[n := Node(None, 1, 1, 0)]; Tree(nodes', names) && RefExact(nodes', names, dots, None)
  {
    var nodes' := nodes[n := Node(None, 1, 1, 0)];
    NewNodeTree(nodes, names, n);
    forall m | m in nodes' ensures CountOk(nodes', names, dots, m, None) {
      if m == n {
        assert ChildLinks(names, n) == {} && DotsOn(dots, n) == {};
      } else {
        assert CountOk(nodes, names, dots, m, None);
      }
    }
  }

  lemma NewNodeTree(nodes: Nodes, names: Names, n: Ino)
    requires Tree(nodes, names) && n !in nodes
    ensures Tree(nodes[n := Node(None, 1, 1, 0)], names)
    ensures ChildLinks(names, n) == {}
  {
    var nodes' := nodes[n := Node(None, 1, 1, 0)];
    assert Chain(nodes', n, [n]);
    forall m | m in nodes' ensures HasChain(nodes', m) && LinkOk(nodes', names, m) {
      if m != n {
        ChainFrame(nodes, nodes', m, ChainOf(nodes, m));
        assert LinkOk(nodes, names, m);
      }
    }
    forall l | l in names ensures NameOk(nodes', names, l) && l.parent != n {
      assert NameOk(nodes, names, l);
      assert LinkOk(nodes, names, names[l]);
    }
  }
}
