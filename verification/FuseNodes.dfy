/** The inode cache object: the critical sections of fuse.c that change the tree, its reference
    counts, its path locks and the queue of requests waiting for a path.  Each method runs with the
    library's mutex held. */
module FuseNodes {

  import opened Options
  import opened InodeTree
  import opened TreeLocks
  import opened TreeProtocol
  import opened LockQueue
  import opened PathBuffer
  import opened NodeIds
  import opened FuseTables
  import opened PathNames

  /** The size of a path string with its terminator. */
  function TextSize(nodes: Nodes, c: seq<Ino>, name: Option<string>): nat {
    |Dirs(nodes, c)| + (if name.Some? then |name.value| + 1 else 0) + 1
  }

  /** The path asked for has a string shorter than 2^32, which is all add_name can count. */
  ghost predicate PathFits(nodes: Nodes, p: PathReq) {
    && ReqOk(p)
    && forall c {:trigger Chain(nodes, p.nodeid, c)} ::
         Chain(nodes, p.nodeid, c) ==> TextSize(nodes, c, p.name) <= UINT_MAX
  }

  ghost predicate ElemFits(nodes: Nodes, e: Elem) {
    e.PathElem? ==> PathFits(nodes, e.p1) && (e.p2.Some? ==> PathFits(nodes, e.p2.value))
  }

  ghost predicate QueueFits(nodes: Nodes, q: seq<Elem>) {
    forall i {:trigger ElemFits(nodes, q[i])} :: 0 <= i < |q| ==> ElemFits(nodes, q[i])
  }

  /** Only tree locks differ. */
  ghost predicate OnlyLocks(nodes: Nodes, nodes': Nodes) {
    nodes'.Keys == nodes.Keys && forall n :: n in nodes ==> nodes'[n] == nodes[n].(treelock := nodes'[n].treelock)
  }

  lemma OnlyLocksTrans(a: Nodes, b: Nodes, c: Nodes)
    requires OnlyLocks(a, b) && OnlyLocks(b, c)
    ensures OnlyLocks(a, c)
  {
  }

  lemma PathFitsFrame(nodes: Nodes, nodes': Nodes, p: PathReq)
    requires PathFits(nodes, p) && OnlyLocks(nodes, nodes')
    ensures PathFits(nodes', p)
  {
    forall c | Chain(nodes', p.nodeid, c) ensures TextSize(nodes', c, p.name) <= UINT_MAX {
      ChainInNodes(nodes', p.nodeid, c);
      ChainFrame(nodes', nodes, p.nodeid, c);
      PathTextFrame(nodes, nodes', c);
      assert Chain(nodes, p.nodeid, c);
    }
  }

  lemma ElemFitsFrame(nodes: Nodes, nodes': Nodes, e: Elem)
    requires ElemFits(nodes, e) && OnlyLocks(nodes, nodes')
    ensures ElemFits(nodes', e)
  {
    if e.PathElem? {
      PathFitsFrame(nodes, nodes', e.p1);
      if e.p2.Some? { PathFitsFrame(nodes, nodes', e.p2.value); }
    }
  }

  lemma QueueFitsFrame(nodes: Nodes, nodes': Nodes, q: seq<Elem>, q': seq<Elem>)
    requires QueueFits(nodes, q) && OnlyLocks(nodes, nodes') && |q'| == |q|
    requires forall j :: 0 <= j < |q| ==> SameRequest(q[j], q'[j])
    ensures QueueFits(nodes', q')
  {
    forall j | 0 <= j < |q'| ensures ElemFits(nodes', q'[j]) {
      assert ElemFits(nodes, q[j]) && SameRequest(q[j], q'[j]);
      ElemFitsFrame(nodes, nodes', q[j]);
    }
  }

  lemma TryPathOnlyLocks(nodes: Nodes, names: Names, p: PathReq, c: seq<Ino>)
    ensures OnlyLocks(nodes, TryPath(nodes, names, p, c).nodes)
  {
  }

  /** unlock_path releases exactly the chain below the root. */
  lemma ChainBelowRoot(nodes: Nodes, h: Hold)
    requires HoldOk(nodes, h) && ROOT in nodes && nodes[ROOT].link == None
    ensures forall j :: 0 <= j < |h.chain| - 1 ==> h.chain[j] != ROOT
    ensures forall m: Nodes :: UnBump(m, h.chain[..|h.chain| - 1]) == UnBump(m, h.chain)
  {
    ChainNoRepeat(nodes, h.target, h.chain);
    assert h.chain == h.chain[..|h.chain| - 1] + [ROOT];
  }

  // -------------------------------------------------------------------------
  // Facts about maps with some nodes set aside

  lemma {:induction false} ReleaseAside(nodes: Nodes, names: Names, p: Ino, d: seq<Ino>, n: Ino, nd: Node)
    requires Chain(nodes, p, d) && n !in d && n !in nodes
    ensures Chain(nodes[n := nd], p, d)
    ensures var r := Release(nodes, names, p, d); Release(nodes[n := nd], names, p, d) == (r.0[n := nd], r.1)
    ensures n !in Release(nodes, names, p, d).0
    decreases |d|
  {
    ChainFrame(nodes, nodes[n := nd], p, d);
    if nodes[p].refctr != 1 {
      var less := nodes[p].(refctr := nodes[p].refctr - 1);
      assert nodes[n := nd][p := less] == nodes[p := less][n := nd];
    } else {
      assert nodes[n := nd] - {p} == (nodes - {p})[n := nd];
      if nodes[p].link.Some? {
        ChainWithout(nodes, p, d);
        ReleaseAside(nodes - {p}, names - {nodes[p].link.value}, nodes[p].link.value.parent, d[1..], n, nd);
      }
    }
  }

  /** Undoing the reader counts and the write lock of an attempt that failed half way. */
  lemma BumpUndone(nodes: Nodes, w: Option<Ino>, d: seq<Ino>)
    requires w.Some? ==> w.value in nodes && w.value !in d && nodes[w.value].treelock == 0
    requires forall m :: m in d && m in nodes && m != ROOT ==> nodes[m].treelock >= 0
    ensures UnBump(SetOptLock(Bump(SetOptLock(nodes, w, TREELOCK_WRITE), d), w, 0), d) == nodes
  {
    var back := UnBump(SetOptLock(Bump(SetOptLock(nodes, w, TREELOCK_WRITE), d), w, 0), d);
    assert back.Keys == nodes.Keys;
    forall m | m in nodes ensures back[m] == nodes[m] {}
  }

  /** The assertions of unlock_path about a node it walks over. */
  predicate ReadLocked(nodes: Nodes, n: Ino) {
    n in nodes && nodes[n].treelock !in {0, TREELOCK_WAIT_OFFSET, TREELOCK_WRITE}
  }

  lemma UnBumpNone(nodes: Nodes)
    ensures UnBump(nodes, []) == nodes
  {
  }

  lemma UnBumpStep(start: Nodes, c: seq<Ino>, i: nat)
    requires i < |c| && c[i] in start && c[i] != ROOT && forall j :: 0 <= j < i ==> c[j] != c[i]
    ensures c[i] in UnBump(start, c[..i]) && UnBump(start, c[..i])[c[i]] == start[c[i]]
    ensures UnBump(start, c[..i + 1]) == SetLock(UnBump(start, c[..i]), c[i], Dec(start[c[i]].treelock))
  {
    assert c[..i + 1] == c[..i] + [c[i]];
  }

  lemma BumpStep(start: Nodes, c: seq<Ino>, i: nat)
    requires i < |c| && c[i] in start && c[i] != ROOT && forall j :: 0 <= j < i ==> c[j] != c[i]
    ensures c[i] in Bump(start, c[..i]) && Bump(start, c[..i])[c[i]] == start[c[i]]
    ensures Bump(start, c[..i + 1]) == SetLock(Bump(start, c[..i]), c[i], start[c[i]].treelock + 1)
  {
    assert c[..i + 1] == c[..i] + [c[i]];
  }

  /** Where try_get_path stands after `i` rounds: every node passed has one more reader. */
  ghost predicate Walked(was: Nodes, w: Option<Ino>, nodeid: Ino, c: seq<Ino>, i: nat, nodes: Nodes, node: Ino)
    requires i < |c|
  {
    && Chain(was, nodeid, c) && ROOT in was && was[ROOT].link == None && (w.Some? ==> w.value !in c)
    && node == c[i]
    && nodes == Bump(SetOptLock(was, w, TREELOCK_WRITE), c[..i])
    && Walk(was, c) == Walk(was, c[i..])
    && forall j :: 0 <= j < i ==> c[j] != ROOT && c[j] in was && was[c[j]].treelock >= 0
  }

  /** What is still to be walked is what is still missing in front of the text. */
  ghost predicate Written(was: Nodes, c: seq<Ino>, i: nat, text: string, last: string)
    requires i < |c|
  {
    Dirs(was, c) + last == Dirs(was, c[i..]) + text
  }

  lemma WalkedStart(was: Nodes, w: Option<Ino>, nodeid: Ino, c: seq<Ino>, nodes: Nodes, last: string)
    requires Chain(was, nodeid, c) && ROOT in was && was[ROOT].link == None && (w.Some? ==> w.value !in c)
    requires nodes == SetOptLock(was, w, TREELOCK_WRITE)
    ensures c != [] && Walked(was, w, nodeid, c, 0, nodes, nodeid) && Written(was, c, 0, last, last)
  {
    assert Bump(nodes, c[..0]) == nodes && c[0..] == c;
  }

  lemma WalkedHere(was: Nodes, w: Option<Ino>, nodeid: Ino, c: seq<Ino>, i: nat, nodes: Nodes, node: Ino)
    requires i < |c| && Walked(was, w, nodeid, c, i, nodes, node) && node != ROOT
    ensures node == c[i] && node in was && node in nodes && nodes[node] == was[node]
    ensures was[node].link.None? ==> Walk(was, c) == Some(ENOENT)
    ensures was[node].link.Some? ==> i + 1 < |c| && (was[node].treelock < 0 ==> Walk(was, c) == Some(EAGAIN))
    ensures was[node].link.Some? && was[node].treelock >= 0 ==>
      Walked(was, w, nodeid, c, i + 1, SetLock(nodes, node, was[node].treelock + 1), was[node].link.value.parent)
  {
    var start := SetOptLock(was, w, TREELOCK_WRITE);
    ChainStep(was, nodeid, c, i);
    ChainNoRepeat(was, nodeid, c);
    assert c[i] in c;
    BumpStep(start, c, i);
    assert c[i..][0] == c[i] && c[i..][1..] == c[i + 1..];
  }

  lemma WrittenNext(was: Nodes, c: seq<Ino>, i: nat, text: string, last: string)
    requires i + 1 < |c| && Written(was, c, i, text, last)
    requires c[i] != ROOT && c[i] in was && was[c[i]].link.Some?
    ensures var name := was[c[i]].link.value.name;
      Written(was, c, i + 1, "/" + name + text, last) && |text| + |name| + 1 <= |Dirs(was, c)| + |last|
  {
    var name, rest := was[c[i]].link.value.name, Dirs(was, c[i + 1..]);
    assert c[i..][0] == c[i] && c[i..][1..] == c[i + 1..];
    assert Dirs(was, c[i..]) == rest + "/" + name;
    assert rest + "/" + name + text == rest + ("/" + name + text);
    assert |Dirs(was, c[i..]) + text| == |Dirs(was, c) + last|;
  }

  lemma BumpRoot(nodes: Nodes, c: seq<Ino>, i: nat)
    requires i + 1 == |c| && c[i] == ROOT
    ensures Bump(nodes, c[..i]) == Bump(nodes, c)
  {
    assert c == c[..i] + [ROOT];
  }

  lemma WalkedOut(was: Nodes, w: Option<Ino>, nodeid: Ino, c: seq<Ino>, i: nat, nodes: Nodes, text: string,
                  last: string)
    requires i < |c| && Walked(was, w, nodeid, c, i, nodes, ROOT) && Written(was, c, i, text, last)
    ensures Walk(was, c) == None
    ensures nodes == Bump(SetOptLock(was, w, TREELOCK_WRITE), c)
    ensures text == Dirs(was, c) + last
  {
    ChainStep(was, nodeid, c, i);
    hide Chain, Bump;
    assert c[i..][0] == ROOT;
    assert Dirs(was, c[i..]) == "" && Walk(was, c[i..]) == None;
    assert i + 1 == |c|;
    BumpRoot(SetOptLock(was, w, TREELOCK_WRITE), c, i);
  }

  /** The element asks for the same thing; only its flags may differ. */
  predicate SameRequest(a: Elem, b: Elem) {
    a.req == b.req && (a.ForgetElem? <==> b.ForgetElem?) && (a.ForgetElem? ==> a == b)
    && (a.PathElem? ==> b.p1 == a.p1 && b.p2 == a.p2 && b.dot == a.dot)
  }

  ghost predicate HoldsOfOthersKept(held: Held, held': Held, q: seq<Elem>) {
    forall h: HoldId :: (forall j :: 0 <= j < |q| ==> q[j].req != h.req) ==>
      (h in held' <==> h in held) && (h in held ==> held'[h] == held[h])
  }

  /** Every path the element asked for is held, and these are their strings. */
  ghost predicate HoldsRequested(held: Held, e: Elem, path1: string, path2: string)
    requires e.PathElem?
  {
    && HoldsPath(held, HoldId(e.req, First), e.p1, e.wnode1) && held[HoldId(e.req, First)].path == path1
    && (e.p2.Some? ==>
          HoldsPath(held, HoldId(e.req, Second), e.p2.value, e.wnode2) && held[HoldId(e.req, Second)].path == path2)
  }

  ghost predicate HoldsPath(held: Held, id: HoldId, p: PathReq, w: Option<Ino>) {
    id in held && held[id].target == p.nodeid && held[id].name == p.name && held[id].wnode == w
  }

  lemma SameRequests(q: seq<Elem>)
    ensures forall j :: 0 <= j < |q| ==> SameRequest(q[j], q[j])
  {
  }

  lemma QueueMoves(nodes: Nodes, nodes': Nodes, names: Names, dots: Dots, held: Held, q: seq<Elem>)
    requires QueueOk(nodes, names, dots, held, q) && OnlyLocks(nodes, nodes')
    ensures QueueOk(nodes', names, dots, held, q)
  {
    TreelocksLeaveElems(nodes, nodes', names, dots, q);
  }

  /** What a request is told, and what it holds. */
  predicate SameAnswer(a: Elem, b: Elem) {
    a.PathElem? && b.PathElem? && b.done && b.err == a.err && b.first == a.first && b.second == a.second
  }

  /** Tree locks do not matter to what has failed. */
  lemma ErrLocks(nodes: Nodes, nodes': Nodes, e: Elem)
    requires ErrOk(nodes, e) && OnlyLocks(nodes, nodes')
    ensures ErrOk(nodes', e)
  {
    if e.PathElem? && e.done && e.err.Some? {
      GoneLocks(nodes, nodes', e.p1.nodeid);
      if e.p2.Some? { GoneLocks(nodes, nodes', e.p2.value.nodeid); }
    }
  }

  lemma GoneLocks(nodes: Nodes, nodes': Nodes, n: Ino)
    requires OnlyLocks(nodes, nodes')
    ensures Gone(nodes, n) ==> Gone(nodes', n)
  {
    if Gone(nodes, n) {
      var c :| Chain(nodes, n, c) && c[|c| - 1] != ROOT;
      ChainFrame(nodes, nodes', n, c);
    }
  }

  lemma ErrsLocks(nodes: Nodes, nodes': Nodes, q: seq<Elem>)
    requires ErrsOk(nodes, q) && OnlyLocks(nodes, nodes')
    ensures ErrsOk(nodes', q)
  {
    forall i | 0 <= i < |q| ensures ErrOk(nodes', q[i]) {
      assert ErrOk(nodes, q[i]);
      ErrLocks(nodes, nodes', q[i]);
    }
  }

  lemma WritersLocks(nodes: Nodes, nodes': Nodes, held: Held)
    requires WritersNamed(nodes, held) && OnlyLocks(nodes, nodes')
    ensures WritersNamed(nodes', held)
  {
    forall h | h in held ensures WriterNamed(nodes', held, h) { assert WriterNamed(nodes, held, h); }
  }

  lemma WantsGoneLocks(nodes: Nodes, nodes': Nodes, e: Elem)
    requires e.PathElem? && OnlyLocks(nodes, nodes')
    ensures WantsGone(nodes, e) ==> WantsGone(nodes', e)
  {
    GoneLocks(nodes, nodes', e.p1.nodeid);
    if e.p2.Some? { GoneLocks(nodes, nodes', e.p2.value.nodeid); }
  }

  /** An element that has given its paths back takes no writer's directory away. */
  lemma NoSlotsNamed(nodes: Nodes, held: Held, nodes': Nodes, held': Held, e: Elem)
    requires WritersNamed(nodes, held) && OnlyLocks(nodes, nodes') && OthersKept(held, held', e.req)
    requires e.PathElem? && SlotsOk(held', e)
    ensures held' == held || (!e.first && !e.second) ==> WritersNamed(nodes', held')
  {
    if held' == held {
      WritersLocks(nodes, nodes', held);
    } else if !e.first && !e.second {
      forall h | h in held' ensures h.req != e.req {
        assert h.slot.First? || h.slot.Second?;
        assert h == HoldId(h.req, First) || h == HoldId(h.req, Second);
      }
      WritersWithout(nodes, held, held', e.req);
      WritersLocks(nodes, nodes', held');
    }
  }

  /** One element of the queue is replaced, or is new, or leaves. */
  lemma ErrsReplaced(nodes: Nodes, q: seq<Elem>, i: nat, e: Elem)
    requires ErrsOk(nodes, q) && ErrOk(nodes, e)
    ensures ErrsOk(nodes, q + [e]) && (i < |q| ==> ErrsOk(nodes, q[i := e]) && ErrsOk(nodes, q[..i] + q[i + 1..]))
  {
    forall x | x in q ensures ErrOk(nodes, x) {
      var k :| 0 <= k < |q| && q[k] == x;
      assert ErrOk(nodes, q[k]);
    }
  }

  /** The queue is not concerned by what a request that is not in it holds. */
  lemma QueueStays(nodes: Nodes, nodes': Nodes, names: Names, dots: Dots, held: Held, held': Held, q: seq<Elem>,
                   req: nat)
    requires QueueOk(nodes, names, dots, held, q) && OnlyLocks(nodes, nodes')
    requires OthersKept(held, held', req) && forall i :: 0 <= i < |q| ==> q[i].req != req
    ensures QueueOk(nodes', names, dots, held', q)
  {
    QueueMoves(nodes, nodes', names, dots, held, q);
    AllFlagsFrame(held, held', q, req);
  }

  lemma SameChain(nodes: Nodes, nodes': Nodes, n: Ino)
    requires HasChain(nodes, n) && OnlyLocks(nodes, nodes')
    ensures HasChain(nodes', n) && ChainOf(nodes', n) == ChainOf(nodes, n)
  {
    var c := ChainOf(nodes, n);
    ChainInNodes(nodes, n, c);
    ChainFrame(nodes, nodes', n, c);
    ChainUnique(nodes', n, c, ChainOf(nodes', n));
  }

  /** The roll-back of try_get_path2. */
  lemma RolledBack2(was: Nodes, names: Names, dots: Dots, held: Held, p1: PathReq, p2: PathReq, mid: Nodes,
                    last: Nodes, x: Hold)
    requires Inv(was, names, dots, held) && HasChain(was, p1.nodeid) && KernelKeeps(was, names, dots, p2, None)
    requires OnlyLocks(was, mid) && HasChain(mid, p2.nodeid)
    requires var c1 := ChainOf(was, p1.nodeid); var r1 := TryPath(was, names, p1, c1);
      r1.Got? && mid == r1.nodes && x == HoldFor(was, p1, c1, WNode(names, p1), None)
    requires var r2 := TryPath(mid, names, p2, ChainOf(mid, p2.nodeid)); r2.Failed? && last == r2.nodes
    ensures
      || OnlyMarked(was, UnlockPath(last, x), WNode(names, p1))
      || OnlyMarked(was, UnlockPath(last, x), WNode(names, p2))
  {
    assert HasChain(was, p2.nodeid);
    SameChain(was, mid, p2.nodeid);
    TryPath2Atomic(was, names, held, p1, ChainOf(was, p1.nodeid), p2, ChainOf(was, p2.nodeid));
  }

  lemma KernelKeepsLocks(nodes: Nodes, nodes': Nodes, names: Names, dots: Dots, p: PathReq)
    requires OnlyLocks(nodes, nodes') && KernelKeeps(nodes, names, dots, p, None)
    ensures KernelKeeps(nodes', names, dots, p, None)
  {
  }

  lemma NowIdle(held: Held, q: seq<Elem>, req: nat)
    requires HoldId(req, First) !in held && HoldId(req, Second) !in held
    requires forall i :: 0 <= i < |q| ==> q[i].req != req
    ensures Idle(held, q, req)
  {
    forall h | h in held ensures h.req != req {
      assert h.slot.First? || h.slot.Second?;
      assert h == HoldId(h.req, First) || h == HoldId(h.req, Second);
    }
  }

  function AfterForget(nodes: Nodes, n: Ino, k: nat): Nodes
    requires n in nodes && k <= nodes[n].nlookup
  {
    nodes[n := nodes[n].(nlookup := nodes[n].nlookup - k)]
  }

  /** What a forget of `k` lookups leaves: fewer lookups or, when none are left, one reference less
      on the node and whatever deletions follow from that. */
  ghost predicate Forgotten(nodes: Nodes, names: Names, nodes': Nodes, names': Names, n: Ino, k: nat) {
    && n in nodes && k <= nodes[n].nlookup
    && var after := AfterForget(nodes, n, k);
       if k < nodes[n].nlookup then nodes' == after && names' == names
       else HasChain(after, n) && (nodes', names') == Release(after, names, n, ChainOf(after, n))
  }

  /** The kernel's side of a forget: it does not give up lookups that a waiting request relies on. */
  ghost predicate MayForget(nodes: Nodes, names: Names, dots: Dots, n: Ino, k: nat, q: seq<Elem>) {
    n in nodes && k <= nodes[n].nlookup && !(nodes[n].nlookup == k && nodes[n].treelock != 0) ==>
      AllElemsKept(AfterForget(nodes, n, k), names, dots, q)
  }

  /** Node `n` has another name, or none; reference counts may differ, nothing else does. */
  ghost predicate Relinked(nodes: Nodes, nodes': Nodes, n: Ino, link: Option<Link>) {
    && nodes'.Keys == nodes.Keys
    && forall m :: m in nodes' ==>
         nodes'[m] == nodes[m].(refctr := nodes'[m].refctr, link := if m == n then link else nodes[m].link)
  }

  /** The node with name `ol` has name `nl` instead, or none if the name could not be copied, and the node
      that had name `nl` has none. */
  ghost predicate Renamed(nodes: Nodes, names: Names, nodes': Nodes, names': Names, ol: Link, nl: Link, copy: bool) {
    && ol in names && ol != nl && nodes'.Keys == nodes.Keys
    && names' == (if copy then (names - {ol})[nl := names[ol]] else names - {ol, nl})
    && forall m :: m in nodes' ==> nodes'[m] == nodes[m].(refctr := nodes'[m].refctr,
         link := if m == names[ol] then (if copy then Some(nl) else None)
                 else if nodes[m].link == Some(nl) then None
                 else nodes[m].link)
  }

  /** Moving a node from one held path to another revives no failed request: its own path was there. */
  lemma MovedFinal(nodes: Nodes, names: Names, nodes': Nodes, names': Names, dots: Dots, held: Held, q: seq<Elem>,
                   n: Ino, l: Link, h1: HoldId, h2: HoldId)
    requires Inv(nodes, names, dots, held) && Inv(nodes', names', dots, held) && FailuresFinal(nodes, held, q)
    requires QueueOk(nodes', names', dots, held, q) && Relinked(nodes, nodes', n, Some(l))
    requires h1 in held && n in nodes && nodes[n].link.Some? && held[h1].target == nodes[n].link.value.parent
    requires held[h1].wnode == Some(n) && h2 in held && held[h2].target == l.parent && h1.req == h2.req
    ensures FailuresFinal(nodes', held, q)
  {
    if Gone(nodes, n) {
      assert HoldOk(nodes, held[h1]);
      GoneAbove(nodes, n);
      GoneOffChain(nodes, held[h1].target, held[h1].target, held[h1].chain);
    }
    forall i | 0 <= i < |q| ensures ErrOk(nodes', q[i]) {
      assert ErrOk(nodes, q[i]) && ElemKept(nodes', names', dots, q[i]);
      ErrStays(nodes, nodes', names', dots, q[i]);
    }
    forall h | h in held ensures WriterNamed(nodes', held, h) {
      assert WriterNamed(nodes, held, h);
      if held[h].wnode == Some(n) {
        WriterExcludes(nodes, held, h1, n, h);
        assert h2.slot.First? || h2.slot.Second?;
        assert h2 == HoldId(h.req, First) || h2 == HoldId(h.req, Second);
      }
    }
  }

  /** The two steps of a rename: what is in the way loses its name, then the node gets it. */
  lemma RenameSteps(nodes: Nodes, names: Names, mid: Nodes, midNames: Names, nodes': Nodes, names': Names,
                    ol: Link, nl: Link, copy: bool)
    requires Tree(nodes, names) && ol in names && ol != nl
    requires Cleared(nodes, names, mid, midNames, if nl in names then Some(names[nl]) else None)
    requires names' == if copy then (midNames - {ol})[nl := names[ol]] else midNames - {ol}
    requires Relinked(mid, nodes', names[ol], if copy then Some(nl) else None)
    ensures Renamed(nodes, names, nodes', names', ol, nl, copy) && nodes'.Keys == nodes.Keys
  {
    assert NameOk(nodes, names, ol) && (nl in names ==> NameOk(nodes, names, nl));
    NamesUnique(nodes, names, nl);
  }

  /** What rename_node finds: the nodes bear the names, and are two. */
  lemma RenameReady(nodes: Nodes, names: Names, dots: Dots, held: Held, ol: Link, nl: Link, h1: HoldId, h2: HoldId)
    requires Inv(nodes, names, dots, held) && ol in names
    requires h1 in held && held[h1].wnode == Some(names[ol]) && h2 in held
    ensures Tree(nodes, names) && names[ol] in nodes && nodes[names[ol]].link == Some(ol)
    ensures nl in names ==> names[nl] in nodes && nodes[names[nl]].link == Some(nl)
    ensures nl in names && h1 != h2 && held[h2].wnode == Some(names[nl]) ==> names[ol] != names[nl]
  {
    assert NameOk(nodes, names, ol);
    if nl in names {
      assert NameOk(nodes, names, nl);
    }
    WriterExcludes(nodes, held, h1, names[ol], h2);
  }

  /** The node, if there is one, has lost its name. */
  ghost predicate Cleared(nodes: Nodes, names: Names, nodes': Nodes, names': Names, n: Option<Ino>) {
    match n
    case None => nodes' == nodes && names' == names
    case Some(m) =>
      && m in nodes && nodes[m].link.Some?
      && names' == names - {nodes[m].link.value} && Relinked(nodes, nodes', m, None)
  }

  lemma OtherName(nodes: Nodes, names: Names, nodes': Nodes, names': Names, n: Option<Ino>, m: Ino)
    requires Cleared(nodes, names, nodes', names', n) && m in nodes && n != Some(m)
    ensures nodes'.Keys == nodes.Keys && nodes'[m].link == nodes[m].link
  {
  }

  lemma NamesUnique(nodes: Nodes, names: Names, l: Link)
    requires Tree(nodes, names)
    ensures forall m :: m in nodes && nodes[m].link == Some(l) ==> l in names && names[l] == m
  {
    forall m | m in nodes && nodes[m].link == Some(l) ensures l in names && names[l] == m {
      assert LinkOk(nodes, names, m);
    }
  }

  /** The parent's reference can be dropped whether the unlinked node is set aside or merely cut. */
  lemma DeletableAside(nodes: Nodes, names: Names, n: Ino, d: seq<Ino>)
    requires n in nodes && nodes[n].link.Some? && n !in d
    requires Chain(Cut(nodes, n), nodes[n].link.value.parent, d)
    requires Deletable(Cut(nodes, n), names - {nodes[n].link.value}, nodes[n].link.value.parent, d)
    ensures Chain(nodes - {n}, nodes[n].link.value.parent, d)
    ensures Deletable(nodes - {n}, names - {nodes[n].link.value}, nodes[n].link.value.parent, d)
  {
    assert Cut(nodes, n) - {n} == nodes - {n};
    DeletableWithout(Cut(nodes, n), names - {nodes[n].link.value}, nodes[n].link.value.parent, d, n);
  }

  /** unhash_name, with the node set aside, does what taking its name away does. */
  lemma UnlinkSteps(nodes: Nodes, names: Names, n: Ino, d: seq<Ino>)
    requires Tree(nodes, names) && n in nodes && nodes[n].link.Some? && n !in d
    requires var p := nodes[n].link.value.parent;
      Chain(nodes, p, d) && Chain(Cut(nodes, n), p, d) && Deletable(Cut(nodes, n), names - {nodes[n].link.value}, p, d)
    ensures var l := nodes[n].link.value;
      && Chain(nodes, n, [n] + d) && l in names && names[l] == n
      && Chain(nodes - {n}, l.parent, d) && Deletable(nodes - {n}, names - {l}, l.parent, d)
    ensures var l := nodes[n].link.value; var r := Release(nodes - {n}, names - {l}, l.parent, d);
      Unlink(nodes, names, n, d) == (r.0[n := nodes[n].(link := None)], r.1)
  {
    var l := nodes[n].link.value;
    assert ([n] + d)[1..] == d;
    assert LinkOk(nodes, names, n);
    DeletableAside(nodes, names, n, d);
    ReleaseAside(nodes - {n}, names - {l}, l.parent, d, n, nodes[n].(link := None));
    assert (nodes - {n})[n := nodes[n].(link := None)] == Cut(nodes, n);
  }

  lemma {:induction false} DeletableWithout(nodes: Nodes, names: Names, p: Ino, d: seq<Ino>, n: Ino)
    requires Chain(nodes, p, d) && n !in d && Deletable(nodes, names, p, d)
    ensures Chain(nodes - {n}, p, d) && Deletable(nodes - {n}, names, p, d)
    decreases |d|
  {
    ChainFrame(nodes, nodes - {n}, p, d);
    if nodes[p].refctr == 1 && nodes[p].link.Some? {
      assert (nodes - {p}) - {n} == (nodes - {n}) - {p};
      DeletableWithout(nodes - {p}, names - {nodes[p].link.value}, nodes[p].link.value.parent, d[1..], n);
    }
  }

  // -------------------------------------------------------------------------
  // One turn of a waiting request

  /** An attempt at a path, along its present chain. */
  ghost function Attempt(nodes: Nodes, names: Names, p: PathReq): TryResult {
    if HasChain(nodes, p.nodeid) then TryPath(nodes, names, p, ChainOf(nodes, p.nodeid)) else Failed(nodes, ENOENT)
  }

  function ErrOf(r: TryResult): Option<Error> {
    if r.Failed? then Some(r.err) else None
  }

  /** What comes of the paths of an element that are not locked yet, the first and then the second. */
  ghost function FirstTurn(nodes: Nodes, names: Names, e: Elem): (Option<Error>, Nodes)
    requires e.PathElem?
  {
    if e.first then (None, nodes) else (ErrOf(Attempt(nodes, names, e.p1)), Attempt(nodes, names, e.p1).nodes)
  }

  ghost function SecondTurn(nodes: Nodes, names: Names, e: Elem): (Option<Error>, Nodes)
    requires e.PathElem?
  {
    if e.second || e.p2.None? then (None, nodes)
    else (ErrOf(Attempt(nodes, names, e.p2.value)), Attempt(nodes, names, e.p2.value).nodes)
  }

  ghost function BothTurns(nodes: Nodes, names: Names, e: Elem): (Option<Error>, Option<Error>)
    requires e.PathElem?
  {
    var t := FirstTurn(nodes, names, e);
    (t.0, SecondTurn(t.1, names, e).0)
  }

  /** What comes of locking two paths, the second with the locks of the first taken. */
  ghost function PairErr(nodes: Nodes, names: Names, p1: PathReq, p2: PathReq): Option<Error> {
    var r := Attempt(nodes, names, p1);
    if r.Failed? then Some(r.err) else ErrOf(Attempt(r.nodes, names, p2))
  }

  lemma TakenNamed(nodes: Nodes, nodes': Nodes, names: Names, held: Held, id: HoldId, x: Hold, p: PathReq)
    requires Tree(nodes, names) && OnlyLocks(nodes, nodes') && id !in held
    requires x.target == p.nodeid && x.wnode == WNode(names, p)
    ensures WritersNamed(nodes, held) ==> WritersNamed(nodes', held) && WritersNamed(nodes', held[id := x])
  {
    if WritersNamed(nodes, held) {
      WritersWith(nodes, names, held, id, x, p);
      WritersLocks(nodes, nodes', held);
      WritersLocks(nodes, nodes', held[id := x]);
    }
  }

  /** The child locked is the one the request wants, if it is there. */
  ghost predicate ChildIs(names: Names, p: PathReq, w: Option<Ino>) {
    forall m: Ino {:trigger Wants(names, p, m)} :: Wants(names, p, m) <==> w == Some(m)
  }

  lemma TryRight(nodes: Nodes, names: Names, p: PathReq, c: seq<Ino>)
    requires Tree(nodes, names) && Chain(nodes, p.nodeid, c)
    ensures TryPath(nodes, names, p, c).Got? ==> RightPath(nodes, names, p, PathText(nodes, c, p.name))
  {
    if TryPath(nodes, names, p, c).Got? && PlainWay(nodes, p.nodeid, p.name) {
      GotLocked(nodes, names, p, c, TryPath(nodes, names, p, c));
      PathLeads(nodes, names, p.nodeid, c, p.name);
    }
  }

  /** What is held of a pair has the right strings. */
  lemma PairRight(nodes: Nodes, names: Names, dots: Dots, held: Held, req: nat, p1: PathReq, p2: PathReq,
                  w1: Option<Ino>, w2: Option<Ino>, path1: string, path2: string)
    requires Inv(nodes, names, dots, held) && PairTaken(held, names, req, p1, p2, w1, w2, path1, path2)
    ensures RightPath(nodes, names, p1, path1) && RightPath(nodes, names, p2, path2)
  {
    HeldRight(nodes, names, held, HoldId(req, First), p1);
    HeldRight(nodes, names, held, HoldId(req, Second), p2);
  }

  lemma TakenRight(nodes: Nodes, names: Names, dots: Dots, held: Held, held': Held, id: HoldId, p: PathReq,
                   w: Option<Ino>, path: string)
    requires Inv(nodes, names, dots, held') && PathTaken(held, held', names, id, p, w, path)
    ensures RightPath(nodes, names, p, path)
  {
    HeldRight(nodes, names, held', id, p);
  }

  lemma RequestedRight(nodes: Nodes, names: Names, dots: Dots, held: Held, e: Elem, path1: string, path2: string)
    requires e.PathElem? && Inv(nodes, names, dots, held) && HoldsRequested(held, e, path1, path2)
    ensures RightPath(nodes, names, e.p1, path1) && (e.p2.Some? ==> RightPath(nodes, names, e.p2.value, path2))
  {
    HeldRight(nodes, names, held, HoldId(e.req, First), e.p1);
    if e.p2.Some? { HeldRight(nodes, names, held, HoldId(e.req, Second), e.p2.value); }
  }

  /** The path is held in addition; these are the child and the string. */
  ghost predicate PathTaken(held: Held, held': Held, names: Names, id: HoldId, p: PathReq, w: Option<Ino>,
                            path: string) {
    && HoldsPath(held', id, p, w) && w == WNode(names, p) && ChildIs(names, p, w) && held'[id].path == path
    && held' == held[id := held'[id]]
  }

  /** Both paths are locked; these are the children and the strings. */
  ghost predicate PairTaken(held: Held, names: Names, req: nat, p1: PathReq, p2: PathReq,
                            w1: Option<Ino>, w2: Option<Ino>, path1: string, path2: string) {
    && HoldsPath(held, HoldId(req, First), p1, w1) && HoldsPath(held, HoldId(req, Second), p2, w2)
    && w1 == WNode(names, p1) && ChildIs(names, p1, w1) && w2 == WNode(names, p2) && ChildIs(names, p2, w2)
    && held[HoldId(req, First)].path == path1 && held[HoldId(req, Second)].path == path2
  }

  /** The nodes after an attempt at two paths that failed: the locks of the first path are given back. */
  ghost function Refused(nodes: Nodes, names: Names, p1: PathReq, p2: PathReq): Nodes {
    var r := Attempt(nodes, names, p1);
    if r.Failed? then r.nodes
    else
      var x := HoldFor(nodes, p1, ChainOf(nodes, p1.nodeid), WNode(names, p1), None);
      UnlockPath(Attempt(r.nodes, names, p2).nodes, x)
  }

  /** Neither is: nothing changed but, at most, a mark on one of the children. */
  ghost predicate PairRefused(nodes: Nodes, nodes': Nodes, names: Names, p1: PathReq, p2: PathReq) {
    && nodes' == Refused(nodes, names, p1, p2)
    && (OnlyMarked(nodes, nodes', WNode(names, p1)) || OnlyMarked(nodes, nodes', WNode(names, p2)))
  }

  lemma FirstOfPair(nodes: Nodes, nodes': Nodes, names: Names, p1: PathReq, p2: PathReq, err: Option<Error>)
    requires err == ErrOf(Attempt(nodes, names, p1)) && nodes' == Attempt(nodes, names, p1).nodes
    requires err.Some? ==> OnlyMarked(nodes, nodes', WNode(names, p1))
    ensures PairErr(nodes, names, p1, p2) == if err.Some? then err else ErrOf(Attempt(nodes', names, p2))
    ensures err.Some? ==> PairRefused(nodes, nodes', names, p1, p2)
  {
  }

  /** A request is done with an error as soon as one of its paths is gone, done without when both are
      locked, and otherwise waits on, keeping one of its paths only at the head of the queue. */
  ghost predicate Outcome(nodes: Nodes, names: Names, qe: Elem, isHead: bool, e: Elem)
    requires qe.PathElem?
  {
    var t := BothTurns(nodes, names, qe);
    && e.PathElem?
    && if Some(ENOENT) in {t.0, t.1} then e.done && e.err == Some(ENOENT)
       else if t.0.None? && t.1.None? then e.done && e.err == None
       else !e.done && (e.first <==> isHead && t.0.None?) && (e.second <==> isHead && t.1.None? && qe.p2.Some?)
  }

  /** The child whose mark a request for two paths leaves behind when it fails: that of the second path
      if the first is gone, that of the first if the second is gone. A request that holds one of its
      paths leaves none. */
  ghost function LeftMark(nodes: Nodes, names: Names, e: Elem): Option<Ino>
    requires e.PathElem?
  {
    var t := BothTurns(nodes, names, e);
    if e.p2.None? then None
    else
      var w1, w2 := WNode(names, e.p1), WNode(names, e.p2.value);
      if t.0 == Some(ENOENT) then
        if !e.second && w2.Some? && Marked(nodes, w2.value) then w2 else None
      else if t.0 == Some(EAGAIN) && t.1 == Some(ENOENT) then
        if w1.Some? && Contended(nodes, w1.value) then w1 else None
      else None
  }

  /** The turn of element i leaves a mark that nobody waits for. */
  ghost predicate LeavesMark(nodes: Nodes, names: Names, q: seq<Elem>, i: nat)
    requires i < |q|
  {
    q[i].PathElem? &&
    var left := LeftMark(nodes, names, q[i]);
    left.Some? && !OthersWait(names, q, i, left.value)
  }

  /** The tree locks after a path has been given back. */
  ghost function UnlockReq(nodes: Nodes, nodeid: Ino, w: Option<Ino>): Nodes {
    if HasChain(nodes, nodeid) then UnBump(SetOptLock(nodes, w, 0), ChainOf(nodes, nodeid)) else nodes
  }

  ghost function UnlockElem(nodes: Nodes, e: Elem): Nodes
    requires e.PathElem?
  {
    var mid := if e.first then UnlockReq(nodes, e.p1.nodeid, e.wnode1) else nodes;
    if e.second && e.p2.Some? then UnlockReq(mid, e.p2.value.nodeid, e.wnode2) else mid
  }

  /** The element after the attempt at its first path, and at its second. */
  ghost function TriedFirst(nodes: Nodes, names: Names, e: Elem): Elem
    requires e.PathElem?
  {
    if e.first || FirstTurn(nodes, names, e).0.Some? then e
    else
      var path := PathText(nodes, ChainOf(nodes, e.p1.nodeid), e.p1.name);
      e.(first := true, wnode1 := WNode(names, e.p1), path1 := path)
  }

  ghost function TriedSecond(nodes: Nodes, names: Names, e: Elem): Elem
    requires e.PathElem?
  {
    if e.second || e.p2.None? || SecondTurn(nodes, names, e).0.Some? then e
    else
      var p := e.p2.value;
      e.(second := true, wnode2 := WNode(names, p), path2 := PathText(nodes, ChainOf(nodes, p.nodeid), p.name))
  }

  /** Both attempts: the error, the nodes and the element. */
  ghost function Tries(nodes: Nodes, names: Names, e: Elem): (r: (Option<Error>, Nodes, Elem))
    requires e.PathElem?
    ensures r.2.PathElem?
  {
    var (err1, n1) := FirstTurn(nodes, names, e);
    var e1 := TriedFirst(nodes, names, e);
    if err1 == Some(ENOENT) then (err1, n1, e1)
    else
      var (err2, n2) := SecondTurn(n1, names, e1);
      (if err2 == Some(ENOENT) || err1.None? then err2 else err1, n2, TriedSecond(n1, names, e1))
  }

  /** The nodes and the element after a turn, as a function of those before. */
  ghost function TurnOf(nodes: Nodes, names: Names, e: Elem, isHead: bool): (Nodes, Elem)
    requires e.PathElem?
  {
    var (err, n, e') := Tries(nodes, names, e);
    if err == Some(ENOENT) then (UnlockElem(n, e'), e'.(first := false, second := false, err := err, done := true))
    else if err.None? then (n, e'.(err := None, done := true))
    else if isHead then (n, e')
    else (UnlockElem(n, e'), e'.(first := false, second := false))
  }

  /** The nodes and the queue after the first k turns of a pass, each in the state the last one left. */
  ghost function Pass(nodes: Nodes, names: Names, q: seq<Elem>, k: nat): (r: (Nodes, seq<Elem>))
    requires k <= |q|
    ensures |r.1| == |q| && forall j :: k <= j < |q| ==> r.1[j] == q[j]
  {
    if k == 0 then (nodes, q)
    else
      var (n, now) := Pass(nodes, names, q, k - 1);
      if q[k - 1].ForgetElem? then (n, now)
      else
        var (n', e) := TurnOf(n, names, q[k - 1], k == 1);
        (n', now[k - 1 := e])
  }

  /** None of the first k turns leaves a mark that nobody waits for. */
  ghost predicate NoneLeavesMark(nodes: Nodes, names: Names, q: seq<Elem>, k: nat)
    requires k <= |q|
  {
    forall j {:trigger Pass(nodes, names, q, j)} :: 0 <= j < k ==>
      LeavesNone(Pass(nodes, names, q, j), names, j)
  }

  ghost predicate LeavesNone(state: (Nodes, seq<Elem>), names: Names, i: nat) {
    i < |state.1| && !LeavesMark(state.0, names, state.1, i)
  }

  /** What the turn of element j comes to. */
  ghost predicate TurnTaken(nodes: Nodes, names: Names, q: seq<Elem>, q': seq<Elem>, j: nat)
    requires j < |q| == |q'|
  {
    if q[j].PathElem? then Outcome(Pass(nodes, names, q, j).0, names, q[j], j == 0, q'[j]) else q'[j] == q[j]
  }

  /** The first k elements had their turn. */
  ghost predicate TurnsTaken(nodes: Nodes, names: Names, q: seq<Elem>, q': seq<Elem>, k: nat) {
    && k <= |q| == |q'|
    && forall j {:trigger TurnTaken(nodes, names, q, q', j)} :: 0 <= j < k ==> TurnTaken(nodes, names, q, q', j)
  }

  lemma OnlyLocksSame(nodes: Nodes)
    ensures OnlyLocks(nodes, nodes)
  {
  }

  lemma ElemKeptLocks(nodes: Nodes, nodes': Nodes, names: Names, dots: Dots, e: Elem)
    requires ElemKept(nodes, names, dots, e) && OnlyLocks(nodes, nodes')
    ensures ElemKept(nodes', names, dots, e)
  {
    ElemKeptFrame(nodes, names, dots, nodes', names, dots, e);
  }

  lemma OthersSame(held: Held, req: nat)
    ensures OthersKept(held, held, req)
  {
  }

  lemma OthersPut(held: Held, id: HoldId, x: Hold)
    ensures OthersKept(held, held[id := x], id.req) && OthersKept(held, held - {id}, id.req)
  {
  }

  lemma OthersTrans(held: Held, held1: Held, held2: Held, req: nat)
    requires OthersKept(held, held1, req) && OthersKept(held1, held2, req)
    ensures OthersKept(held, held2, req)
  {
  }

  lemma IdleSlots(held: Held, q: seq<Elem>, req: nat)
    requires Idle(held, q, req)
    ensures HoldId(req, First) !in held && HoldId(req, Second) !in held
  {
    assert HoldId(req, First).req == req && HoldId(req, Second).req == req;
  }

  /** The queue does not mind that a request outside it got its path, or failed. */
  lemma PathServed(nodes: Nodes, nodes': Nodes, names: Names, dots: Dots, held: Held, held': Held, q: seq<Elem>,
                   req: nat)
    requires QueueOk(nodes, names, dots, held, q) && FailuresFinal(nodes, held, q) && OnlyLocks(nodes, nodes')
    requires Idle(held, q, req) && OthersKept(held, held', req) && WritersNamed(nodes', held')
    ensures QueueOk(nodes', names, dots, held', q) && FailuresFinal(nodes', held', q)
  {
    QueueStays(nodes, nodes', names, dots, held, held', q, req);
    ErrsLocks(nodes, nodes', q);
  }

  lemma FewSame(nodes: Nodes)
    ensures FewerMarks(nodes, nodes)
  {
  }

  lemma FewTrans(n0: Nodes, n1: Nodes, n2: Nodes)
    requires FewerMarks(n1, n2)
    ensures FewerMarks(n0, n1) ==> FewerMarks(n0, n2)
  {
  }

  lemma HoldsSame(held: Held, q: seq<Elem>)
    ensures HoldsOfOthersKept(held, held, q)
  {
  }

  lemma HoldsStep(held: Held, held1: Held, held2: Held, q: seq<Elem>, i: nat)
    requires HoldsOfOthersKept(held, held1, q) && i < |q| && OthersKept(held1, held2, q[i].req)
    ensures HoldsOfOthersKept(held, held2, q)
  {
  }

  ghost predicate FewerMarks(nodes: Nodes, nodes': Nodes) {
    forall n: Ino {:trigger Marked(nodes', n)} :: Marked(nodes', n) ==> Marked(nodes, n)
  }

  lemma StepsFew(n0: Nodes, n1: Nodes, n2: Nodes, w1: Option<Ino>, w2: Option<Ino>, err2: Option<Error>)
    requires MarkStep(n0, n1, w1, None) && MarkStep(n1, n2, w2, err2)
    ensures err2 != Some(EAGAIN) ==> FewerMarks(n0, n2)
  {
  }

  lemma StepFew(nodes: Nodes, nodes': Nodes, w: Option<Ino>, err: Option<Error>)
    requires MarkStep(nodes, nodes', w, err)
    ensures err != Some(EAGAIN) ==> FewerMarks(nodes, nodes')
  {
  }

  /** Where nothing but marks may differ and there is no new mark, nothing differs. */
  lemma NotMarked(nodes: Nodes, nodes': Nodes, names: Names, dots: Dots, held: Held, w1: Option<Ino>, w2: Option<Ino>)
    requires Inv(nodes, names, dots, held) && FewerMarks(nodes, nodes') &&
      (OnlyMarked(nodes, nodes', w1) || OnlyMarked(nodes, nodes', w2))
    ensures nodes' == nodes
  {
    forall n | n in nodes ensures nodes'[n] == nodes[n] {
      assert LockOk(nodes, held, n);
      ReadersBounded(held, n);
      assert MarkedAt(nodes, nodes', w1, n) || MarkedAt(nodes, nodes', w2, n);
      assert Marked(nodes', n) ==> Marked(nodes, n);
    }
  }

  /** A request for one path has been tried: it waits for the mark it made, or made none. */
  lemma AttemptQueued(nodes: Nodes, nodes': Nodes, names: Names, q: seq<Elem>, e: Elem, err: Option<Error>)
    requires e.PathElem? && !e.done && !e.first && MarkStep(nodes, nodes', WNode(names, e.p1), err)
    ensures MarksAwaited(nodes, names, q) ==> MarksAwaited(nodes', names, if err == Some(EAGAIN) then q + [e] else q)
  {
    if MarksAwaited(nodes, names, q) && err == Some(EAGAIN) {
      NewElemMarks(nodes, nodes', names, q, e);
    }
  }

  lemma PairQueued(nodes: Nodes, nodes': Nodes, names: Names, q: seq<Elem>, e: Elem, err: Option<Error>)
    requires MarksAwaited(nodes, names, q) && e.PathElem? && !e.done && !e.first && !e.second && e.p2.Some?
    requires err != Some(EAGAIN) ==> FewerMarks(nodes, nodes')
    requires err == Some(EAGAIN) ==>
      OnlyMarked(nodes, nodes', WNode(names, e.p1)) || OnlyMarked(nodes, nodes', WNode(names, e.p2.value))
    ensures MarksAwaited(nodes', names, if err == Some(EAGAIN) then q + [e] else q)
  {
    if err == Some(EAGAIN) {
      forall n: Ino | Marked(nodes', n) ensures Marked(nodes, n) || Waits(names, e, n) {
        assert MarkedAt(nodes, nodes', WNode(names, e.p1), n) || MarkedAt(nodes, nodes', WNode(names, e.p2.value), n);
      }
      NewElemMarks(nodes, nodes', names, q, e);
    }
  }

  /** A node is off the paths an element holds. */
  ghost predicate HeldAside(nodes: Nodes, e: Elem, n: Ino)
    requires e.PathElem?
  {
    && (e.first ==> HasChain(nodes, e.p1.nodeid) && Aside(ChainOf(nodes, e.p1.nodeid), e.wnode1, n))
    && (e.second ==>
          e.p2.Some? && HasChain(nodes, e.p2.value.nodeid) && Aside(ChainOf(nodes, e.p2.value.nodeid), e.wnode2, n))
  }

  /** Giving an element's paths back removes no mark from a node off them. */
  lemma AsideStays(n0: Nodes, n1: Nodes, n2: Nodes, e: Elem)
    requires e.PathElem? && OnlyLocks(n0, n1) && (e.second ==> e.p2.Some?)
    requires if e.first then
        forall n: Ino ::
          Marked(n0, n) && HasChain(n0, e.p1.nodeid) && Aside(ChainOf(n0, e.p1.nodeid), e.wnode1, n) ==> Marked(n1, n)
      else n1 == n0
    requires if e.second then
        forall n: Ino :: Marked(n1, n) && HasChain(n1, e.p2.value.nodeid) ==>
          Aside(ChainOf(n1, e.p2.value.nodeid), e.wnode2, n) ==> Marked(n2, n)
      else n2 == n1
    ensures forall n: Ino :: Marked(n0, n) && HeldAside(n0, e, n) ==> Marked(n2, n)
  {
    forall n: Ino | Marked(n0, n) && HeldAside(n0, e, n) ensures Marked(n2, n) {
      HeldAsideFrame(n0, n1, e, n);
    }
  }

  /** ... which other tree locks do not change. */
  lemma HeldAsideFrame(nodes: Nodes, nodes': Nodes, e: Elem, n: Ino)
    requires e.PathElem? && HeldAside(nodes, e, n) && OnlyLocks(nodes, nodes')
    ensures HeldAside(nodes', e, n)
  {
    if e.first { SameChain(nodes, nodes', e.p1.nodeid); }
    if e.second { SameChain(nodes, nodes', e.p2.value.nodeid); }
  }

  /** The same for a request for two paths; one that fails for good leaves every tree lock as it was. */
  lemma PairMarks(nodes: Nodes, nodes': Nodes, names: Names, dots: Dots, held: Held, q: seq<Elem>, e: Elem,
                  err: Option<Error>)
    requires Inv(nodes, names, dots, held) && e.PathElem? && !e.done && !e.first && !e.second && e.p2.Some?
    requires err != Some(EAGAIN) ==> FewerMarks(nodes, nodes')
    requires err.Some? ==> PairRefused(nodes, nodes', names, e.p1, e.p2.value)
    ensures err == Some(ENOENT) ==> nodes' == nodes
    ensures MarksAwaited(nodes, names, q) ==> MarksAwaited(nodes', names, if err == Some(EAGAIN) then q + [e] else q)
  {
    if err == Some(ENOENT) {
      NotMarked(nodes, nodes', names, dots, held, WNode(names, e.p1), WNode(names, e.p2.value));
    }
    if MarksAwaited(nodes, names, q) {
      PairQueued(nodes, nodes', names, q, e, err);
    }
  }

  /** Marks only grow. */
  ghost predicate MarksStay(nodes: Nodes, nodes': Nodes) {
    forall n: Ino {:trigger Marked(nodes, n)} :: Marked(nodes, n) ==> Marked(nodes', n)
  }

  /** The marks after both attempts of an element. */
  lemma TryMarks(n0: Nodes, n1: Nodes, n2: Nodes, names: Names, qe: Elem, e: Elem, err1: Option<Error>,
                 err2: Option<Error>)
    requires qe.PathElem? && e.PathElem? && e.p1 == qe.p1 && e.p2 == qe.p2 && e.done == qe.done
    requires qe.done ==> AllLocked(qe) || err1 == Some(ENOENT) || err2 == Some(ENOENT)
    requires (err1, n1) == FirstTurn(n0, names, qe) && (err1 == Some(ENOENT) ==> n1 == n0)
    requires err1 != Some(ENOENT) ==> (err2, n2) == SecondTurn(n1, names, qe) && (err2 == Some(ENOENT) ==> n2 == n1)
    requires if qe.first then n1 == n0 else MarkStep(n0, n1, WNode(names, qe.p1), err1)
    requires if qe.second || qe.p2.None? || err1 == Some(ENOENT) then n2 == n1
             else MarkStep(n1, n2, WNode(names, qe.p2.value), err2)
    requires (err1 == Some(EAGAIN) ==> !e.first) && (err2 == Some(EAGAIN) ==> !e.second)
    ensures MarksStay(n0, n2)
    ensures err1 != Some(ENOENT) && err2 != Some(ENOENT) ==>
      LeftMark(n0, names, qe) == None && MarksPass(n0, n2, names, qe, e, None)
    ensures err1 == Some(ENOENT) || err2 == Some(ENOENT) ==>
      MarksPass(n0, n2, names, qe, e.(err := Some(ENOENT), done := true), LeftMark(n0, names, qe))
  {
    hide Attempt;
  }

  /** A mark without a waiter appears exactly when the turn leaves one, and does not go away by the turn
      of an element that holds nothing. */
  lemma MarksAfterTurn(nodes: Nodes, nodes': Nodes, names: Names, q: seq<Elem>, i: nat, e: Elem)
    requires i < |q| && q[i].PathElem? && (q[i].done ==> Done(e)) && (i > 0 ==> !Partial(q[i]))
    requires SameRequest(q[i], e) && MarksPass(nodes, nodes', names, q[i], e, LeftMark(nodes, names, q[i]))
    requires i > 0 ==> MarksStay(nodes, nodes')
    ensures MarksAwaited(nodes, names, q) ==>
      (MarksAwaited(nodes', names, q[i := e]) <==> !LeavesMark(nodes, names, q, i))
    ensures !MarksAwaited(nodes, names, q) && i > 0 ==> !MarksAwaited(nodes', names, q[i := e])
  {
    hide LeftMark, MarksPass, MarksAwaited;
    if MarksAwaited(nodes, names, q) {
      TurnMarks(nodes, nodes', names, q, i, e, LeftMark(nodes, names, q[i]));
    } else if i > 0 {
      StillUnawaited(nodes, nodes', names, q, i, e);
    }
  }

  /** The turn of one element keeps the queue as it has to be. */
  lemma TurnKeeps(nodes: Nodes, held: Held, nodes': Nodes, held': Held, names: Names, dots: Dots, q: seq<Elem>, i: nat,
                  e: Elem)
    requires QueueOk(nodes, names, dots, held, q) && FailuresFinal(nodes, held, q) && QueueFits(nodes, q)
    requires i < |q| && q[i].PathElem? && SameRequest(q[i], e)
    requires OnlyLocks(nodes, nodes') && OthersKept(held, held', q[i].req) && WritersNamed(nodes', held')
    requires FlagsOk(held', e) && ErrOk(nodes', e) && (i == 0 || !Partial(e))
    requires MarksPass(nodes, nodes', names, q[i], e, LeftMark(nodes, names, q[i])) && (Done(q[i]) ==> Done(e))
    requires i > 0 && (Done(q[i]) || (!q[i].first && !q[i].second)) ==> MarksStay(nodes, nodes')
    ensures QueueOk(nodes', names, dots, held', q[i := e]) && FailuresFinal(nodes', held', q[i := e])
    ensures QueueFits(nodes', q[i := e])
    ensures MarksAwaited(nodes, names, q) ==>
      (MarksAwaited(nodes', names, q[i := e]) <==> !LeavesMark(nodes, names, q, i))
    ensures !MarksAwaited(nodes, names, q) && i > 0 ==> !MarksAwaited(nodes', names, q[i := e])
  {
    hide LeavesMark, LeftMark, MarksPass, MarksStay, MarksAwaited, OthersKept, WritersNamed, Gone;
    assert FlagsOk(held, q[i]);
    QueueMoves(nodes, nodes', names, dots, held, q);
    assert ElemKept(nodes', names, dots, q[i]);
    ReplaceElem(nodes', names, dots, held, held', q, i, e);
    MarksAfterTurn(nodes, nodes', names, q, i, e);
    ErrsLocks(nodes, nodes', q);
    ErrsReplaced(nodes', q, i, e);
    QueueFitsFrame(nodes, nodes', q, q[i := e]);
  }

  /** A whole pass: the nodes and the queue after it, what each turn came to, and the marks. */
  ghost predicate Passed(nodes: Nodes, names: Names, q: seq<Elem>, nodes': Nodes, q': seq<Elem>) {
    && (nodes', q') == Pass(nodes, names, q, |q|)
    && TurnsTaken(nodes, names, q, q', |q|)
    && (MarksAwaited(nodes, names, q) ==>
          (MarksAwaited(nodes', names, q') <==> NoneLeavesMark(nodes, names, q, |q|)))
  }

  lemma PassedMarks(nodes: Nodes, names: Names, q: seq<Elem>, nodes': Nodes, q': seq<Elem>, was: Nodes)
    requires Passed(nodes, names, q, nodes', q') && FewerMarks(was, nodes)
    ensures MarksAwaited(was, names, q) ==>
      (MarksAwaited(nodes', names, q') <==> NoneLeavesMark(nodes, names, q, |q|))
  {
  }

  lemma NobodyWaits(nodes: Nodes, names: Names)
    ensures Passed(nodes, names, [], nodes, [])
    ensures forall held: Held :: HeadWoken(nodes, names, held, [], [])
  {
  }

  /** Where a pass over the queue stands: `q` and `nodes` are the queue and the nodes at its start, and
      those after i turns are as specified. */
  ghost predicate PassOk(nodes: Nodes, names: Names, q: seq<Elem>, nodes': Nodes, now: seq<Elem>, i: nat) {
    && i <= |q| == |now| && Pass(nodes, names, q, i) == (nodes', now)
    && (forall j :: 0 <= j < |q| ==> SameRequest(q[j], now[j]))
    && TurnsTaken(nodes, names, q, now, i)
    && OnlyLocks(nodes, nodes')
    && (MarksAwaited(nodes, names, q) ==> (MarksAwaited(nodes', names, now) <==> NoneLeavesMark(nodes, names, q, i)))
  }

  lemma PassStart(nodes: Nodes, names: Names, q: seq<Elem>)
    ensures PassOk(nodes, names, q, nodes, q, 0)
  {
  }

  lemma PassFacts(nodes: Nodes, names: Names, q: seq<Elem>, nodes': Nodes, now: seq<Elem>, i: nat)
    requires PassOk(nodes, names, q, nodes', now, i)
    ensures i <= |q| == |now| && OnlyLocks(nodes, nodes')
    ensures forall j :: 0 <= j < |q| ==> SameRequest(q[j], now[j])
    ensures forall j :: i <= j < |q| ==> now[j] == q[j]
    ensures i == |q| ==> Passed(nodes, names, q, nodes', now)
  {
  }

  lemma PassStep(nodes: Nodes, names: Names, q: seq<Elem>, nodes1: Nodes, before: seq<Elem>, nodes2: Nodes,
                 after: seq<Elem>, i: nat)
    requires PassOk(nodes, names, q, nodes1, before, i) && i < |q| && |after| == |before|
    requires after == before[i := after[i]] && SameRequest(before[i], after[i]) && OnlyLocks(nodes1, nodes2)
    requires if before[i].PathElem? then Outcome(nodes1, names, before[i], i == 0, after[i]) else nodes2 == nodes1
    requires before[i].PathElem? ==> (nodes2, after[i]) == TurnOf(nodes1, names, before[i], i == 0)
    requires MarksAwaited(nodes1, names, before) ==>
      (MarksAwaited(nodes2, names, after) <==> !LeavesMark(nodes1, names, before, i))
    requires !MarksAwaited(nodes1, names, before) && i > 0 ==> !MarksAwaited(nodes2, names, after)
    ensures PassOk(nodes, names, q, nodes2, after, i + 1)
  {
    hide Outcome, MarksAwaited, LeavesMark, OnlyLocks, TurnOf;
    assert before[i] == q[i];
    OnlyLocksTrans(nodes, nodes1, nodes2);
    assert before[i].ForgetElem? ==> after == before;
    assert Pass(nodes, names, q, i + 1) == (nodes2, after);
    forall j | 0 <= j < i + 1 ensures TurnTaken(nodes, names, q, after, j) {
      if j < i { assert TurnTaken(nodes, names, q, before, j); }
    }
    OneMoreMark(nodes, names, q, i);
  }

  lemma OneMoreMark(nodes: Nodes, names: Names, q: seq<Elem>, i: nat)
    requires i < |q|
    ensures NoneLeavesMark(nodes, names, q, i + 1) <==>
      NoneLeavesMark(nodes, names, q, i) && LeavesNone(Pass(nodes, names, q, i), names, i)
  {
  }

  lemma BothAside(n0: Nodes, n1: Nodes, n2: Nodes, qe: Elem, e: Elem)
    requires qe.PathElem? && e.PathElem? && e.p1 == qe.p1 && e.p2 == qe.p2 && MarksStay(n0, n1)
    requires OnlyLocks(n0, n1) && OnlyLocks(n1, n2)
    requires e.first ==> HasChain(n0, e.p1.nodeid) && MarksAside(n0, ChainOf(n0, e.p1.nodeid), e.wnode1)
    requires e.second ==>
      e.p2.Some? && HasChain(n1, e.p2.value.nodeid) && MarksAside(n1, ChainOf(n1, e.p2.value.nodeid), e.wnode2)
    ensures forall n: Ino :: Marked(n0, n) ==> HeldAside(n2, e, n)
  {
    OnlyLocksTrans(n0, n1, n2);
    if e.first { SameChain(n0, n2, e.p1.nodeid); }
    if e.second { SameChain(n1, n2, e.p2.value.nodeid); }
  }

  /** What both attempts come to: the errors, the marks, and that no old mark lies on a path just taken. */
  ghost predicate Tried(n0: Nodes, n2: Nodes, names: Names, qe: Elem, e: Elem, err: Option<Error>)
    requires qe.PathElem? && e.PathElem?
  {
    var t, left := BothTurns(n0, names, qe), LeftMark(n0, names, qe);
    && (err == Some(ENOENT) <==> Some(ENOENT) in {t.0, t.1}) && (err.None? <==> t.0.None? && t.1.None?)
    && (err != Some(ENOENT) ==>
          && (e.first <==> t.0.None?) && (e.second <==> t.1.None? && qe.p2.Some?) && (AllLocked(e) <==> err.None?)
          && left == None && MarksPass(n0, n2, names, qe, e, None))
    && (err == Some(ENOENT) ==>
          && MarksPass(n0, n2, names, qe, e.(err := err, done := true), left)
          && (left.Some? ==> !e.first && !e.second))
    && MarksStay(n0, n2)
    && (!qe.first && !qe.second ==> forall n: Ino :: Marked(n0, n) ==> HeldAside(n2, e, n))
  }

  lemma TriedBoth(n0: Nodes, held0: Held, n1: Nodes, held1: Held, n2: Nodes, names: Names, dots: Dots, qe: Elem,
                  e: Elem, err1: Option<Error>, err2: Option<Error>)
    requires Inv(n0, names, dots, held0) && Inv(n1, names, dots, held1) && OnlyLocks(n0, n1) && OnlyLocks(n1, n2)
    requires qe.PathElem? && ElemKept(n0, names, dots, qe) && (qe.second ==> qe.p2.Some?)
    requires qe.done ==> AllLocked(qe) || err1 == Some(ENOENT) || err2 == Some(ENOENT)
    requires e.PathElem? && e.p1 == qe.p1 && e.p2 == qe.p2 && e.done == qe.done
    requires (err1, n1) == FirstTurn(n0, names, qe) && (e.first <==> err1.None?)
    requires if err1 == Some(ENOENT) then n2 == n1 && e.second == qe.second
             else
               && (err2, n2) == SecondTurn(n1, names, qe)
               && (e.second || e.p2.None? <==> err2.None?) && (e.second ==> e.p2.Some?)
    requires (!qe.first && e.first ==> e.wnode1 == WNode(names, qe.p1)) &&
      (!qe.second && e.second ==> e.wnode2 == WNode(names, qe.p2.value))
    ensures Tried(n0, n2, names, qe, e,
                  if err1 == Some(ENOENT) then err1 else if err2 == Some(ENOENT) || err1.None? then err2 else err1)
  {
    hide MarksPass, MarkStep, LeftMark, HeldAside;
    AttemptFacts(n0, names, dots, held0, qe.p1);
    if err1 != Some(ENOENT) && qe.p2.Some? {
      AttemptFacts(n1, names, dots, held1, qe.p2.value);
    }
    TryMarks(n0, n1, n2, names, qe, e, err1, if err1 == Some(ENOENT) then None else err2);
    LeftHoldsNothing(n0, names, qe);
    if !qe.first && !qe.second {
      StepStays(n0, n1, WNode(names, qe.p1), err1);
      BothAside(n0, n1, n2, qe, e);
    }
  }

  /** A path is gone exactly if an attempt at it fails for good. */
  lemma AttemptGone(nodes: Nodes, names: Names, dots: Dots, held: Held, p: PathReq)
    requires Inv(nodes, names, dots, held) && WritersNamed(nodes, held) && p.nodeid in nodes
    ensures ErrOf(Attempt(nodes, names, p)) == Some(ENOENT) <==> Gone(nodes, p.nodeid)
  {
    var c := ChainOf(nodes, p.nodeid);
    FailsGone(nodes, p.nodeid, c);
    if Gone(nodes, p.nodeid) {
      GoneFails(nodes, names, held, p, c);
    }
  }

  /** What an attempt at a path comes to: a name is gone, somebody is in the way, or the path is granted. */
  ghost function Verdict(nodes: Nodes, names: Names, held: Held, p: PathReq): Option<Error> {
    if Gone(nodes, p.nodeid) then Some(ENOENT) else if Free(nodes, names, held, p) then None else Some(EAGAIN)
  }

  /** The same for two paths, of which the first is tried first. */
  ghost function PairVerdict(nodes: Nodes, names: Names, held: Held, p1: PathReq, p2: PathReq): Option<Error> {
    if Verdict(nodes, names, held, p1).Some? then Verdict(nodes, names, held, p1)
    else if Gone(nodes, p2.nodeid) then Some(ENOENT)
    else if Free(nodes, names, held, p2) && !Clash(nodes, names, p1, p2) then None
    else Some(EAGAIN)
  }

  lemma AttemptGranted(nodes: Nodes, names: Names, dots: Dots, held: Held, p: PathReq)
    requires Inv(nodes, names, dots, held) && WritersNamed(nodes, held) && p.nodeid in nodes
    ensures ErrOf(Attempt(nodes, names, p)) == Verdict(nodes, names, held, p)
  {
    Granted(nodes, names, held, p, ChainOf(nodes, p.nodeid));
  }

  /** With the first path taken, the second is free exactly if it was free before and they do not clash. */
  lemma FreeAfter(nodes: Nodes, names: Names, held: Held, p1: PathReq, nodes': Nodes, id: HoldId, x: Hold, p2: PathReq)
    requires Tree(nodes, names) && OnlyLocks(nodes, nodes') && id !in held
    requires MarkStep(nodes, nodes', WNode(names, p1), None)
    requires Chain(nodes, p1.nodeid, x.chain) && x.wnode == WNode(names, p1)
    ensures Free(nodes', names, held[id := x], p2) <==>
      Free(nodes, names, held, p2) && !Clash(nodes, names, p1, p2)
  {
    var held' := held[id := x];
    forall m ensures OnWay(nodes', p2.nodeid, m) <==> OnWay(nodes, p2.nodeid, m) {
      WayLocks(nodes, nodes', p2.nodeid, m);
      WayLocks(nodes', nodes, p2.nodeid, m);
    }
    forall m ensures WriteHeld(held', m) <==> WriteHeld(held, m) || Wants(names, p1, m) {
      MoreHeld(held, id, x, m);
    }
    forall m | m != ROOT
      ensures Involved(held', m) <==> Involved(held, m) || Wants(names, p1, m) || OnWay(nodes, p1.nodeid, m)
    {
      MoreHeld(held, id, x, m);
      OnWayIs(nodes, p1.nodeid, x.chain, m);
    }
    forall m | Wants(names, p2, m) ensures m != ROOT {
      assert NameOk(nodes, names, Link(p2.nodeid, p2.name.value));
    }
  }

  lemma WayLocks(nodes: Nodes, nodes': Nodes, n: Ino, m: Ino)
    requires OnlyLocks(nodes, nodes')
    ensures OnWay(nodes, n, m) ==> OnWay(nodes', n, m)
  {
    if OnWay(nodes, n, m) {
      var c :| Chain(nodes, n, c) && m in c;
      ChainFrame(nodes, nodes', n, c);
    }
  }

  lemma MoreHeld(held: Held, id: HoldId, x: Hold, m: Ino)
    requires id !in held
    ensures WriteHeld(held[id := x], m) <==> WriteHeld(held, m) || x.wnode == Some(m)
    ensures Involved(held[id := x], m) <==> Involved(held, m) || x.wnode == Some(m) || m in x.chain
  {
    var held' := held[id := x];
    assert held'[id] == x;
    if WriteHeld(held, m) {
      var h :| h in held && held[h].wnode == Some(m);
      assert h in held' && held'[h].wnode == Some(m);
    }
    if Involved(held, m) {
      var h :| h in held && (held[h].wnode == Some(m) || m in held[h].chain);
      assert h in held' && held'[h] == held[h];
    }
  }

  lemma PairGranted(nodes: Nodes, names: Names, dots: Dots, held: Held, p1: PathReq, p2: PathReq, id: HoldId)
    requires Inv(nodes, names, dots, held) && WritersNamed(nodes, held) && p1.nodeid in nodes && p2.nodeid in nodes
    requires id !in held && |held| < MAX_HOLDS
    requires KernelKeeps(nodes, names, dots, p1, None)
    ensures PairErr(nodes, names, p1, p2) == PairVerdict(nodes, names, held, p1, p2)
  {
    AttemptGranted(nodes, names, dots, held, p1);
    var c := ChainOf(nodes, p1.nodeid);
    var r := TryPath(nodes, names, p1, c);
    if r.Got? {
      var x := HoldFor(nodes, p1, c, WNode(names, p1), None);
      GotInv(nodes, names, dots, held, p1, c, r, id, None);
      TryPathOnlyLocks(nodes, names, p1, c);
      TakenNamed(nodes, r.nodes, names, held, id, x, p1);
      AttemptMarks(nodes, names, held, p1, c);
      AttemptGranted(r.nodes, names, dots, held[id := x], p2);
      FreeAfter(nodes, names, held, p1, r.nodes, id, x, p2);
      GoneLocks(nodes, r.nodes, p2.nodeid);
      GoneLocks(r.nodes, nodes, p2.nodeid);
    }
  }

  /** Trying again changes nothing for a request that is done. */
  lemma Settled(n0: Nodes, held0: Held, n1: Nodes, held1: Held, n2: Nodes, names: Names, dots: Dots, qe: Elem,
                err1: Option<Error>, err2: Option<Error>)
    requires Inv(n0, names, dots, held0) && Inv(n1, names, dots, held1) && OnlyLocks(n0, n1) && OnlyLocks(n1, n2)
    requires WritersNamed(n0, held0) && WritersNamed(n1, held1)
    requires qe.PathElem? && FlagsOk(held0, qe) && ElemKept(n0, names, dots, qe) && ErrOk(n0, qe)
    requires (err1, n1) == FirstTurn(n0, names, qe)
    requires if err1 == Some(ENOENT) then err2 == None else (err2, n2) == SecondTurn(n1, names, qe)
    ensures err1 == Some(ENOENT) || err2 == Some(ENOENT) ==> WantsGone(n2, qe)
    ensures qe.done && qe.err.Some? ==> err1 == Some(ENOENT) || err2 == Some(ENOENT)
    ensures qe.done && qe.err.None? ==> AllLocked(qe) && err1.None? && err2.None?
  {
    hide Inv, WritersNamed, Gone, Attempt;
    AttemptGone(n0, names, dots, held0, qe.p1);
    OnlyLocksTrans(n0, n1, n2);
    GoneLocks(n0, n2, qe.p1.nodeid);
    if qe.p2.Some? {
      AttemptGone(n1, names, dots, held1, qe.p2.value);
      GoneLocks(n0, n1, qe.p2.value.nodeid);
      GoneLocks(n1, n2, qe.p2.value.nodeid);
    }
  }

  lemma StepStays(nodes: Nodes, nodes': Nodes, w: Option<Ino>, err: Option<Error>)
    requires MarkStep(nodes, nodes', w, err)
    ensures MarksStay(nodes, nodes')
  {
  }

  lemma LeftHoldsNothing(nodes: Nodes, names: Names, e: Elem)
    requires e.PathElem?
    ensures LeftMark(nodes, names, e).Some? ==> !e.first && !e.second && BothTurns(nodes, names, e).0.Some?
  {
  }

  lemma AttemptFacts(nodes: Nodes, names: Names, dots: Dots, held: Held, p: PathReq)
    requires Inv(nodes, names, dots, held) && p.nodeid in nodes
    ensures HasChain(nodes, p.nodeid)
    ensures var r := Attempt(nodes, names, p);
      && MarkStep(nodes, r.nodes, WNode(names, p), ErrOf(r)) && (ErrOf(r) == Some(ENOENT) ==> r.nodes == nodes)
      && (r.Got? ==> MarksAside(nodes, ChainOf(nodes, p.nodeid), WNode(names, p)))
  {
    AttemptMarks(nodes, names, held, p, ChainOf(nodes, p.nodeid));
  }

  lemma UnlockedMarks(n0: Nodes, n2: Nodes, n3: Nodes, names: Names, qe: Elem, e: Elem, e': Elem, left: Option<Ino>)
    requires MarksPass(n0, n2, names, qe, e, left) && FewerMarks(n2, n3) && (left.Some? ==> n3 == n2)
    requires e.PathElem? && e' == e.(first := false, second := false)
    requires left.Some? ==> e.done
    ensures MarksPass(n0, n3, names, qe, e', left)
  {
  }

  lemma FinishedMarks(n0: Nodes, n2: Nodes, names: Names, qe: Elem, e: Elem, e': Elem)
    requires MarksPass(n0, n2, names, qe, e, None) && AllLocked(e) && e' == e.(err := None, done := true)
    ensures MarksPass(n0, n2, names, qe, e', None)
  {
  }

  // -------------------------------------------------------------------------
  // What becomes of a request that is woken, in terms of what is held

  /** Nothing is in the way of the paths the request does not hold yet, the request itself included. */
  ghost predicate FreeFor(nodes: Nodes, names: Names, held: Held, e: Elem)
    requires e.PathElem?
  {
    && (!e.first ==> Free(nodes, names, held, e.p1))
    && (e.p2.Some? && !e.second ==> Free(nodes, names, held, e.p2.value))
    && (e.p2.Some? && !e.first && !e.second ==> !Clash(nodes, names, e.p1, e.p2.value))
  }

  /** It fails if a name is gone, gets its paths if they are free, and otherwise waits on; a partial
      result is kept at the head of the queue only. */
  ghost predicate Woken(nodes: Nodes, names: Names, held: Held, qe: Elem, isHead: bool, e: Elem)
    requires qe.PathElem?
  {
    && e.PathElem?
    && if WantsGone(nodes, qe) then e.done && e.err == Some(ENOENT)
       else if FreeFor(nodes, names, held, qe) then e.done && e.err == None
       else !e.done && (!isHead ==> !e.first && !e.second)
  }

  /** The head of the queue has its turn first, while nobody else has taken anything. */
  ghost predicate HeadWoken(nodes: Nodes, names: Names, held: Held, q: seq<Elem>, q': seq<Elem>) {
    q != [] && q[0].PathElem? ==> q' != [] && Woken(nodes, names, held, q[0], true, q'[0])
  }

  lemma HeldNotGone(nodes: Nodes, held: Held, h: HoldId)
    requires LocksOk(nodes, held) && h in held
    ensures !Gone(nodes, held[h].target)
  {
    assert HoldOk(nodes, held[h]);
    if Gone(nodes, held[h].target) {
      var c :| Chain(nodes, held[h].target, c) && c[|c| - 1] != ROOT;
      ChainUnique(nodes, held[h].target, c, held[h].chain);
    }
  }

  /** The second attempt of a turn whose first was not successful, or not needed. */
  lemma SecondGranted(nodes: Nodes, names: Names, dots: Dots, held: Held, e: Elem)
    requires Inv(nodes, names, dots, held) && WritersNamed(nodes, held)
    requires e.PathElem? && FlagsOk(held, e) && ElemKept(nodes, names, dots, e)
    ensures SecondTurn(nodes, names, e).0 ==
      if e.p2.Some? && !e.second then Verdict(nodes, names, held, e.p2.value) else None
    ensures e.second ==> !Gone(nodes, e.p2.value.nodeid)
    ensures e.first ==> !Gone(nodes, e.p1.nodeid)
  {
    hide Verdict, Attempt, Gone, Free, WritersNamed;
    if e.second { HeldNotGone(nodes, held, HoldId(e.req, Second)); }
    if e.first { HeldNotGone(nodes, held, HoldId(e.req, First)); }
    if e.p2.Some? { AttemptGranted(nodes, names, dots, held, e.p2.value); }
  }

  /** A refused first attempt leaves the second path as gone as it was. */
  lemma SecondAfterRefusal(nodes: Nodes, names: Names, dots: Dots, held: Held, e: Elem)
    requires Inv(nodes, names, dots, held) && WritersNamed(nodes, held)
    requires e.PathElem? && FlagsOk(held, e) && ElemKept(nodes, names, dots, e)
    requires !e.first && Attempt(nodes, names, e.p1).Failed?
    ensures SecondTurn(Attempt(nodes, names, e.p1).nodes, names, e).0 == Some(ENOENT) <==>
      e.p2.Some? && Gone(nodes, e.p2.value.nodeid)
  {
    var c := ChainOf(nodes, e.p1.nodeid);
    AttemptFacts(nodes, names, dots, held, e.p1);
    var n1 := Attempt(nodes, names, e.p1).nodes;
    TryPathFailed(nodes, names, e.p1, c);
    TryPathOnlyLocks(nodes, names, e.p1, c);
    MarkInv(nodes, n1, names, dots, held, WNode(names, e.p1));
    WritersLocks(nodes, n1, held);
    if e.second { HeldNotGone(nodes, held, HoldId(e.req, Second)); }
    if e.p2.Some? {
      assert e.p2.value.nodeid in n1;
      AttemptGone(n1, names, dots, held, e.p2.value);
      GoneLocks(nodes, n1, e.p2.value.nodeid);
      GoneLocks(n1, nodes, e.p2.value.nodeid);
    }
  }

  /** ... and a granted one leaves it free unless the two requests clash. */
  lemma SecondAfterGrant(nodes: Nodes, names: Names, dots: Dots, held: Held, e: Elem)
    requires Inv(nodes, names, dots, held) && WritersNamed(nodes, held) && |held| < MAX_HOLDS
    requires e.PathElem? && FlagsOk(held, e) && ElemKept(nodes, names, dots, e)
    requires !e.first && !e.second && e.p2.Some? && Attempt(nodes, names, e.p1).Got?
    requires KernelKeeps(nodes, names, dots, e.p1, e.dot)
    ensures var second := SecondTurn(Attempt(nodes, names, e.p1).nodes, names, e).0;
      && (second == Some(ENOENT) <==> Gone(nodes, e.p2.value.nodeid))
      && (second == None <==>
            && !Gone(nodes, e.p2.value.nodeid)
            && Free(nodes, names, held, e.p2.value) && !Clash(nodes, names, e.p1, e.p2.value))
  {
    hide Clash, Free, Gone, WritersNamed;
    var id, c := HoldId(e.req, First), ChainOf(nodes, e.p1.nodeid);
    var r, x := TryPath(nodes, names, e.p1, c), HoldFor(nodes, e.p1, c, WNode(names, e.p1), e.dot);
    AttemptFacts(nodes, names, dots, held, e.p1);
    GotInv(nodes, names, dots, held, e.p1, c, r, id, e.dot);
    TryPathOnlyLocks(nodes, names, e.p1, c);
    TakenNamed(nodes, r.nodes, names, held, id, x, e.p1);
    AttemptGranted(r.nodes, names, dots, held[id := x], e.p2.value);
    FreeAfter(nodes, names, held, e.p1, r.nodes, id, x, e.p2.value);
    GoneLocks(nodes, r.nodes, e.p2.value.nodeid);
    GoneLocks(r.nodes, nodes, e.p2.value.nodeid);
  }

  /** The outcome of a turn, whatever the order of the attempts. */
  lemma OutcomeIs(nodes: Nodes, names: Names, dots: Dots, held: Held, qe: Elem, isHead: bool, e: Elem)
    requires Inv(nodes, names, dots, held) && WritersNamed(nodes, held) && |held| < MAX_HOLDS
    requires qe.PathElem? && FlagsOk(held, qe) && ElemKept(nodes, names, dots, qe)
    requires Outcome(nodes, names, qe, isHead, e)
    ensures Woken(nodes, names, held, qe, isHead, e)
  {
    hide Attempt, Gone, Free, Clash, WritersNamed;
    SecondGranted(nodes, names, dots, held, qe);
    if !qe.first {
      AttemptGranted(nodes, names, dots, held, qe.p1);
      if Attempt(nodes, names, qe.p1).Failed? {
        SecondAfterRefusal(nodes, names, dots, held, qe);
      } else if qe.p2.Some? && !qe.second {
        SecondAfterGrant(nodes, names, dots, held, qe);
      }
    }
  }

  /** Once nobody holds anything, the request at the head of the queue does not wait any longer,
      unless its own two paths exclude each other. */
  lemma HeadServed(nodes: Nodes, names: Names, dots: Dots, qe: Elem, e: Elem)
    requires Inv(nodes, names, dots, map[]) && qe.PathElem? && FlagsOk(map[], qe)
    requires qe.p2.Some? ==> !Clash(nodes, names, qe.p1, qe.p2.value)
    requires Woken(nodes, names, map[], qe, true, e)
    ensures e.done && (e.err == None <==> !WantsGone(nodes, qe))
  {
    NobodyHolds(nodes, names, dots, qe.p1);
    if qe.p2.Some? { NobodyHolds(nodes, names, dots, qe.p2.value); }
  }

  lemma HeadFirst(nodes: Nodes, names: Names, dots: Dots, held: Held, q: seq<Elem>, nodes': Nodes, q': seq<Elem>)
    requires Inv(nodes, names, dots, held) && FailuresFinal(nodes, held, q) && QueueOk(nodes, names, dots, held, q)
    requires |held| + 2 * |q| <= MAX_HOLDS && |q'| == |q| && Passed(nodes, names, q, nodes', q')
    ensures HeadWoken(nodes, names, held, q, q')
  {
    hide Inv, WritersNamed, Outcome, Woken, MarksAwaited;
    if q != [] && q[0].PathElem? {
      assert FlagsOk(held, q[0]) && ElemKept(nodes, names, dots, q[0]);
      assert TurnTaken(nodes, names, q, q', 0);
      OutcomeIs(nodes, names, dots, held, q[0], true, q'[0]);
    }
  }

  lemma NobodyHolds(nodes: Nodes, names: Names, dots: Dots, p: PathReq)
    requires Inv(nodes, names, dots, map[])
    ensures Free(nodes, names, map[], p)
  {
    forall m: Ino ensures !Marked(nodes, m) {
      assert Readers(map[], m) == {} && Writers(map[], m) == {};
      assert m in nodes ==> LockOk(nodes, map[], m);
    }
  }

  // -------------------------------------------------------------------------
  // Node ids

  ghost predicate Known(issued: seq<nat>, n: Ino, gen: nat) {
    exists i {:trigger issued[i]} :: 0 <= i < |issued| && Pair(issued[i]) == (n, gen)
  }

  ghost predicate AllKnown(nodes: Nodes, generations: map<Ino, nat>, issued: seq<nat>) {
    forall n :: n in nodes && n != ROOT ==> n in generations && Known(issued, n, generations[n])
  }

  /** Node `n` and generation `gen` are what next_id gives out next: the first usable id after the
      last one, and a pair never given out before. */
  ghost predicate Issued(pos: nat, issued: seq<nat>, live: set<nat>, pos': nat, issued': seq<nat>, n: Ino, gen: nat) {
    && pos < pos' && issued' == issued + [pos'] && Pair(pos') == (n, gen)
    && Usable(n, live) && (forall p :: pos < p < pos' ==> !Usable(p % WRAP, live))
    && (pos' < WRAP * WRAP ==> !Known(issued, n, gen))
  }

  ghost predicate NodeAdded(nodes: Nodes, nodes': Nodes, names: Names, names': Names, n: Ino, l: Link) {
    n !in nodes && l.parent in nodes && nodes' == AddNode(nodes, n, l) && names' == names[l := n]
  }

  lemma NewNodeAdded(nodes: Nodes, names: Names, n: Ino, l: Link)
    requires n !in nodes && l.parent in nodes
    ensures var linked := LinkIn(nodes[n := Node(None, 0, 0, 0)], n, l);
      && linked[n := IncLookup(linked[n])] == AddNode(nodes, n, l) && AddNode(nodes, n, l)[n] == Node(Some(l), 1, 1, 0)
      && NodeAdded(nodes, AddNode(nodes, n, l), names, names[l := n], n, l)
  {
  }

  lemma LinkInKeys(nodes: Nodes, n: Ino, l: Link)
    requires n in nodes && l.parent in nodes && n != l.parent
    ensures LinkIn(nodes, n, l).Keys == nodes.Keys
  {
  }

  lemma Entered(nodes: Nodes, names: Names, nodes': Nodes, names': Names, dots: Dots, held: Held, q: seq<Elem>,
                n: Ino, l: Link, generations: map<Ino, nat>, issued: seq<nat>)
    requires Inv(nodes, names, dots, held) && QueueOk(nodes, names, dots, held, q) && FailuresFinal(nodes, held, q)
    requires NodeAdded(nodes, nodes', names, names', n, l) && l !in names
    requires AllKnown(nodes, generations, issued) && n in generations && Known(issued, n, generations[n])
    ensures Inv(nodes', names', dots, held) && QueueOk(nodes', names', dots, held, q) && FailuresFinal(nodes', held, q)
    ensures MarksAwaited(nodes, names, q) ==> MarksAwaited(nodes', names', q)
    ensures AllKnown(nodes', generations, issued) && n in nodes' && nodes'[n] == Node(Some(l), 1, 1, 0)
    ensures nodes'.Keys == nodes.Keys + {n} && forall m :: m in nodes ==> nodes'[m].nlookup == nodes[m].nlookup
  {
    hide Inv, QueueOk, FailuresFinal, MarksAwaited, Known;
    AddNodeInv(nodes, names, dots, held, n, l);
    AddedKeys(nodes, n, l);
    AddedUnmoved(nodes, names, nodes', names', dots, held, q, n, l);
  }

  /** A new node is nothing to a waiting request. */
  lemma AddedUnmoved(nodes: Nodes, names: Names, nodes': Nodes, names': Names, dots: Dots, held: Held, q: seq<Elem>,
                     n: Ino, l: Link)
    requires Inv(nodes, names, dots, held) && Inv(nodes', names', dots, held) && QueueOk(nodes, names, dots, held, q)
    requires NodeAdded(nodes, nodes', names, names', n, l) && l !in names && FailuresFinal(nodes, held, q)
    ensures QueueOk(nodes', names', dots, held, q) && FailuresFinal(nodes', held, q)
    ensures MarksAwaited(nodes, names, q) ==> MarksAwaited(nodes', names', q)
  {
    QueueUnmoved(nodes, names, dots, nodes', names', dots, held, q);
  }

  lemma AddedKeys(nodes: Nodes, n: Ino, l: Link)
    requires n !in nodes && l.parent in nodes
    ensures AddNode(nodes, n, l).Keys == nodes.Keys + {n} && AddNode(nodes, n, l)[n] == Node(Some(l), 1, 1, 0)
    ensures forall m :: m in nodes ==> AddNode(nodes, n, l)[m].nlookup == nodes[m].nlookup
  {
  }

  /** What find_node finds is a node. */
  lemma Found(nodes: Nodes, names: Names, dots: Dots, held: Held, parent: Ino, name: Option<string>)
    requires Inv(nodes, names, dots, held) && parent in nodes
    ensures name.Some? && Lookup(names, parent, name.value).Some? ==> Lookup(names, parent, name.value).value in nodes
  {
    assert name.Some? && Link(parent, name.value) in names ==> NameOk(nodes, names, Link(parent, name.value));
  }

  ghost predicate NamesOnlyGo(nodes: Nodes, nodes': Nodes) {
    forall m :: m in nodes && m in nodes' ==> nodes'[m].link == nodes[m].link || nodes'[m].link == None
  }

  /** Lookups, references and nodes that are added, and names that unmarked nodes lose or get, are nothing
      to a waiting request. */
  lemma QueueUnmoved(nodes: Nodes, names: Names, dots: Dots, nodes': Nodes, names': Names, dots': Dots, held: Held,
                     q: seq<Elem>)
    requires QueueOk(nodes, names, dots, held, q) && Inv(nodes, names, dots, held) && Inv(nodes', names', dots', held)
    requires nodes.Keys <= nodes'.Keys && forall r :: r in dots ==> r in dots' && dots'[r] == dots[r]
    requires forall n :: n in nodes ==> nodes'[n].treelock == nodes[n].treelock && nodes'[n].nlookup >= nodes[n].nlookup
    requires forall n :: Marked(nodes, n) ==> nodes'[n].link == nodes[n].link
    requires forall n :: n in nodes' && n !in nodes ==> nodes'[n].treelock == 0
    requires forall l :: l in names' && !(l in names && names[l] == names'[l]) ==>
      names'[l] in nodes' && nodes'[names'[l]].nlookup > 0
    ensures QueueOk(nodes', names', dots', held, q)
    ensures MarksAwaited(nodes, names, q) ==> MarksAwaited(nodes', names', q)
    ensures FailuresFinal(nodes, held, q) && NamesOnlyGo(nodes, nodes') ==> FailuresFinal(nodes', held, q)
  {
    AllElemsFrame(nodes, names, dots, nodes', names', dots', q);
    if FailuresFinal(nodes, held, q) && NamesOnlyGo(nodes, nodes') {
      FailuresStay(nodes, nodes', names', dots', held, q);
    }
    if MarksAwaited(nodes, names, q) {
      TreeMarks(nodes, names, nodes', names', q);
    }
  }

  lemma KnownStill(issued: seq<nat>, pos: nat, n: Ino, gen: nat)
    requires Known(issued, n, gen)
    ensures Known(issued + [pos], n, gen)
  {
    var i :| 0 <= i < |issued| && Pair(issued[i]) == (n, gen);
    assert (issued + [pos])[i] == issued[i];
  }

  lemma RootInv(root: Nodes)
    requires root == map[ROOT := Node(None, 1, 1, 0)]
    ensures Inv(root, map[], map[], map[]) && QueueOk(root, map[], map[], map[], [])
    ensures FailuresFinal(root, map[], []) && MarksAwaited(root, map[], [])
  {
    assert Chain(root, ROOT, [ROOT]);
    assert LinkOk(root, map[], ROOT);
    assert ChildLinks(map[], ROOT) == {} && DotsOn(map[], ROOT) == {};
    assert CountOk(root, map[], map[], ROOT, None);
    assert Readers(map[], ROOT) == {} && Writers(map[], ROOT) == {};
    assert LockOk(root, map[], ROOT);
  }

  /** What taking a name away under its write lock leaves in place. */
  lemma UnlinkAll(nodes: Nodes, names: Names, dots: Dots, held: Held, q: seq<Elem>, n: Ino, h: HoldId, hp: HoldId)
    returns (d: seq<Ino>)
    requires Inv(nodes, names, dots, held) && QueueOk(nodes, names, dots, held, q) && FailuresFinal(nodes, held, q)
    requires n in nodes && nodes[n].link.Some? && h in held && held[h].wnode == Some(n)
    requires hp in held && held[hp].target == nodes[n].link.value.parent
    ensures Chain(Cut(nodes, n), nodes[n].link.value.parent, d) && Leavable(nodes, names, n, [n] + d)
    ensures var r := Without(nodes, names, n, [n] + d);
      Unlink(nodes, names, n, d) == (r.0[n := nodes[n].(link := None)], r.1)
    ensures var (nodes', names') := Unlink(nodes, names, n, d);
      && Inv(nodes', names', dots, held) && QueueOk(nodes', names', dots, held, q) && FailuresFinal(nodes', held, q)
      && (MarksAwaited(nodes, names, q) ==> MarksAwaited(nodes', names', q))
      && Relinked(nodes, nodes', n, None) && names' == names - {nodes[n].link.value} && nodes'.Keys == nodes.Keys
  {
    hide QueueOk, FailuresFinal, MarksAwaited, Deletable, LocksOk, RefExact, AllKept;
    d := UnlinkInv(nodes, names, dots, held, n, h, hp);
    UnlinkSteps(nodes, names, n, d);
    assert ([n] + d)[1..] == d;
    var (nodes', names') := Unlink(nodes, names, n, d);
    WriterExcludes(nodes, held, h, n, h);
    QueueUnmoved(nodes, names, dots, nodes', names', dots, held, q);
  }

  /** What giving up lookups leaves in place, up to the reference that goes with the last. */
  lemma ForgetAll(nodes: Nodes, names: Names, dots: Dots, held: Held, q: seq<Elem>, n: Ino, k: nat)
    requires Inv(nodes, names, dots, held) && QueueOk(nodes, names, dots, held, q) && FailuresFinal(nodes, held, q)
    requires n in nodes && n != ROOT && 1 <= k <= nodes[n].nlookup
    requires !(nodes[n].nlookup == k && nodes[n].treelock != 0)
    requires AllElemsKept(AfterForget(nodes, n, k), names, dots, q)
    ensures var after := AfterForget(nodes, n, k);
      && n in after && after[n].nlookup == nodes[n].nlookup - k
      && QueueOk(after, names, dots, held, q) && FailuresFinal(after, held, q)
      && (MarksAwaited(nodes, names, q) ==> MarksAwaited(after, names, q))
      && if nodes[n].nlookup == k then InvOwing(after, names, dots, held, n) && HasChain(after, n)
         else Inv(after, names, dots, held)
  {
    var after := AfterForget(nodes, n, k);
    ForgetInv(nodes, names, dots, held, n, k);
    FailuresStay(nodes, after, names, dots, held, q);
    if MarksAwaited(nodes, names, q) {
      TreeMarks(nodes, names, after, names, q);
    }
  }

  /** What a cascade of deletions leaves in place. */
  lemma ReleaseAll(nodes: Nodes, names: Names, dots: Dots, held: Held, q: seq<Elem>, n: Ino, c: seq<Ino>)
    requires InvOwing(nodes, names, dots, held, n) && QueueOk(nodes, names, dots, held, q)
    requires FailuresFinal(nodes, held, q) && Chain(nodes, n, c)
    ensures Deletable(nodes, names, n, c)
    ensures var (nodes', names') := Release(nodes, names, n, c);
      && Inv(nodes', names', dots, held) && QueueOk(nodes', names', dots, held, q) && FailuresFinal(nodes', held, q)
      && (MarksAwaited(nodes, names, q) ==> MarksAwaited(nodes', names', q))
      && nodes'.Keys <= nodes.Keys && (forall m :: m in nodes && nodes[m].nlookup > 0 ==> m in nodes')
      && forall m :: m in nodes' ==> nodes'[m].nlookup == nodes[m].nlookup
  {
    forall m | m in nodes && nodes[m].nlookup > 0 ensures m in Release(nodes, names, n, c).0 {
      ReleaseSpares(nodes, names, dots, n, c, m, ChainOf(nodes, m));
    }
    ReleaseInv(nodes, names, dots, held, n, c);
    ReleaseElems(nodes, names, dots, n, c, q);
    ReleaseFrame(nodes, names, n, c);
    var (nodes', names') := Release(nodes, names, n, c);
    FailuresStay(nodes, nodes', names', dots, held, q);
    if MarksAwaited(nodes, names, q) {
      TreeMarks(nodes, names, nodes', names', q);
    }
  }

  // -------------------------------------------------------------------------
  // delete_node and unhash_name

  /** The name of a node can be taken away, and the references that go with it. */
  ghost predicate Leavable(nodes: Nodes, names: Names, n: Ino, c: seq<Ino>) {
    && Chain(nodes, n, c)
    && (nodes[n].link.Some? ==>
          var l := nodes[n].link.value;
          && l in names && names[l] == n
          && Chain(nodes - {n}, l.parent, c[1..]) && Deletable(nodes - {n}, names - {l}, l.parent, c[1..]))
  }

  /** The other nodes, and the names, once node `n` has lost its name. */
  ghost function Without(nodes: Nodes, names: Names, n: Ino, c: seq<Ino>): (Nodes, Names)
    requires Leavable(nodes, names, n, c)
  {
    match nodes[n].link
    case None => (nodes - {n}, names)
    case Some(l) => Release(nodes - {n}, names - {l}, l.parent, c[1..])
  }

  lemma SetApart(nodes: Nodes, n: Ino, dying: set<Ino>)
    ensures nodes - (dying + {n}) == (nodes - dying) - {n} == (nodes - {n}) - dying
  {
  }

  /** With the name of `n` the reference on its parent goes, while `n` is set aside too. */
  lemma WithoutName(nodes: Nodes, names: Names, n: Ino, c: seq<Ino>, dying: set<Ino>)
    requires n !in dying && n in nodes && Leavable(nodes - dying, names, n, c)
    ensures c != []
    ensures nodes[n].link.None? ==>
      Without(nodes - dying, names, n, c) == (nodes - (dying + {n}), names) && nodes[n].(link := None) == nodes[n]
    ensures nodes[n].link.Some? ==>
      var l, rest := nodes[n].link.value, nodes - (dying + {n});
      && l in names && names[l] == n && l.parent in rest
      && Chain(rest, l.parent, c[1..]) && Deletable(rest, names - {l}, l.parent, c[1..])
      && Without(nodes - dying, names, n, c) == Release(rest, names - {l}, l.parent, c[1..])
  {
    SetApart(nodes, n, dying);
  }

  /** The last reference of a node takes it away. */
  lemma LastGoes(nodes: Nodes, nodes': Nodes, names: Names, n: Ino, c: seq<Ino>)
    requires Chain(nodes, n, c) && Deletable(nodes, names, n, c) && nodes[n].refctr == 1
    requires nodes' == nodes[n := nodes[n].(refctr := 0)]
    ensures Leavable(nodes', names, n, c) && Without(nodes', names, n, c) == Release(nodes, names, n, c)
  {
    assert nodes' - {n} == nodes - {n};
    ChainFrame(nodes, nodes', n, c);
  }

  // -------------------------------------------------------------------------
  // Lookup counts

  ghost function LookupsOf(lookups: map<Ino, nat>, n: Ino): nat {
    if n in lookups then lookups[n] else 0
  }

  ghost function Fewer(lookups: map<Ino, nat>, n: Ino, k: nat): map<Ino, nat> {
    lookups[n := if k <= LookupsOf(lookups, n) then LookupsOf(lookups, n) - k else 0]
  }

  ghost predicate LookupsAre(nodes: Nodes, lookups: map<Ino, nat>) {
    && (forall n :: n in nodes && n != ROOT ==> nodes[n].nlookup == LookupsOf(lookups, n))
    && (forall n :: n in lookups && lookups[n] > 0 ==> n in nodes)
  }

  /** A node with one more lookup; the first one holds a reference. */
  predicate LookedUp(nd: Node, nd': Node) {
    && nd'.nlookup == nd.nlookup + 1 && nd'.refctr == nd.refctr + (if nd.nlookup == 0 then 1 else 0)
    && nd'.link == nd.link && nd'.treelock == nd.treelock
  }

  /** Nodes that differ in neither number nor lookups. */
  lemma SameLookups(nodes: Nodes, nodes': Nodes, lookups: map<Ino, nat>)
    requires nodes'.Keys <= nodes.Keys && forall n :: n in nodes && nodes[n].nlookup > 0 ==> n in nodes'
    requires forall n :: n in nodes' ==> nodes'[n].nlookup == nodes[n].nlookup
    requires ROOT in nodes'
    ensures LookupsAre(nodes, lookups) ==> LookupsAre(nodes', lookups)
  {
  }

  lemma OneMoreLookup(nodes: Nodes, n: Ino, lookups: map<Ino, nat>)
    requires n in nodes
    ensures LookupsAre(nodes, lookups) ==>
      LookupsAre(nodes[n := IncLookup(nodes[n])], lookups[n := LookupsOf(lookups, n) + 1])
  {
  }

  lemma FewerLookups(nodes: Nodes, n: Ino, k: nat, lookups: map<Ino, nat>)
    requires n in nodes && n != ROOT && k <= nodes[n].nlookup
    ensures LookupsAre(nodes, lookups) ==> LookupsAre(AfterForget(nodes, n, k), Fewer(lookups, n, k))
  {
  }

  lemma SameLookupsMove(nodes: Nodes, n: Ino, l: Link, lookups: map<Ino, nat>)
    requires n in nodes && l.parent in nodes && n != l.parent
    ensures LookupsAre(nodes, lookups) ==> LookupsAre(LinkIn(nodes, n, l), lookups)
  {
  }

  lemma RelinkedLookups(nodes: Nodes, nodes': Nodes, n: Ino, lookups: map<Ino, nat>)
    requires Relinked(nodes, nodes', n, None)
    ensures LookupsAre(nodes, lookups) ==> LookupsAre(nodes', lookups)
  {
  }

  lemma NewLookups(nodes: Nodes, nodes': Nodes, lookups: map<Ino, nat>, n: Ino)
    requires n !in nodes && nodes'.Keys == nodes.Keys + {n} && nodes'[n].nlookup == 1
    requires forall m :: m in nodes ==> nodes'[m].nlookup == nodes[m].nlookup
    ensures LookupsAre(nodes, lookups) ==> LookupsAre(nodes', lookups[n := LookupsOf(lookups, n) + 1])
  {
  }

  datatype RenameError = EBUSY | ENOMEM

  class Fuse {
    var nodes: Nodes
    var names: Names
    var lockq: seq<Elem>
    ghost var dots: Dots     // the "." lookups in flight
    ghost var held: Held     // the paths that are held
    ghost var lookups: map<Ino, nat>    // the lookups that the kernel has been given and has not given up
    const ids: IdGenerator
    const tables: Tables     // the hash tables behind `nodes` and `names`
    var generations: map<Ino, nat>

    /** What holds whenever the mutex is free. */
    ghost predicate Valid()
      reads this
    {
      Inv(nodes, names, dots, held) && QueueOk(nodes, names, dots, held, lockq) && FailuresFinal(nodes, held, lockq)
    }

    /** A mark on a tree lock means that a request waits to write-lock the node. */
    ghost predicate MarksOk()
      reads this
    {
      MarksAwaited(nodes, names, lockq)
    }

    /** The count of every node but the root is the kernel's, and what the kernel refers to is there. */
    ghost predicate LookupsOk()
      reads this
    {
      LookupsAre(nodes, lookups)
    }

    /** The name table stands for `names`. */
    ghost predicate NamesHashed()
      reads this, tables, tables.Repr
    {
      tables.Valid() && this !in tables.Repr && ids !in tables.Repr && tables.names == names
    }

    /** Both tables stand for what is in memory. */
    ghost predicate TablesOk()
      reads this, tables, tables.Repr
    {
      NamesHashed() && tables.ids == nodes.Keys
    }

    /** Every node but the root has an id and a generation that were handed out together. No method but
        FindNode adds a node or touches this part of the state. */
    ghost predicate IdsOk()
      reads this, ids
    {
      ids.Valid() && AllKnown(nodes, generations, ids.issued)
    }

    /** The part of fuse_new_common that creates the root. */
    constructor ()
      ensures Valid() && MarksOk() && IdsOk() && fresh(ids) && ids.pos == 0 && LookupsOk() && lookups == map[]
      ensures TablesOk() && fresh(tables) && fresh(tables.Repr) && tables.pending == 0 && tables.Loaded()
      ensures nodes == map[ROOT := Node(None, 1, 1, 0)] && names == map[] && held == map[] && lockq == []
    {
      hide Tables.Valid, Tables.Loaded, Inv, QueueOk, MarksAwaited, FailuresFinal, IdGenerator.Valid;
      var root := Node(None, 1, 1, 0);
      ids := new IdGenerator();
      tables := new Tables();
      generations, lookups := map[ROOT := 0], map[];
      nodes, names, lockq, dots, held := map[ROOT := root], map[], [], map[], map[];
      new;
      tables.AddId(ROOT, true);
      RootInv(nodes);
    }

    // -----------------------------------------------------------------------
    // unref_node, delete_node, unhash_name

    /** `dying` holds the nodes whose deletion is under way further up the call stack. */
    method UnrefNode(n: Ino, memory: Memory, ghost c: seq<Ino>, ghost dying: set<Ino>)
      requires n !in dying && (forall d :: d in dying ==> d in nodes)
      requires Chain(nodes - dying, n, c) && Deletable(nodes - dying, names, n, c)
      requires TablesOk()
      modifies this`nodes, this`names, tables.Repr
      ensures (nodes - dying, names) == Release(old(nodes) - dying, old(names), n, c)
      ensures forall d :: d in dying ==> d in nodes && nodes[d] == old(nodes)[d]
      ensures TablesOk() && fresh(tables.Repr - old(tables.Repr)) && tables.pending == old(tables.pending)
      ensures old(tables.Loaded()) ==> tables.Loaded()
      decreases |c|, 2
    {
      hide Tables.Valid, Tables.Loaded;
      assert nodes[n].refctr > 0;
      ghost var was := nodes - dying;
      nodes := nodes[n := nodes[n].(refctr := nodes[n].refctr - 1)];
      assert nodes - dying == was[n := nodes[n]];
      if nodes[n].refctr == 0 {
        LastGoes(was, nodes - dying, names, n, c);
        DeleteNode(n, memory, c, dying);
      }
    }

    method DeleteNode(n: Ino, memory: Memory, ghost c: seq<Ino>, ghost dying: set<Ino>)
      requires n !in dying && (forall d :: d in dying ==> d in nodes) && n in nodes && TablesOk()
      requires Leavable(nodes - dying, names, n, c) && nodes[n].refctr == 0 && nodes[n].treelock == 0
      modifies this`nodes, this`names, tables.Repr
      ensures (nodes - dying, names) == Without(old(nodes) - dying, old(names), n, c)
      ensures forall d :: d in dying ==> d in nodes && nodes[d] == old(nodes)[d]
      ensures TablesOk() && fresh(tables.Repr - old(tables.Repr)) && tables.pending == old(tables.pending)
      ensures old(tables.Loaded()) ==> tables.Loaded()
      decreases |c|, 1
    {
      hide Fuse.TablesOk, Fuse.NamesHashed, Tables.Valid, Tables.Loaded, Leavable, Without;
      assert nodes[n].treelock == 0;
      UnhashName(n, memory, c, dying);
      SetApart(nodes, n, dying);
      DropId(n, memory);
    }

    method UnhashName(n: Ino, memory: Memory, ghost c: seq<Ino>, ghost dying: set<Ino>)
      requires n !in dying && (forall d :: d in dying ==> d in nodes) && n in nodes && TablesOk()
      requires Leavable(nodes - dying, names, n, c)
      modifies this`nodes, this`names, tables.Repr
      ensures (nodes - (dying + {n}), names) == Without(old(nodes) - dying, old(names), n, c)
      ensures forall d :: d in dying ==> d in nodes && nodes[d] == old(nodes)[d]
      ensures n in nodes && nodes[n] == old(nodes)[n].(link := None)
      ensures TablesOk() && fresh(tables.Repr - old(tables.Repr)) && tables.pending == old(tables.pending)
      ensures old(tables.Loaded()) ==> tables.Loaded()
      decreases |c|, 0
    {
      hide Fuse.TablesOk, Fuse.NamesHashed, Tables.Valid, Tables.Loaded, Leavable, Without, Release, Chain, Deletable;
      WithoutName(nodes, names, n, c, dying);
      if nodes[n].link.Some? {
        UnhashLink(n, nodes[n].link.value, memory, c[1..], dying + {n});
      }
    }

    /** A name goes, then what hangs on the parent, and only then is the name no longer counted. */
    method UnhashLink(n: Ino, link: Link, memory: Memory, ghost c: seq<Ino>, ghost dying: set<Ino>)
      requires n in dying && (forall d :: d in dying ==> d in nodes) && TablesOk()
      requires nodes[n].link == Some(link) && link in names && names[link] == n && link.parent in nodes - dying
      requires Chain(nodes - dying, link.parent, c) && Deletable(nodes - dying, names - {link}, link.parent, c)
      modifies this`nodes, this`names, tables.Repr
      ensures (nodes - dying, names) == Release(old(nodes) - dying, old(names) - {link}, link.parent, c)
      ensures forall d :: d in dying ==> d in nodes
      ensures forall d :: d in dying && d != n ==> nodes[d] == old(nodes)[d]
      ensures n in nodes && nodes[n] == old(nodes)[n].(link := None)
      ensures TablesOk() && fresh(tables.Repr - old(tables.Repr)) && tables.pending == old(tables.pending)
      ensures old(tables.Loaded()) ==> tables.Loaded()
      decreases |c|, 3
    {
      hide Fuse.TablesOk, Fuse.NamesHashed, Tables.Valid, Tables.Loaded, Release, Chain, Deletable;
      DropName(link, n);
      UnrefNode(link.parent, memory, c, dying);
      ForgetName(n, dying);
      CountName(n, memory);
    }

    /** The node itself no longer has a name or a parent. */
    method ForgetName(n: Ino, ghost dying: set<Ino>)
      requires n in nodes && n in dying && TablesOk()
      modifies this`nodes
      ensures TablesOk()
      ensures nodes == old(nodes)[n := old(nodes)[n].(link := None)]
      ensures nodes - dying == old(nodes) - dying
    {
      nodes := nodes[n := nodes[n].(link := None)];
    }

    /** A name leaves its table, but is still counted; then it is counted no more. */
    method DropName(l: Link, n: Ino)
      requires TablesOk() && l in names && names[l] == n
      modifies this`names, tables.Repr
      ensures names == old(names) - {l} && nodes == old(nodes)
      ensures TablesOk() && fresh(tables.Repr - old(tables.Repr)) && tables.pending == old(tables.pending) + 1
      ensures old(tables.Loaded()) ==> tables.Loaded()
    {
      hide Tables.Valid, Tables.Loaded;
      tables.UnlinkName(l, n);
      names := names - {l};
    }

    method CountName(n: Ino, memory: Memory)
      requires TablesOk() && tables.pending > 0
      modifies tables.Repr
      ensures nodes == old(nodes) && names == old(names)
      ensures TablesOk() && fresh(tables.Repr - old(tables.Repr)) && tables.pending == old(tables.pending) - 1
      ensures old(tables.Loaded()) ==> tables.Loaded()
    {
      hide Tables.Valid, Tables.Loaded;
      tables.DiscountName(n, memory);
    }

    /** unhash_id, and the node goes. */
    method DropId(n: Ino, memory: Memory)
      requires TablesOk() && n in nodes
      modifies this`nodes, tables.Repr
      ensures nodes == old(nodes) - {n} && names == old(names)
      ensures TablesOk() && fresh(tables.Repr - old(tables.Repr)) && tables.pending == old(tables.pending)
      ensures old(tables.Loaded()) ==> tables.Loaded()
    {
      hide Tables.Valid, Tables.Loaded;
      tables.RemoveId(n, memory);
      nodes := nodes - {n};
    }

    // -----------------------------------------------------------------------
    // unlock_path and try_get_path

    /** unlock_path, from `nodeid` up to `endNode`, the k-th node of the chain (the root if None). */
    method UnlockNodes(nodeid: Ino, wnode: Option<Ino>, endNode: Option<Ino>, ghost c: seq<Ino>, ghost k: nat)
      requires Chain(nodes, nodeid, c) && k < |c| && (endNode == Some(c[k]) || (endNode == None && c[k] == ROOT))
      requires forall j :: 0 <= j < k ==> c[j] != ROOT
      requires wnode.Some? ==>
        wnode.value in nodes && wnode.value !in c[..k] && nodes[wnode.value].treelock == TREELOCK_WRITE
      requires forall j :: 0 <= j < k ==> ReadLocked(nodes, c[j])
      modifies this`nodes
      ensures nodes == UnBump(SetOptLock(old(nodes), wnode, 0), c[..k])
    {
      assert c[0] == nodeid;
      hide Chain, UnBump;
      ghost var was := nodes;
      if wnode.Some? {
        assert nodes[wnode.value].treelock == TREELOCK_WRITE;
        nodes := SetLock(nodes, wnode.value, 0);
      }
      ghost var start := nodes;
      ChainNoRepeat(was, nodeid, c);
      var node := nodeid;
      ghost var i := 0;
      assert UnBump(start, c[..0]) == start by { UnBumpNone(start); }
      while Some(node) != endNode && node != ROOT
        invariant 0 <= i <= k && node == c[i] && (i < k ==> c[i] != c[k])
        invariant nodes == UnBump(start, c[..i])
        decreases k - i
      {
        ChainStep(was, nodeid, c, i);
        UnBumpStep(start, c, i);
        assert ReadLocked(was, node);
        node := UnlockNode(node);
        i := i + 1;
      }
      assert i == k;
    }

    /** One node of the walk. */
    method UnlockNode(node: Ino) returns (parent: Ino)
      requires ReadLocked(nodes, node) && nodes[node].link.Some?
      modifies this`nodes
      ensures nodes == SetLock(old(nodes), node, Dec(old(nodes)[node].treelock))
      ensures parent == old(nodes)[node].link.value.parent
    {
      assert nodes[node].treelock != 0;
      assert nodes[node].treelock != TREELOCK_WAIT_OFFSET;
      assert nodes[node].treelock != TREELOCK_WRITE;
      var t := nodes[node].treelock - 1;
      if t == TREELOCK_WAIT_OFFSET {
        t := 0;
      }
      nodes := SetLock(nodes, node, t);
      parent := nodes[node].link.value.parent;
    }

    /** try_get_path with need_lock set; `c` is the chain it walks. */
    method TryGetPath(p: PathReq, ghost c: seq<Ino>) returns (err: Option<Error>, wnode: Option<Ino>, path: string)
      requires Tree(nodes, names) && LocksOk(nodes, held) && Chain(nodes, p.nodeid, c)
      requires ReqOk(p) && TextSize(nodes, c, p.name) <= UINT_MAX
      modifies this`nodes
      ensures var r := TryPath(old(nodes), names, p, c);
        && nodes == r.nodes
        && err == (if r.Failed? then Some(r.err) else None)
        && (err.None? ==> wnode == r.wnode && path == PathText(old(nodes), c, p.name))
      ensures err.None? ==> RightPath(old(nodes), names, p, path)
    {
      hide RightPath, Walk, Dirs, Chain, Bump, UnBump, LocksOk;
      path := "";
      wnode := None;
      ghost var was := nodes;
      TryRight(was, names, p, c);
      var b := new Buffer();
      if p.name.Some? {
        var ok := b.AddName(p.name.value, true);
      }
      if p.write {
        wnode := Lookup(names, p.nodeid, p.name.value);
        if wnode.Some? {
          assert NameOk(nodes, names, Link(p.nodeid, p.name.value));
          var t := nodes[wnode.value].treelock;
          if t != 0 {
            if t > 0 {
              nodes := SetLock(nodes, wnode.value, t + TREELOCK_WAIT_OFFSET);
            }
            assert nodes == SetLock(was, wnode.value, Mark(t));
            return Some(EAGAIN), wnode, path;
          }
          ChildOffChain(nodes, names, Link(p.nodeid, p.name.value), c);
          nodes := SetLock(nodes, wnode.value, TREELOCK_WRITE);
        }
      }
      err := WalkUp(p.nodeid, wnode, b, was, c);
      if err.None? {
        path := b.Finish();
      }
    }

    /** The loop of try_get_path, from `was` with the child already write-locked. */
    method WalkUp(nodeid: Ino, wnode: Option<Ino>, b: Buffer, ghost was: Nodes,
                  ghost c: seq<Ino>) returns (err: Option<Error>)
      requires ROOT in was && was[ROOT].link == None && Chain(was, nodeid, c)
      requires wnode.Some? ==> wnode.value in was && wnode.value !in c && was[wnode.value].treelock == 0
      requires nodes == SetOptLock(was, wnode, TREELOCK_WRITE)
      requires b.Valid() && |Dirs(was, c)| + |b.Text()| + 1 <= UINT_MAX
      modifies this`nodes, b, b.buf
      ensures b.Valid() && (b.buf == old(b.buf) || fresh(b.buf))
      ensures err == Walk(was, c)
      ensures nodes == if err.None? then Bump(SetOptLock(was, wnode, TREELOCK_WRITE), c) else was
      ensures err.None? ==> b.Text() == Dirs(was, c) + old(b.Text())
    {
      hide Walked, Written, Walk, Dirs, Bump, UnBump, Chain, SetLock, SetOptLock;
      ghost var last := b.Text();
      WalkedStart(was, wnode, nodeid, c, nodes, last);
      var node := nodeid;
      ghost var i := 0;
      err := None;
      while node != ROOT
        invariant b.Valid() && (b.buf == old(b.buf) || fresh(b.buf)) && err == None
        invariant i < |c| && Walked(was, wnode, nodeid, c, i, nodes, node) && Written(was, c, i, b.Text(), last)
        decreases |c| - i
      {
        var next;
        err, next := WalkStep(nodeid, wnode, node, b, was, c, i, last);
        if err.Some? {
          break;
        }
        node := next;
        i := i + 1;
      }
      if err.Some? {
        UnlockSome(nodeid, wnode, node, was, c, i);
      } else {
        WalkedOut(was, wnode, nodeid, c, i, nodes, b.Text(), last);
      }
    }

    /** One round of that loop. */
    method WalkStep(nodeid: Ino, wnode: Option<Ino>, node: Ino, b: Buffer, ghost was: Nodes, ghost c: seq<Ino>,
                    ghost i: nat, ghost last: string)
      returns (err: Option<Error>, next: Ino)
      requires b.Valid() && |Dirs(was, c)| + |last| + 1 <= UINT_MAX
      requires node != ROOT && i < |c| && Walked(was, wnode, nodeid, c, i, nodes, node) &&
        Written(was, c, i, b.Text(), last)
      modifies this`nodes, b, b.buf
      ensures b.Valid() && (b.buf == old(b.buf) || fresh(b.buf))
      ensures err.Some? ==> nodes == old(nodes) && Walk(was, c) == err
      ensures err.None? ==>
        i + 1 < |c| && Walked(was, wnode, nodeid, c, i + 1, nodes, next) && Written(was, c, i + 1, b.Text(), last)
    {
      hide Walked, Written, Walk, Dirs, Bump, UnBump, Chain, SetLock, SetOptLock, Buffer.Text, Buffer.Valid;
      WalkedHere(was, wnode, nodeid, c, i, nodes, node);
      next := node;
      var nd := nodes[node];
      if nd.link.None? {
        return Some(ENOENT), next;
      }
      WrittenNext(was, c, i, b.Text(), last);
      var ok := b.AddName(nd.link.value.name, true);
      if nd.treelock < 0 {
        return Some(EAGAIN), next;
      }
      nodes := SetLock(nodes, node, nd.treelock + 1);
      return None, nd.link.value.parent;
    }

    /** The out_unlock branch of try_get_path: everything taken so far is given back. */
    method UnlockSome(nodeid: Ino, wnode: Option<Ino>, node: Ino, ghost was: Nodes, ghost c: seq<Ino>, ghost i: nat)
      requires i < |c| && Walked(was, wnode, nodeid, c, i, nodes, node)
      requires wnode.Some? ==> wnode.value in was && wnode.value !in c && was[wnode.value].treelock == 0
      modifies this`nodes
      ensures nodes == was
    {
      ChainFrame(was, nodes, nodeid, c);
      forall j | 0 <= j < i ensures ReadLocked(nodes, c[j]) {
        assert c[j] in c[..i];
      }
      UnlockNodes(nodeid, wnode, Some(node), c, i);
      BumpUndone(was, wnode, c[..i]);
    }

    // -----------------------------------------------------------------------
    // One path of a request

    /** try_get_path on behalf of slot `slot` of request `req`: on success the path is held. */
    method TrySlot(p: PathReq, req: nat, slot: Slot, ghost dot: Option<nat>)
      returns (err: Option<Error>, wnode: Option<Ino>, path: string)
      requires Inv(nodes, names, dots, held) && PathFits(nodes, p)
      requires KernelKeeps(nodes, names, dots, p, dot)
      requires HoldId(req, slot) !in held && |held| < MAX_HOLDS
      modifies this`nodes, this`held
      ensures Inv(nodes, names, dots, held) && OnlyLocks(old(nodes), nodes)
      ensures HasChain(old(nodes), p.nodeid) &&
        nodes == TryPath(old(nodes), names, p, ChainOf(old(nodes), p.nodeid)).nodes
      ensures err.None? <==> TryPath(old(nodes), names, p, ChainOf(old(nodes), p.nodeid)).Got?
      ensures err.Some? ==> held == old(held) && OnlyMarked(old(nodes), nodes, WNode(names, p))
      ensures MarkStep(old(nodes), nodes, WNode(names, p), err) && (err == Some(ENOENT) ==> nodes == old(nodes))
      ensures err.None? ==> MarksAside(old(nodes), ChainOf(old(nodes), p.nodeid), WNode(names, p))
      ensures err == ErrOf(Attempt(old(nodes), names, p)) && nodes == Attempt(old(nodes), names, p).nodes
      ensures err.None? ==> wnode == WNode(names, p)
      ensures err.None? ==>
        held == old(held)[HoldId(req, slot) := HoldFor(old(nodes), p, ChainOf(old(nodes), p.nodeid), wnode, dot)]
      ensures err.None? ==> HoldsPath(held, HoldId(req, slot), p, wnode) && path == held[HoldId(req, slot)].path
      ensures err.None? ==> PathTaken(old(held), held, names, HoldId(req, slot), p, wnode, path)
      ensures old(WritersNamed(nodes, held)) ==> WritersNamed(nodes, held)
      ensures OthersKept(old(held), held, req)
    {
      OthersSame(held, req);
      OthersPut(held, HoldId(req, slot), HoldFor(nodes, p, ChainOf(nodes, p.nodeid), WNode(names, p), dot));
      ghost var was := nodes;
      ghost var c := ChainOf(nodes, p.nodeid);
      err, wnode, path := TryGetPath(p, c);
      TryPathOnlyLocks(was, names, p, c);
      AttemptMarks(was, names, held, p, c);
      ghost var r := TryPath(was, names, p, c);
      TakenNamed(was, nodes, names, held, HoldId(req, slot), HoldFor(was, p, c, WNode(names, p), dot), p);
      if err.None? {
        GotInv(was, names, dots, held, p, c, r, HoldId(req, slot), dot);
        GotLocked(was, names, p, c, r);
        held := held[HoldId(req, slot) := HoldFor(was, p, c, wnode, dot)];
      } else {
        TryPathFailed(was, names, p, c);
        MarkInv(was, nodes, names, dots, held, WNode(names, p));
      }
    }

    /** The same, as the queue sees it. */
    method TryFor(p: PathReq, req: nat, slot: Slot, ghost dot: Option<nat>)
      returns (err: Option<Error>, wnode: Option<Ino>, path: string)
      requires Inv(nodes, names, dots, held) && PathFits(nodes, p)
      requires KernelKeeps(nodes, names, dots, p, dot)
      requires HoldId(req, slot) !in held && |held| < MAX_HOLDS
      modifies this`nodes, this`held
      ensures Inv(nodes, names, dots, held) && OnlyLocks(old(nodes), nodes) && OthersKept(old(held), held, req)
      ensures err == ErrOf(Attempt(old(nodes), names, p)) && nodes == Attempt(old(nodes), names, p).nodes
      ensures err.Some? ==> held == old(held) && OnlyMarked(old(nodes), nodes, WNode(names, p))
      ensures err == Some(ENOENT) ==> nodes == old(nodes)
      ensures err.None? ==> PathTaken(old(held), held, names, HoldId(req, slot), p, wnode, path)
      ensures err.None? ==> held[HoldId(req, slot)].dot == dot && HasChain(old(nodes), p.nodeid)
      ensures err.None? ==> path == PathText(old(nodes), ChainOf(old(nodes), p.nodeid), p.name)
      ensures MarkStep(old(nodes), nodes, WNode(names, p), err)
      ensures old(WritersNamed(nodes, held)) ==> WritersNamed(nodes, held)
    {
      hide Inv, OnlyLocks, OthersKept, OnlyMarked, WNode, MarkStep, WritersNamed, Attempt, TryPath, ChainOf, MarksAside,
           KernelKeeps, PathFits;
      err, wnode, path := TrySlot(p, req, slot, dot);
    }

    /** unlock_path on behalf of a request that holds the path. */
    method UnlockSlot(nodeid: Ino, wnode: Option<Ino>, ghost id: HoldId)
      requires Inv(nodes, names, dots, held) && id in held && held[id].target == nodeid && held[id].wnode == wnode
      modifies this`nodes, this`held
      ensures Inv(nodes, names, dots, held) && OnlyLocks(old(nodes), nodes)
      ensures nodes == UnlockPath(old(nodes), old(held)[id]) && held == old(held) - {id} &&
        OthersKept(old(held), held, id.req)
      ensures FewerMarks(old(nodes), nodes) && HasChain(old(nodes), nodeid)
      ensures nodes == UnlockReq(old(nodes), nodeid, wnode)
      ensures forall n: Ino :: Marked(old(nodes), n) && Aside(ChainOf(old(nodes), nodeid), wnode, n) ==>
        Marked(nodes, n)
    {
      ghost var was, x := nodes, held[id];
      OthersPut(held, id, x);
      assert HoldOk(nodes, x);
      ChainUnique(nodes, nodeid, x.chain, ChainOf(nodes, nodeid));
      UnlockMarks(nodes, names, held, id);
      UnlockInv(nodes, names, dots, held, id);
      assert HoldOk(nodes, x);
      ChainBelowRoot(nodes, x);
      ghost var k := |x.chain| - 1;
      forall j | 0 <= j < k ensures ReadLocked(nodes, x.chain[j]) { assert x.chain[j] in x.chain; }
      UnlockNodes(nodeid, wnode, None, x.chain, k);
      assert nodes == UnlockPath(was, x);
      held := held - {id};
    }

    // -----------------------------------------------------------------------
    // The queue

    /** queue_element_unlock. */
    method QueueElementUnlock(qe: Elem) returns (e: Elem)
      requires Inv(nodes, names, dots, held) && qe.PathElem? && SlotsOk(held, qe)
      modifies this`nodes, this`held
      ensures Inv(nodes, names, dots, held) && OnlyLocks(old(nodes), nodes)
      ensures e == qe.(first := false, second := false) && SlotsOk(held, e)
      ensures OthersKept(old(held), held, qe.req) && |held| <= |old(held)| && FewerMarks(old(nodes), nodes)
      ensures nodes == UnlockElem(old(nodes), qe) && (!qe.first && !qe.second ==> nodes == old(nodes))
      ensures forall n: Ino :: Marked(old(nodes), n) && HeldAside(old(nodes), qe, n) ==> Marked(nodes, n)
    {
      hide Inv, OnlyLocks, OthersKept, HeldAside, HasChain, FewerMarks, Aside, UnlockPath, UnlockReq;
      FewSame(nodes);
      OnlyLocksSame(nodes);
      OthersSame(held, qe.req);
      e := qe;
      if e.first {
        UnlockSlot(e.p1.nodeid, e.wnode1, HoldId(e.req, First));
        e := e.(first := false);
      }
      ghost var mid, midHeld := nodes, held;
      OnlyLocksSame(nodes);
      OthersSame(held, qe.req);
      if e.second {
        UnlockSlot(e.p2.value.nodeid, e.wnode2, HoldId(e.req, Second));
        e := e.(second := false);
      }
      OnlyLocksTrans(old(nodes), mid, nodes);
      OthersTrans(old(held), midHeld, held, qe.req);
      FewTrans(old(nodes), mid, nodes);
      AsideStays(old(nodes), mid, nodes, qe);
    }

    /** The two attempts of queue_element_wakeup, for the paths not locked yet. */
    method RetryFirst(qe: Elem) returns (err: Option<Error>, e: Elem)
      requires Inv(nodes, names, dots, held) && ElemFits(nodes, qe)
      requires qe.PathElem? && SlotsOk(held, qe) && ElemKept(nodes, names, dots, qe) && |held| < MAX_HOLDS
      modifies this`nodes, this`held
      ensures Inv(nodes, names, dots, held) && ElemFits(nodes, e) && OnlyLocks(old(nodes), nodes)
      ensures e.PathElem? && e == qe.(first := e.first, wnode1 := e.wnode1, path1 := e.path1) && SlotsOk(held, e) &&
        ElemKept(nodes, names, dots, e)
      ensures e.first <==> err.None?
      ensures e == TriedFirst(old(nodes), names, qe)
      ensures (err, nodes) == FirstTurn(old(nodes), names, qe) &&
        (!qe.first && e.first ==> e.wnode1 == WNode(names, qe.p1))
      ensures OthersKept(old(held), held, qe.req) && |held| <= |old(held)| + 1
      ensures old(WritersNamed(nodes, held)) ==> WritersNamed(nodes, held)
      ensures qe.first ==> e == qe
    {
      hide Inv, PathFits, KernelKeeps, TryPath, HasChain, OnlyMarked, WNode, OnlyLocks, MarkStep, Attempt, MarksAside,
           OthersKept, WritersNamed, Walk;
      e := qe;
      err := None;
      OnlyLocksSame(nodes);
      OthersSame(held, qe.req);
      if !e.first {
        ghost var was := nodes;
        var w, path;
        err, w, path := TryFor(e.p1, e.req, First, e.dot);
        ElemKeptLocks(was, nodes, names, dots, e);
        if err.None? {
          e := e.(first := true, wnode1 := w, path1 := path);
        }
        ElemFitsFrame(was, nodes, qe);
      }
    }

    method RetrySecond(qe: Elem) returns (err: Option<Error>, e: Elem)
      requires Inv(nodes, names, dots, held) && ElemFits(nodes, qe)
      requires qe.PathElem? && SlotsOk(held, qe) && ElemKept(nodes, names, dots, qe) && |held| < MAX_HOLDS
      modifies this`nodes, this`held
      ensures Inv(nodes, names, dots, held) && ElemFits(nodes, e) && OnlyLocks(old(nodes), nodes)
      ensures e.PathElem? && e == qe.(second := e.second, wnode2 := e.wnode2, path2 := e.path2) && SlotsOk(held, e) &&
        ElemKept(nodes, names, dots, e)
      ensures e.second || e.p2.None? <==> err.None?
      ensures e == TriedSecond(old(nodes), names, qe)
      ensures (err, nodes) == SecondTurn(old(nodes), names, qe) &&
        (!qe.second && e.second ==> e.wnode2 == WNode(names, qe.p2.value))
      ensures OthersKept(old(held), held, qe.req) && |held| <= |old(held)| + 1
      ensures old(WritersNamed(nodes, held)) ==> WritersNamed(nodes, held)
      ensures qe.second || qe.p2.None? ==> e == qe
    {
      hide Inv, PathFits, KernelKeeps, TryPath, HasChain, OnlyMarked, WNode, OnlyLocks, MarkStep, Attempt, MarksAside,
           OthersKept, WritersNamed, Walk;
      e := qe;
      err := None;
      OnlyLocksSame(nodes);
      OthersSame(held, qe.req);
      if !e.second && e.p2.Some? {
        ghost var was := nodes;
        var w, path;
        err, w, path := TryFor(e.p2.value, e.req, Second, None);
        ElemKeptLocks(was, nodes, names, dots, e);
        if err.None? {
          e := e.(second := true, wnode2 := w, path2 := path);
        }
        ElemFitsFrame(was, nodes, qe);
      }
    }

    /** Both attempts, the second unless the first failed for good. */
    method RetryBoth(qe: Elem) returns (err: Option<Error>, e: Elem)
      requires Inv(nodes, names, dots, held) && ElemFits(nodes, qe)
      requires qe.PathElem? && FlagsOk(held, qe) && ElemKept(nodes, names, dots, qe) && |held| + 2 <= MAX_HOLDS
      requires WritersNamed(nodes, held) && ErrOk(nodes, qe)
      modifies this`nodes, this`held
      ensures Inv(nodes, names, dots, held) && OnlyLocks(old(nodes), nodes)
      ensures e.PathElem? &&
        e == qe.(first := e.first, second := e.second, wnode1 := e.wnode1, wnode2 := e.wnode2,
                 path1 := e.path1, path2 := e.path2)
      ensures SlotsOk(held, e)
      ensures Tried(old(nodes), nodes, names, qe, e, err) && (err, nodes, e) == Tries(old(nodes), names, qe)
      ensures OthersKept(old(held), held, qe.req) && |held| <= |old(held)| + 2
      ensures WritersNamed(nodes, held) && (err == Some(ENOENT) ==> WantsGone(nodes, qe))
      ensures qe.done ==> if qe.err.None? then err.None? && e == qe && nodes == old(nodes) else err == Some(ENOENT)
    {
      hide Inv, ElemKept, PathFits, Tried, OnlyLocks, OthersKept, Attempt, WritersNamed, Gone;
      ghost var n0, held0 := nodes, held;
      var err1, err2;
      err1, e := RetryFirst(qe);
      ghost var n1, held1 := nodes, held;
      err, err2 := err1, None;
      OnlyLocksSame(nodes);
      if err1 != Some(ENOENT) {
        err2, e := RetrySecond(e);
        OnlyLocksTrans(n0, n1, nodes);
        OthersTrans(held0, held1, held, qe.req);
        err := if err2 == Some(ENOENT) || err1.None? then err2 else err1;
      }
      Settled(n0, held0, n1, held1, nodes, names, dots, qe, err1, err2);
      TriedBoth(n0, held0, n1, held1, nodes, names, dots, qe, e, err1, err2);
    }

    /** queue_element_wakeup for a path request; the result is the element with its new flags. */
    method WakePathElem(qe: Elem, isHead: bool) returns (e: Elem)
      requires Inv(nodes, names, dots, held) && ElemFits(nodes, qe)
      requires qe.PathElem? && FlagsOk(held, qe) && ElemKept(nodes, names, dots, qe) && |held| + 2 <= MAX_HOLDS
      requires WritersNamed(nodes, held) && ErrOk(nodes, qe)
      modifies this`nodes, this`held
      ensures Inv(nodes, names, dots, held) && OnlyLocks(old(nodes), nodes)
      ensures e.PathElem? && e.req == qe.req && e.p1 == qe.p1 && e.p2 == qe.p2 && e.dot == qe.dot
      ensures FlagsOk(held, e) && (isHead || !Partial(e))
      ensures MarksPass(old(nodes), nodes, names, qe, e, LeftMark(old(nodes), names, qe))
      ensures !isHead && (Done(qe) || (!qe.first && !qe.second)) ==> MarksStay(old(nodes), nodes)
      ensures Outcome(old(nodes), names, qe, isHead, e) && (nodes, e) == TurnOf(old(nodes), names, qe, isHead)
      ensures OthersKept(old(held), held, qe.req) && |held| <= |old(held)| + 2
      ensures WritersNamed(nodes, held) && ErrOk(nodes, e)
      ensures Done(qe) ==> SameAnswer(qe, e)
    {
      hide Inv, ElemKept, PathFits, MarksPass, FewerMarks, OnlyLocks, BothTurns, LeftMark, HeldAside, OthersKept,
           WritersNamed, Gone;
      var err;
      err, e := RetryBoth(qe);
      ghost var n2, held2, e2, left := nodes, held, e, LeftMark(old(nodes), names, qe);
      OthersSame(held, qe.req);
      OnlyLocksSame(nodes);
      if err == Some(ENOENT) {
        e := QueueElementUnlock(e);
        e := e.(err := err, done := true);
        UnlockedMarks(old(nodes), n2, nodes, names, qe, e2.(err := err, done := true), e, left);
      } else if e.first && (e.second || e.p2.None?) {
        e := e.(err := None, done := true);
        FinishedMarks(old(nodes), nodes, names, qe, e2, e);
      } else if !isHead {
        e := QueueElementUnlock(e);
        UnlockedMarks(old(nodes), n2, nodes, names, qe, e2, e, None);
      }
      NoSlotsNamed(n2, held2, nodes, held, e);
      WantsGoneLocks(n2, nodes, qe);
      OnlyLocksTrans(old(nodes), n2, nodes);
      OthersTrans(old(held), held2, held, qe.req);
    }

    /** queue_element_wakeup. */
    method QueueElementWakeup(i: nat)
      requires Valid() && QueueFits(nodes, lockq) && i < |lockq| && |held| + 2 <= MAX_HOLDS
      modifies this`nodes, this`held, this`lockq
      ensures Valid() && QueueFits(nodes, lockq) && OnlyLocks(old(nodes), nodes)
      ensures |lockq| == |old(lockq)| && lockq == old(lockq)[i := lockq[i]]
      ensures SameRequest(old(lockq)[i], lockq[i])
      ensures |held| <= |old(held)| + 2
      ensures OthersKept(old(held), held, lockq[i].req)
      ensures old(MarksOk()) ==> (MarksOk() <==> !LeavesMark(old(nodes), names, old(lockq), i))
      ensures !old(MarksOk()) && i > 0 ==> !MarksOk()
      ensures Done(old(lockq)[i]) ==> SameAnswer(old(lockq)[i], lockq[i])
      ensures if old(lockq)[i].PathElem? then Outcome(old(nodes), names, old(lockq)[i], i == 0, lockq[i])
              else nodes == old(nodes) && lockq == old(lockq)
      ensures old(lockq)[i].PathElem? ==> (nodes, lockq[i]) == TurnOf(old(nodes), names, old(lockq)[i], i == 0)
      ensures old(lockq)[i].PathElem? ==> Woken(old(nodes), names, old(held), old(lockq)[i], i == 0, lockq[i])
    {
      var qe := lockq[i];
      assert ElemFits(nodes, qe) && FlagsOk(held, qe) && ElemKept(nodes, names, dots, qe) && ErrOk(nodes, qe);
      ghost var was, wasHeld := nodes, held;
      match qe {
        case ForgetElem(_, nodeid, _) =>
          // A signal, if nodes[nodeid].treelock == 0; get_node must not abort.
          assert nodeid in nodes;
        case PathElem(_, _, _, _, _, _, _, _, _, _, _, _) =>
          assert WritersNamed(nodes, held);
          hide Woken, FlagsOk, ElemKept, ErrOk, QueueFits, ElemFits, Outcome, TurnOf, LeavesMark, LeftMark, MarksPass,
               MarksStay, MarksAwaited, Inv, QueueOk, FailuresFinal, WritersNamed, OthersKept, OnlyLocks;
          var e := WakePathElem(qe, i == 0);
          OutcomeIs(was, names, dots, wasHeld, qe, i == 0, e);
          TurnKeeps(was, wasHeld, nodes, held, names, dots, lockq, i, e);
          lockq := lockq[i := e];
      }
    }

    /** wake_up_queued. */
    method WakeUpQueued()
      requires Valid() && QueueFits(nodes, lockq) && |held| + 2 * |lockq| <= MAX_HOLDS
      modifies this`nodes, this`held, this`lockq
      ensures Valid() && QueueFits(nodes, lockq) && OnlyLocks(old(nodes), nodes)
      ensures |lockq| == |old(lockq)| && forall j :: 0 <= j < |lockq| ==> SameRequest(old(lockq)[j], lockq[j])
      ensures HoldsOfOthersKept(old(held), held, old(lockq))
      ensures Passed(old(nodes), names, old(lockq), nodes, lockq)
      ensures HeadWoken(old(nodes), names, old(held), old(lockq), lockq)
    {
      hide HeadWoken, WritersNamed, PassOk, Passed, Outcome, Inv, QueueOk, MarksAwaited, QueueFits, OnlyLocks,
           OthersKept, TurnOf, HoldsOfOthersKept, LeavesMark, FailuresFinal, SameAnswer;
      assert HoldsOfOthersKept(held, held, lockq) by { HoldsSame(held, lockq); }
      var i := 0;
      PassStart(nodes, names, lockq);
      while i < |lockq|
        invariant 0 <= i <= |lockq| == |old(lockq)| && Valid() && QueueFits(nodes, lockq)
        invariant PassOk(old(nodes), names, old(lockq), nodes, lockq, i)
        invariant |held| + 2 * (|lockq| - i) <= MAX_HOLDS && HoldsOfOthersKept(old(held), held, old(lockq))
      {
        PassFacts(old(nodes), names, old(lockq), nodes, lockq, i);
        ghost var before, beforeNodes, beforeHeld := lockq, nodes, held;
        QueueElementWakeup(i);
        HoldsStep(old(held), beforeHeld, held, old(lockq), i);
        PassStep(old(nodes), names, old(lockq), beforeNodes, before, nodes, lockq, i);
        i := i + 1;
      }
      PassFacts(old(nodes), names, old(lockq), nodes, lockq, i);
      HeadFirst(old(nodes), names, dots, old(held), old(lockq), nodes, lockq);
    }

    /** The waiting thread returns from wait_path: its element is finished and leaves the queue. */
    method FinishWait(i: nat) returns (err: Option<Error>, path1: string, path2: string)
      requires Valid() && i < |lockq| && Done(lockq[i])
      modifies this`lockq
      ensures Valid() && lockq == old(lockq)[..i] + old(lockq)[i + 1..]
      ensures err == old(lockq)[i].err
      ensures err.None? ==> HoldsRequested(held, old(lockq)[i], path1, path2)
      ensures err.None? ==> RightPath(nodes, names, old(lockq)[i].p1, path1)
      ensures err.None? && old(lockq)[i].p2.Some? ==> RightPath(nodes, names, old(lockq)[i].p2.value, path2)
      ensures err.Some? ==> Idle(held, lockq, old(lockq)[i].req)
      ensures old(MarksOk()) ==> MarksOk()
    {
      err, path1, path2 := lockq[i].err, lockq[i].path1, lockq[i].path2;
      if MarksOk() {
        LeftMarks(nodes, names, lockq, i);
      }
      assert FlagsOk(held, lockq[i]);
      if err.None? { RequestedRight(nodes, names, dots, held, lockq[i], path1, path2); }
      if err.Some? {
        NowIdle(held, lockq[..i] + lockq[i + 1..], lockq[i].req);
      }
      RemoveElem(nodes, names, dots, held, lockq, i);
      assert ErrOk(nodes, lockq[i]);
      ErrsReplaced(nodes, lockq, i, lockq[i]);
      lockq := lockq[..i] + lockq[i + 1..];
    }

    // -----------------------------------------------------------------------
    // Requests for paths

    /** get_path_common up to the point where it returns or waits: the path is locked at once, or
        the request fails, or it joins the queue. A failed attempt leaves every tree lock as it was,
        but for a mark on the child it wants to write-lock. */
    method GetPathCommon(req: nat, p: PathReq, dot: Option<nat>)
      returns (err: Option<Error>, wnode: Option<Ino>, path: string)
      requires Valid() && Idle(held, lockq, req) && |held| < MAX_HOLDS
      requires PathFits(nodes, p) && KernelKeeps(nodes, names, dots, p, dot)
      modifies this`nodes, this`held, this`lockq
      ensures Valid() && OnlyLocks(old(nodes), nodes)
      ensures err == Verdict(old(nodes), names, old(held), p)
      ensures err == ErrOf(Attempt(old(nodes), names, p)) && nodes == Attempt(old(nodes), names, p).nodes
      ensures err.None? ==> lockq == old(lockq) && PathTaken(old(held), held, names, HoldId(req, First), p, wnode, path)
      ensures err.None? ==> RightPath(nodes, names, p, path)
      ensures err.Some? ==> held == old(held) && OnlyMarked(old(nodes), nodes, WNode(names, p))
      ensures err.Some? ==>
        lockq == if err == Some(EAGAIN) then old(lockq) + [NewElem(req, p, None, dot)] else old(lockq)
      ensures err == Some(ENOENT) ==> nodes == old(nodes)
      ensures old(MarksOk()) ==> MarksOk()
    {
      AttemptGranted(nodes, names, dots, held, p);
      assert WritersNamed(nodes, held);
      hide RightPath, Verdict, FailuresFinal, ChainOf, PathFits, Idle, MarksAwaited, MarkStep, OnlyMarked, Inv,
           QueueOk, TryPath, HasChain, OthersKept, OnlyLocks, MarksAside, Attempt, KernelKeeps, HoldFor, PathText,
           WNode, PathTaken, WritersNamed;
      ghost var was, wasHeld := nodes, held;
      IdleSlots(held, lockq, req);
      err, wnode, path := TryFor(p, req, First, dot);
      AttemptQueued(was, nodes, names, lockq, NewElem(req, p, None, dot), err);
      if err.None? { TakenRight(nodes, names, dots, wasHeld, held, HoldId(req, First), p, wnode, path); }
      QueueIfBusy(NewElem(req, p, None, dot), err, was, wasHeld);
    }

    /** A request that has to wait joins the queue; nothing changes for the others otherwise. */
    method QueueIfBusy(e: Elem, err: Option<Error>, ghost was: Nodes, ghost wasHeld: Held)
      requires Inv(nodes, names, dots, held) && OnlyLocks(was, nodes) && QueueOk(was, names, dots, wasHeld, lockq)
      requires FailuresFinal(was, wasHeld, lockq) && WritersNamed(nodes, held)
      requires OthersKept(wasHeld, held, e.req) && (err.Some? ==> held == wasHeld)
      requires e.PathElem? && e == NewElem(e.req, e.p1, e.p2, e.dot) && Idle(wasHeld, lockq, e.req)
      requires PathFits(was, e.p1) && KernelKeeps(was, names, dots, e.p1, e.dot)
      requires e.p2.Some? ==> PathFits(was, e.p2.value) && KernelKeeps(was, names, dots, e.p2.value, None)
      modifies this`lockq
      ensures Valid() && lockq == if err == Some(EAGAIN) then old(lockq) + [e] else old(lockq)
    {
      hide FailuresFinal, PathFits, Idle, Inv, QueueOk, OthersKept, OnlyLocks, KernelKeeps, WritersNamed;
      if err == Some(EAGAIN) {
        QueuePath(e, was);
      } else {
        PathServed(was, nodes, names, dots, wasHeld, held, lockq, e.req);
      }
    }

    /** queue_path, for a request whose attempt failed: it joins the end of the queue. */
    method QueuePath(e: Elem, ghost was: Nodes)
      requires Inv(nodes, names, dots, held) && OnlyLocks(was, nodes) && QueueOk(was, names, dots, held, lockq)
      requires e.PathElem? && e == NewElem(e.req, e.p1, e.p2, e.dot) && Idle(held, lockq, e.req)
      requires FailuresFinal(was, held, lockq)
      requires PathFits(was, e.p1) && KernelKeeps(was, names, dots, e.p1, e.dot)
      requires e.p2.Some? ==> PathFits(was, e.p2.value) && KernelKeeps(was, names, dots, e.p2.value, None)
      modifies this`lockq
      ensures Valid() && lockq == old(lockq) + [e]
    {
      QueueMoves(was, nodes, names, dots, held, lockq);
      KernelKeepsFrame(was, names, dots, nodes, names, dots, e.p1, e.dot);
      if e.p2.Some? {
        KernelKeepsFrame(was, names, dots, nodes, names, dots, e.p2.value, None);
      }
      AppendElem(nodes, names, dots, held, lockq, e);
      ErrsLocks(was, nodes, lockq);
      WritersLocks(was, nodes, held);
      ErrsReplaced(nodes, lockq, 0, e);
      lockq := lockq + [e];
    }

    /** try_get_path2: both paths are locked, or neither is. */
    method TryGetPath2(req: nat, p1: PathReq, p2: PathReq)
      returns (err: Option<Error>, wnode1: Option<Ino>, wnode2: Option<Ino>, path1: string, path2: string)
      requires Inv(nodes, names, dots, held) && |held| + 2 <= MAX_HOLDS
      requires HoldId(req, First) !in held && HoldId(req, Second) !in held
      requires PathFits(nodes, p1) && KernelKeeps(nodes, names, dots, p1, None)
      requires PathFits(nodes, p2) && KernelKeeps(nodes, names, dots, p2, None)
      modifies this`nodes, this`held
      ensures Inv(nodes, names, dots, held) && OnlyLocks(old(nodes), nodes) && OthersKept(old(held), held, req)
      ensures err == PairErr(old(nodes), names, p1, p2)
      ensures err.None? ==> PairTaken(held, names, req, p1, p2, wnode1, wnode2, path1, path2)
      ensures err.None? ==> nodes == Attempt(Attempt(old(nodes), names, p1).nodes, names, p2).nodes
      ensures err.Some? ==> held == old(held) && PairRefused(old(nodes), nodes, names, p1, p2)
      ensures err != Some(EAGAIN) ==> FewerMarks(old(nodes), nodes)
      ensures old(WritersNamed(nodes, held)) ==> WritersNamed(nodes, held)
    {
      hide Inv, PathFits, KernelKeeps, TryPath, UnlockPath, HasChain, OnlyMarked, WNode, OnlyLocks;
      hide MarkStep, Attempt, FewerMarks, MarksAside, OthersKept, WritersNamed, PathTaken, PairErr, PairRefused, ErrOf;
      ghost var was := nodes;
      wnode2, path2 := None, "";
      err, wnode1, path1 := TrySlot(p1, req, First, None);
      StepFew(was, nodes, WNode(names, p1), err);
      FirstOfPair(was, nodes, names, p1, p2, err);
      if err.None? {
        ghost var mid, midHeld := nodes, held;
        PathFitsFrame(was, nodes, p2);
        KernelKeepsLocks(was, nodes, names, dots, p2);
        err, wnode2, path2 := TrySlot(p2, req, Second, None);
        OnlyLocksTrans(was, mid, nodes);
        StepsFew(was, mid, nodes, WNode(names, p1), WNode(names, p2), err);
        OthersTrans(old(held), midHeld, held, req);
        if err.Some? {
          ghost var failed := nodes;
          GiveBackFirst(req, p1, wnode1, p2, was, old(held), mid);
          if WritersNamed(was, held) { WritersLocks(was, nodes, held); }
          OthersSame(held, req);
          FewTrans(was, failed, nodes);
        }
      }
    }

    /** The error branch of try_get_path2. */
    method GiveBackFirst(req: nat, p1: PathReq, wnode1: Option<Ino>, ghost p2: PathReq,
                         ghost was: Nodes, ghost wasHeld: Held, ghost mid: Nodes)
      requires Inv(nodes, names, dots, held) && Inv(was, names, dots, wasHeld)
      requires HasChain(was, p1.nodeid) && KernelKeeps(was, names, dots, p2, None) && OnlyLocks(was, mid) &&
        OnlyLocks(was, nodes)
      requires HoldId(req, First) !in wasHeld
      requires var c1 := ChainOf(was, p1.nodeid); var r1 := TryPath(was, names, p1, c1);
        && r1.Got? && mid == r1.nodes && wnode1 == WNode(names, p1)
        && held == wasHeld[HoldId(req, First) := HoldFor(was, p1, c1, wnode1, None)]
      requires HasChain(mid, p2.nodeid)
      requires var r2 := TryPath(mid, names, p2, ChainOf(mid, p2.nodeid)); r2.Failed? && nodes == r2.nodes
      modifies this`nodes, this`held
      ensures Inv(nodes, names, dots, held) && OnlyLocks(was, nodes) && held == wasHeld
      ensures PairRefused(was, nodes, names, p1, p2) && FewerMarks(old(nodes), nodes)
    {
      hide Inv, KernelKeeps, TryPath, UnlockPath, HasChain, OnlyMarked, WNode, OnlyLocks;
      ghost var failed := nodes;
      RolledBack2(was, names, dots, wasHeld, p1, p2, mid, nodes, held[HoldId(req, First)]);
      UnlockSlot(p1.nodeid, wnode1, HoldId(req, First));
      OnlyLocksTrans(was, failed, nodes);
      assert held == wasHeld;
    }

    /** get_path2 up to the same point: both paths are locked, or neither is. */
    method GetPath2(req: nat, p1: PathReq, p2: PathReq)
      returns (err: Option<Error>, wnode1: Option<Ino>, wnode2: Option<Ino>, path1: string, path2: string)
      requires Valid() && Idle(held, lockq, req) && |held| + 2 <= MAX_HOLDS
      requires PathFits(nodes, p1) && KernelKeeps(nodes, names, dots, p1, None)
      requires PathFits(nodes, p2) && KernelKeeps(nodes, names, dots, p2, None)
      modifies this`nodes, this`held, this`lockq
      ensures Valid() && OnlyLocks(old(nodes), nodes)
      ensures err == PairVerdict(old(nodes), names, old(held), p1, p2)
      ensures err == PairErr(old(nodes), names, p1, p2)
      ensures err.None? ==> lockq == old(lockq) && PairTaken(held, names, req, p1, p2, wnode1, wnode2, path1, path2)
      ensures err.None? ==> nodes == Attempt(Attempt(old(nodes), names, p1).nodes, names, p2).nodes
      ensures err.None? ==> RightPath(nodes, names, p1, path1) && RightPath(nodes, names, p2, path2)
      ensures err.Some? ==> held == old(held) && PairRefused(old(nodes), nodes, names, p1, p2)
      ensures err.Some? ==>
        lockq == if err == Some(EAGAIN) then old(lockq) + [NewElem(req, p1, Some(p2), None)] else old(lockq)
      ensures err == Some(ENOENT) ==> nodes == old(nodes)
      ensures old(MarksOk()) ==> MarksOk()
    {
      IdleSlots(held, lockq, req);
      PairGranted(nodes, names, dots, held, p1, p2, HoldId(req, First));
      assert WritersNamed(nodes, held);
      hide RightPath, PairVerdict, FailuresFinal, PathFits, WritersNamed, MarksAwaited, FewerMarks, OnlyMarked,
           OnlyLocks, QueueOk, WNode, Inv, KernelKeeps, PairErr, HasChain, OthersKept, PairTaken, PairRefused;
      ghost var was, wasHeld := nodes, held;
      err, wnode1, wnode2, path1, path2 := TryGetPath2(req, p1, p2);
      PairMarks(was, nodes, names, dots, wasHeld, lockq, NewElem(req, p1, Some(p2), None), err);
      if err.None? { PairRight(nodes, names, dots, held, req, p1, p2, wnode1, wnode2, path1, path2); }
      QueueIfBusy(NewElem(req, p1, Some(p2), None), err, was, wasHeld);
    }

    /** free_path and free_path_wrlock: give the path back and let waiting requests try again. */
    method FreePath(nodeid: Ino, wnode: Option<Ino>, ghost req: nat)
      requires Valid() && QueueFits(nodes, lockq) && |held| + 2 * |lockq| <= MAX_HOLDS
      requires HoldId(req, First) in held && held[HoldId(req, First)].target == nodeid &&
        held[HoldId(req, First)].wnode == wnode
      requires HoldId(req, Second) !in held && forall i :: 0 <= i < |lockq| ==> lockq[i].req != req
      modifies this`nodes, this`held, this`lockq
      ensures Valid() && OnlyLocks(old(nodes), nodes) && Idle(held, lockq, req)
      ensures |lockq| == |old(lockq)| && forall j :: 0 <= j < |lockq| ==> SameRequest(old(lockq)[j], lockq[j])
      ensures HoldsOfOthersKept(old(held) - {HoldId(req, First)}, held, old(lockq))
      ensures var freed := UnlockPath(old(nodes), old(held)[HoldId(req, First)]);
        && Passed(freed, names, old(lockq), nodes, lockq)
        && (old(MarksOk()) ==> (MarksOk() <==> NoneLeavesMark(freed, names, old(lockq), |lockq|)))
        && HeadWoken(freed, names, old(held) - {HoldId(req, First)}, old(lockq), lockq)
    {
      hide HeadWoken, Inv, QueueOk, OnlyLocks, Passed, NoneLeavesMark, MarksAwaited, QueueFits, UnlockPath, UnlockReq,
           OthersKept, HasChain, Aside, FewerMarks, WritersNamed, ErrsOk;
      ghost var was, wasHeld := nodes, held;
      UnlockSlot(nodeid, wnode, HoldId(req, First));
      SameRequests(lockq);
      QueueFitsFrame(was, nodes, lockq, lockq);
      QueueStays(was, nodes, names, dots, wasHeld, held, lockq, req);
      NowIdle(held, lockq, req);
      WritersWithout(was, wasHeld, held, req);
      WritersLocks(was, nodes, held);
      ErrsLocks(was, nodes, lockq);
      ghost var freed, q := nodes, lockq;
      NobodyWaits(nodes, names);
      OnlyLocksSame(nodes);
      if |lockq| > 0 {
        WakeUpQueued();
      }
      OnlyLocksTrans(was, freed, nodes);
      PassedMarks(freed, names, q, nodes, lockq, was);
    }

    /** free_path2. */
    method FreePath2(nodeid1: Ino, nodeid2: Ino, wnode1: Option<Ino>, wnode2: Option<Ino>, ghost req: nat)
      requires Valid() && QueueFits(nodes, lockq) && |held| + 2 * |lockq| <= MAX_HOLDS
      requires HoldId(req, First) in held && held[HoldId(req, First)].target == nodeid1 &&
        held[HoldId(req, First)].wnode == wnode1
      requires HoldId(req, Second) in held && held[HoldId(req, Second)].target == nodeid2 &&
        held[HoldId(req, Second)].wnode == wnode2
      requires forall i :: 0 <= i < |lockq| ==> lockq[i].req != req
      modifies this`nodes, this`held, this`lockq
      ensures Valid() && OnlyLocks(old(nodes), nodes) && Idle(held, lockq, req)
      ensures |lockq| == |old(lockq)| && forall j :: 0 <= j < |lockq| ==> SameRequest(old(lockq)[j], lockq[j])
      ensures HoldsOfOthersKept(old(held) - {HoldId(req, First), HoldId(req, Second)}, held, old(lockq))
      ensures var first, second := old(held)[HoldId(req, First)], old(held)[HoldId(req, Second)];
        var freed := UnlockPath(UnlockPath(old(nodes), first), second);
        && Passed(freed, names, old(lockq), nodes, lockq)
        && (old(MarksOk()) ==> (MarksOk() <==> NoneLeavesMark(freed, names, old(lockq), |lockq|)))
        && HeadWoken(freed, names, old(held) - {HoldId(req, First), HoldId(req, Second)}, old(lockq), lockq)
    {
      hide HeadWoken, Inv, QueueOk, OnlyLocks, Passed, NoneLeavesMark, MarksAwaited, QueueFits, UnlockPath, UnlockReq,
           OthersKept, HasChain, Aside, FewerMarks, WritersNamed, ErrsOk;
      ghost var was, wasHeld := nodes, held;
      UnlockSlot(nodeid1, wnode1, HoldId(req, First));
      ghost var mid, midHeld := nodes, held;
      UnlockSlot(nodeid2, wnode2, HoldId(req, Second));
      OnlyLocksTrans(was, mid, nodes);
      FewTrans(was, mid, nodes);
      OthersTrans(wasHeld, midHeld, held, req);
      assert held == wasHeld - {HoldId(req, First), HoldId(req, Second)};
      SameRequests(lockq);
      QueueFitsFrame(was, nodes, lockq, lockq);
      QueueStays(was, nodes, names, dots, wasHeld, held, lockq, req);
      NowIdle(held, lockq, req);
      WritersWithout(was, wasHeld, held, req);
      WritersLocks(was, nodes, held);
      ErrsLocks(was, nodes, lockq);
      ghost var freed, q := nodes, lockq;
      WakeUpQueued();
      PassedMarks(freed, names, q, nodes, lockq, was);
      OnlyLocksTrans(was, freed, nodes);
    }

    // -----------------------------------------------------------------------
    // find_node, forget_node and "." lookups

    /** find_node; `alloc` and `copy` say whether a new node and its name can be allocated, `memory` whether
        the tables can grow. */
    method FindNode(parent: Ino, name: Option<string>, alloc: bool, copy: bool, memory: Which -> bool)
      returns (n: Option<Ino>)
      requires Valid() && IdsOk() && TablesOk() && parent in nodes
      requires name.Some? && Link(parent, name.value) !in names ==> |nodes| < WRAP - 2
      modifies this`nodes, this`names, this`generations, this`lookups, ids, tables.Repr
      ensures Valid() && IdsOk()
      ensures var found := if name.None? then Some(parent) else Lookup(old(names), parent, name.value);
        if found.Some? then
          && n == found && n.value in old(nodes) && n.value in nodes && LookedUp(old(nodes)[n.value], nodes[n.value])
          && nodes == old(nodes)[n.value := IncLookup(old(nodes)[n.value])]
          && names == old(names) && generations == old(generations) && ids.issued == old(ids.issued)
        else if alloc && copy then
          && n.Some? && n.value in nodes && n.value in generations
          && nodes[n.value] == Node(Some(Link(parent, name.value)), 1, 1, 0)
          && NodeAdded(old(nodes), nodes, old(names), names, n.value, Link(parent, name.value))
          && generations == old(generations)[n.value := generations[n.value]]
          && Issued(old(ids.pos), old(ids.issued), old(nodes).Keys, ids.pos, ids.issued, n.value, generations[n.value])
        else
          n.None? && nodes == old(nodes) && names == old(names)
      ensures lookups == if n.None? then old(lookups) else old(lookups)[n.value := LookupsOf(old(lookups), n.value) + 1]
      ensures old(LookupsOk()) ==> LookupsOk()
      ensures old(MarksOk()) ==> MarksOk()
      ensures TablesOk() && fresh(tables.Repr - old(tables.Repr)) && tables.pending == old(tables.pending)
      ensures old(tables.Loaded()) && memory(IdTable) && memory(NameTable) ==> tables.Loaded()
    {
      hide Fuse.TablesOk, Fuse.NamesHashed, Tables.Valid, Tables.Loaded, IdGenerator.Valid, Inv, QueueOk, Issued, Known,
           MarksAwaited, Wanted, FailuresFinal, NodeAdded;
      if name.None? {
        n := Some(parent);
      } else {
        n := LookupNode(parent, name.value);
      }
      if n.Some? {
        Found(nodes, names, dots, held, parent, name);
        FoundNode(n.value);
      } else if alloc {
        n := NewNode(parent, name.value, copy, memory);
      }
    }

    /** The branch of find_node for a node that is there. */
    method FoundNode(n: Ino)
      requires Valid() && TablesOk() && n in nodes
      modifies this`nodes, this`lookups
      ensures Valid() && TablesOk() && nodes == old(nodes)[n := IncLookup(old(nodes)[n])]
      ensures LookedUp(old(nodes)[n], nodes[n]) && lookups == old(lookups)[n := LookupsOf(old(lookups), n) + 1]
      ensures old(LookupsOk()) ==> LookupsOk()
      ensures old(MarksOk()) ==> MarksOk()
      ensures old(IdsOk()) ==> IdsOk()
    {
      hide LookupsAre, Fuse.TablesOk, Fuse.NamesHashed, Tables.Valid, Inv, QueueOk, MarksAwaited, Wanted, Known;
      ghost var was := nodes;
      IncLookupInv(nodes, names, dots, held, n);
      CountLookup(n);
      QueueUnmoved(was, names, dots, nodes, names, dots, held, lockq);
    }

    /** lookup_node. */
    method LookupNode(parent: Ino, name: string) returns (n: Option<Ino>)
      requires TablesOk()
      ensures n == Lookup(names, parent, name)
    {
      n := tables.FindName(Link(parent, name));
    }

    /** inc_nlookup. */
    method CountLookup(n: Ino)
      requires TablesOk() && n in nodes
      modifies this`nodes, this`lookups
      ensures lookups == old(lookups)[n := LookupsOf(old(lookups), n) + 1]
      ensures old(LookupsOk()) ==> LookupsOk()
      ensures TablesOk() && nodes == old(nodes)[n := IncLookup(old(nodes)[n])]
    {
      OneMoreLookup(nodes, n, lookups);
      hide LookupsAre, Tables.Valid;
      nodes := nodes[n := IncLookup(nodes[n])];
      lookups := lookups[n := LookupsOf(lookups, n) + 1];
    }

    /** The branch of find_node for a name that is not there. */
    method NewNode(parent: Ino, name: string, copy: bool, memory: Which -> bool) returns (n: Option<Ino>)
      requires Valid() && IdsOk() && parent in nodes && |nodes| < WRAP - 2
      requires Link(parent, name) !in names && TablesOk()
      modifies this`nodes, this`names, this`generations, this`lookups, ids, tables.Repr
      ensures Valid() && IdsOk() && (n.Some? <==> copy)
      ensures old(MarksOk()) ==> MarksOk()
      ensures n.Some? ==>
        && n.value in nodes && n.value in generations
        && nodes[n.value] == Node(Some(Link(parent, name)), 1, 1, 0)
        && NodeAdded(old(nodes), nodes, old(names), names, n.value, Link(parent, name))
        && generations == old(generations)[n.value := generations[n.value]]
        && Issued(old(ids.pos), old(ids.issued), old(nodes).Keys, ids.pos, ids.issued, n.value, generations[n.value])
      ensures n.Some? ==> lookups == old(lookups)[n.value := LookupsOf(old(lookups), n.value) + 1]
      ensures n.None? ==> lookups == old(lookups)
      ensures old(LookupsOk()) ==> LookupsOk()
      ensures n.None? ==> nodes == old(nodes) && names == old(names)
      ensures TablesOk() && fresh(tables.Repr - old(tables.Repr)) && tables.pending == old(tables.pending)
      ensures old(tables.Loaded()) && memory(IdTable) && memory(NameTable) ==> tables.Loaded()
      ensures held == old(held) && lockq == old(lockq) && dots == old(dots)
    {
      hide LookupsAre, Tables.Valid, Tables.Loaded, Inv, Known, AllKnown, AddNode, NodeAdded, IdGenerator.Valid,
           QueueOk, MarksAwaited, FailuresFinal;
      ghost var was, wasNames := nodes, names;
      var newid := NewId();
      var ok := Enter(newid, parent, name, copy, memory);
      n := None;
      if ok {
        Entered(was, wasNames, nodes, names, dots, held, lockq, newid, Link(parent, name), generations, ids.issued);
        n := Some(newid);
        NewLookups(was, nodes, lookups, newid);
        lookups := lookups[newid := LookupsOf(lookups, newid) + 1];
      }
    }

    /** The new node gets its name and enters both tables. */
    method Enter(n: Ino, parent: Ino, name: string, copy: bool, memory: Which -> bool) returns (ok: bool)
      requires TablesOk() && n !in nodes && parent in nodes && Link(parent, name) !in names
      modifies this`nodes, this`names, tables.Repr
      ensures ok == copy
      ensures ok ==> NodeAdded(old(nodes), nodes, old(names), names, n, Link(parent, name))
      ensures !ok ==> nodes == old(nodes) && names == old(names)
      ensures TablesOk() && fresh(tables.Repr - old(tables.Repr)) && tables.pending == old(tables.pending)
      ensures old(tables.Loaded()) && memory(IdTable) && memory(NameTable) ==> tables.Loaded()
    {
      hide Tables.Valid, Tables.Loaded, AddNode, LinkIn, NodeAdded;
      ghost var was := nodes;
      nodes := nodes[n := Node(None, 0, 0, 0)];
      LinkInKeys(nodes, n, Link(parent, name));
      ok := HashName(n, parent, name, copy, memory(NameTable));
      if ok {
        tables.AddId(n, memory(IdTable));
        nodes := nodes[n := IncLookup(nodes[n])];
        NewNodeAdded(was, old(names), n, Link(parent, name));
      } else {
        nodes := nodes - {n};
        assert nodes == was;
      }
    }

    /** The id and the generation of a new node. */
    method NewId() returns (n: Ino)
      requires IdsOk() && |nodes| < WRAP - 2
      modifies this`generations, ids
      ensures IdsOk() && n in generations && Known(ids.issued, n, generations[n])
      ensures generations == old(generations)[n := generations[n]]
      ensures Issued(old(ids.pos), old(ids.issued), nodes.Keys, ids.pos, ids.issued, n, generations[n])
    {
      ghost var free := FreeIdExists(nodes.Keys);
      n := ids.NextId(nodes.Keys, free);
      generations := generations[n := ids.generation];
      assert ids.issued[|ids.issued| - 1] == ids.pos;
      forall m | m in nodes && m != ROOT ensures m in generations && Known(ids.issued, m, generations[m]) {
        assert Known(old(ids.issued), m, generations[m]);
        KnownStill(old(ids.issued), ids.pos, m, generations[m]);
      }
    }

    /** hash_name; without room for a copy of the name nothing changes. */
    method HashName(n: Ino, parent: Ino, name: string, copy: bool, memory: bool) returns (ok: bool)
      requires n in nodes && parent in nodes && n != parent
      requires NamesHashed() && Link(parent, name) !in names
      modifies this`nodes, this`names, tables.Repr
      ensures ok == copy
      ensures ok ==> nodes == LinkIn(old(nodes), n, Link(parent, name)) && names == old(names)[Link(parent, name) := n]
      ensures !ok ==> nodes == old(nodes) && names == old(names) && tables.Repr == old(tables.Repr)
      ensures NamesHashed() && fresh(tables.Repr - old(tables.Repr)) && tables.pending == old(tables.pending)
      ensures tables.ids == old(tables.ids) && (old(tables.Loaded()) && memory ==> tables.Loaded())
    {
      hide Tables.Valid, Tables.Loaded;
      if !copy {
        return false;
      }
      nodes := nodes[parent := nodes[parent].(refctr := nodes[parent].refctr + 1)];
      nodes := nodes[n := nodes[n].(link := Some(Link(parent, name)))];
      names := names[Link(parent, name) := n];
      tables.AddName(Link(parent, name), n, memory);
      return true;
    }

    /** Whether forget_node has to wait: the last lookups go, but the node is still locked. */
    predicate MustWait(n: Ino, k: nat)
      requires n in nodes
      reads this
    {
      nodes[n].nlookup == k && nodes[n].treelock != 0
    }

    /** forget_node: `k` lookups go at once, or the forget joins the queue. */
    method ForgetNode(req: nat, n: Ino, k: nat, memory: Memory) returns (waits: bool)
      requires Valid() && n in nodes && 1 <= k && (n != ROOT ==> k <= nodes[n].nlookup)
      requires Idle(held, lockq, req) && LookupsOk()
      requires n != ROOT ==> MayForget(nodes, names, dots, n, k, lockq)
      requires TablesOk()
      modifies this`nodes, this`lookups, this`names, this`lockq, tables.Repr
      ensures Valid()
      ensures waits <==> n != ROOT && old(nodes[n].nlookup) == k && old(nodes[n].treelock) != 0
      ensures LookupsOk()
      ensures lookups == if waits || n == ROOT then old(lookups) else Fewer(old(lookups), n, k)
      ensures waits ==> lockq == old(lockq) + [ForgetElem(req, n, k)]
      ensures waits || n == ROOT ==> nodes == old(nodes) && names == old(names)
      ensures !waits ==> lockq == old(lockq)
      ensures !waits && n != ROOT ==> Forgotten(old(nodes), old(names), nodes, names, n, k)
      ensures old(MarksOk()) ==> MarksOk()
      ensures old(IdsOk()) ==> IdsOk()
      ensures TablesOk() && fresh(tables.Repr - old(tables.Repr)) && tables.pending == old(tables.pending)
      ensures old(tables.Loaded()) ==> tables.Loaded()
    {
      hide Tables.Valid, Tables.Loaded;
      if n == ROOT {
        return false;
      }
      waits := MustWait(n, k);
      if waits {
        AppendElem(nodes, names, dots, held, lockq, ForgetElem(req, n, k));
        ErrsReplaced(nodes, lockq, 0, ForgetElem(req, n, k));
        if MarksOk() {
          NewElemMarks(nodes, nodes, names, lockq, ForgetElem(req, n, k));
        }
        lockq := lockq + [ForgetElem(req, n, k)];
      } else {
        DropLookups(n, k, memory);
      }
    }

    /** A waiting forget is woken: it looks again, and goes on waiting or leaves the queue. */
    method ForgetResume(i: nat, memory: Memory) returns (waits: bool)
      requires Valid() && i < |lockq| && lockq[i].ForgetElem? && LookupsOk()
      requires MayForget(nodes, names, dots, lockq[i].nodeid, lockq[i].nlookup, lockq[..i] + lockq[i + 1..])
      requires TablesOk()
      modifies this`nodes, this`lookups, this`names, this`lockq, tables.Repr
      ensures Valid() && old(lockq)[i].nodeid in old(nodes)
      ensures var n := old(lockq)[i].nodeid;
        waits <==> old(nodes)[n].nlookup == old(lockq)[i].nlookup && old(nodes)[n].treelock != 0
      ensures LookupsOk()
      ensures var n, k := old(lockq)[i].nodeid, old(lockq)[i].nlookup;
        lookups == if waits then old(lookups) else Fewer(old(lookups), n, k)
      ensures waits ==> lockq == old(lockq) && nodes == old(nodes) && names == old(names)
      ensures !waits ==> lockq == old(lockq)[..i] + old(lockq)[i + 1..]
      ensures !waits ==> Forgotten(old(nodes), old(names), nodes, names, old(lockq)[i].nodeid, old(lockq)[i].nlookup)
      ensures old(MarksOk()) ==> MarksOk()
      ensures old(IdsOk()) ==> IdsOk()
      ensures TablesOk() && fresh(tables.Repr - old(tables.Repr)) && tables.pending == old(tables.pending)
      ensures old(tables.Loaded()) ==> tables.Loaded()
    {
      hide Tables.Valid, Tables.Loaded;
      var qe := lockq[i];
      assert ElemKept(nodes, names, dots, qe);
      waits := MustWait(qe.nodeid, qe.nlookup);
      if !waits {
        RemoveElem(nodes, names, dots, held, lockq, i);
        ErrsReplaced(nodes, lockq, i, qe);
        if MarksOk() {
          LeftMarks(nodes, names, lockq, i);
        }
        lockq := lockq[..i] + lockq[i + 1..];
        DropLookups(qe.nodeid, qe.nlookup, memory);
      }
    }

    /** The end of forget_node. */
    method DropLookups(n: Ino, k: nat, memory: Memory)
      requires Valid() && n in nodes && n != ROOT && 1 <= k <= nodes[n].nlookup && !MustWait(n, k)
      requires AllElemsKept(AfterForget(nodes, n, k), names, dots, lockq)
      requires TablesOk()
      modifies this`nodes, this`lookups, this`names, tables.Repr
      ensures Valid() && Forgotten(old(nodes), old(names), nodes, names, n, k)
      ensures lookups == Fewer(old(lookups), n, k)
      ensures old(LookupsOk()) ==> LookupsOk()
      ensures old(MarksOk()) ==> MarksOk()
      ensures old(IdsOk()) ==> IdsOk()
      ensures TablesOk() && fresh(tables.Repr - old(tables.Repr)) && tables.pending == old(tables.pending)
      ensures old(tables.Loaded()) ==> tables.Loaded()
    {
      hide Fuse.TablesOk, Fuse.LookupsOk, Fuse.IdsOk, Fuse.MarksOk, Fuse.Valid, Tables.Valid, Tables.Loaded,
           Forgotten, Fewer;
      if nodes[n].nlookup == k {
        DropLast(n, k, memory);
      } else {
        DropSome(n, k);
      }
    }

    /** Some lookups are left. */
    method DropSome(n: Ino, k: nat)
      requires Valid() && n in nodes && n != ROOT && 1 <= k < nodes[n].nlookup && TablesOk()
      requires AllElemsKept(AfterForget(nodes, n, k), names, dots, lockq)
      modifies this`nodes, this`lookups
      ensures Valid() && TablesOk() && Forgotten(old(nodes), names, nodes, names, n, k)
      ensures lookups == Fewer(old(lookups), n, k)
      ensures old(LookupsOk()) ==> LookupsOk()
      ensures old(MarksOk()) ==> MarksOk()
      ensures old(IdsOk()) ==> IdsOk()
    {
      ForgetAll(nodes, names, dots, held, lockq, n, k);
      hide Fuse.TablesOk, Fuse.NamesHashed, Fuse.LookupsOk, Fuse.IdsOk, Tables.Valid, Inv, QueueOk, MarksAwaited,
           FailuresFinal, Fewer;
      CountForget(n, k);
    }

    /** The last lookups go, and the reference with them. */
    method DropLast(n: Ino, k: nat, memory: Memory)
      requires Valid() && n in nodes && n != ROOT && 1 <= k == nodes[n].nlookup && nodes[n].treelock == 0
      requires AllElemsKept(AfterForget(nodes, n, k), names, dots, lockq)
      requires TablesOk()
      modifies this`nodes, this`lookups, this`names, tables.Repr
      ensures Valid() && Forgotten(old(nodes), old(names), nodes, names, n, k)
      ensures lookups == Fewer(old(lookups), n, k)
      ensures old(LookupsOk()) ==> LookupsOk()
      ensures old(MarksOk()) ==> MarksOk()
      ensures old(IdsOk()) ==> IdsOk()
      ensures TablesOk() && fresh(tables.Repr - old(tables.Repr)) && tables.pending == old(tables.pending)
      ensures old(tables.Loaded()) ==> tables.Loaded()
    {
      ForgetAll(nodes, names, dots, held, lockq, n, k);
      hide Fuse.TablesOk, Fuse.NamesHashed, Fuse.LookupsOk, Fuse.IdsOk, Tables.Valid, Tables.Loaded, InvOwing, Inv,
           QueueOk, MarksAwaited, FailuresFinal, Fewer, AfterForget, Release, HasChain;
      CountForget(n, k);
      DropReference(n, memory);
    }

    /** The lookups that are given up. */
    method CountForget(n: Ino, k: nat)
      requires n in nodes && n != ROOT && k <= nodes[n].nlookup && TablesOk()
      modifies this`nodes, this`lookups
      ensures nodes == AfterForget(old(nodes), n, k) && lookups == Fewer(old(lookups), n, k) && TablesOk()
      ensures old(LookupsOk()) ==> LookupsOk()
      ensures old(IdsOk()) ==> IdsOk()
    {
      hide Tables.Valid, LookupsAre, Known;
      FewerLookups(nodes, n, k, lookups);
      nodes := AfterForget(nodes, n, k);
      lookups := Fewer(lookups, n, k);
    }

    /** unref_node at the top of the call stack. */
    method DropReference(n: Ino, memory: Memory)
      requires InvOwing(nodes, names, dots, held, n) && QueueOk(nodes, names, dots, held, lockq)
      requires FailuresFinal(nodes, held, lockq)
      requires TablesOk()
      modifies this`nodes, this`names, tables.Repr
      ensures Valid() && HasChain(old(nodes), n)
      ensures (nodes, names) == Release(old(nodes), old(names), n, ChainOf(old(nodes), n))
      ensures old(MarksOk()) ==> MarksOk()
      ensures old(IdsOk()) ==> IdsOk()
      ensures TablesOk() && fresh(tables.Repr - old(tables.Repr)) && tables.pending == old(tables.pending)
      ensures old(tables.Loaded()) ==> tables.Loaded()
      ensures old(LookupsOk()) ==> LookupsOk()
    {
      ghost var c := ChainOf(nodes, n);
      ReleaseAll(nodes, names, dots, held, lockq, n, c);
      hide LookupsAre, Fuse.TablesOk, Fuse.NamesHashed, Fuse.IdsOk, Tables.Valid, Tables.Loaded, InvOwing, Inv, QueueOk,
           MarksAwaited, FailuresFinal, Release, Deletable;
      ghost var was := nodes;
      Cascade(n, memory, c);
      SameLookups(was, nodes, lookups);
    }

    /** ... which touches nodes, names and tables only. */
    method Cascade(n: Ino, memory: Memory, ghost c: seq<Ino>)
      requires TablesOk() && Chain(nodes, n, c) && Deletable(nodes, names, n, c)
      modifies this`nodes, this`names, tables.Repr
      ensures (nodes, names) == Release(old(nodes), old(names), n, c)
      ensures lookups == old(lookups) && held == old(held) && lockq == old(lockq) && dots == old(dots)
      ensures old(IdsOk()) && nodes.Keys <= old(nodes).Keys ==> IdsOk()
      ensures TablesOk() && fresh(tables.Repr - old(tables.Repr)) && tables.pending == old(tables.pending)
      ensures old(tables.Loaded()) ==> tables.Loaded()
    {
      hide Tables.Valid, Tables.Loaded, Release, Deletable, Known, Chain;
      assert nodes - {} == nodes;
      UnrefNode(n, memory, c, {});
      assert nodes - {} == nodes;
    }

    /** The "." branch of fuse_lib_lookup takes a reference of its own. */
    method LookupDotBegin(n: Ino, ghost r: nat) returns (found: bool)
      requires Valid() && TablesOk() && r !in dots
      modifies this`nodes, this`dots
      ensures Valid() && (found <==> n in old(nodes))
      ensures !found ==> dots == old(dots) && nodes == old(nodes)
      ensures found ==>
        dots == old(dots)[r := n] && nodes == old(nodes)[n := old(nodes)[n].(refctr := old(nodes)[n].refctr + 1)]
      ensures old(MarksOk()) ==> MarksOk()
      ensures old(IdsOk()) ==> IdsOk()
      ensures TablesOk()
      ensures old(LookupsOk()) ==> LookupsOk()
    {
      hide Tables.Valid, Tables.Loaded, Known, FailuresFinal, Inv, QueueOk, MarksAwaited;
      found := tables.HasId(n);
      if found {
        ghost var was, wasDots := nodes, dots;
        DotBeginInv(nodes, names, dots, held, r, n);
        nodes := nodes[n := nodes[n].(refctr := nodes[n].refctr + 1)];
        dots := dots[r := n];
        QueueUnmoved(was, names, wasDots, nodes, names, dots, held, lockq);
      }
    }

    /** ... and drops it at the end, after the path has been given back. */
    method LookupDotEnd(n: Ino, memory: Memory, ghost r: nat)
      requires Valid() && r in dots && dots[r] == n
      requires forall h :: h in held ==> held[h].dot != Some(r)
      requires forall i :: 0 <= i < |lockq| && lockq[i].PathElem? ==> lockq[i].dot != Some(r)
      requires TablesOk()
      modifies this`nodes, this`names, this`dots, tables.Repr
      ensures Valid() && dots == old(dots) - {r} && HasChain(old(nodes), n)
      ensures (nodes, names) == Release(old(nodes), old(names), n, ChainOf(old(nodes), n))
      ensures old(MarksOk()) ==> MarksOk()
      ensures old(IdsOk()) ==> IdsOk()
      ensures TablesOk() && fresh(tables.Repr - old(tables.Repr)) && tables.pending == old(tables.pending)
      ensures old(tables.Loaded()) ==> tables.Loaded()
      ensures old(LookupsOk()) ==> LookupsOk()
    {
      hide Tables.Valid, Tables.Loaded;
      ghost var wasDots := dots;
      DotEndInv(nodes, names, dots, held, r);
      dots := dots - {r};
      AllElemsFrame(nodes, names, wasDots, nodes, names, dots, lockq);
      DropReference(n, memory);
    }

    // -----------------------------------------------------------------------
    // remove_node and rename_node

    /** unhash_name for a node whose directory's path the caller holds, together with the write lock
        on the node. */
    method UnlinkNode(n: Ino, memory: Memory, ghost h: HoldId, ghost hp: HoldId)
      requires Valid() && n in nodes && nodes[n].link.Some?
      requires h in held && held[h].wnode == Some(n) && hp in held && held[hp].target == nodes[n].link.value.parent
      requires TablesOk()
      modifies this`nodes, this`names, tables.Repr
      ensures Valid() && names == old(names) - {old(nodes)[n].link.value}
      ensures Relinked(old(nodes), nodes, n, None)
      ensures old(MarksOk()) ==> MarksOk()
      ensures old(IdsOk()) ==> IdsOk()
      ensures TablesOk() && fresh(tables.Repr - old(tables.Repr)) && tables.pending == old(tables.pending)
      ensures old(tables.Loaded()) ==> tables.Loaded()
      ensures held == old(held) && lockq == old(lockq) && dots == old(dots)
      ensures old(LookupsOk()) ==> LookupsOk()
    {
      ghost var d := UnlinkAll(nodes, names, dots, held, lockq, n, h, hp);
      hide LookupsAre, Fuse.TablesOk, Fuse.NamesHashed, Fuse.IdsOk, Tables.Valid, Tables.Loaded, Inv, QueueOk,
           MarksAwaited, FailuresFinal, Relinked, Leavable, Unlink, Chain;
      ghost var was := nodes;
      TakeName(n, memory, d);
      RelinkedLookups(was, nodes, n, lookups);
    }

    /** ... which touches nodes, names and tables only. */
    method TakeName(n: Ino, memory: Memory, ghost d: seq<Ino>)
      requires TablesOk() && n in nodes && nodes[n].link.Some? && Chain(Cut(nodes, n), nodes[n].link.value.parent, d)
      requires Leavable(nodes, names, n, [n] + d)
      requires var r := Without(nodes, names, n, [n] + d);
        Unlink(nodes, names, n, d) == (r.0[n := nodes[n].(link := None)], r.1)
      modifies this`nodes, this`names, tables.Repr
      ensures (nodes, names) == Unlink(old(nodes), old(names), n, d)
      ensures lookups == old(lookups) && held == old(held) && lockq == old(lockq) && dots == old(dots)
      ensures old(IdsOk()) && nodes.Keys <= old(nodes).Keys ==> IdsOk()
      ensures TablesOk() && fresh(tables.Repr - old(tables.Repr)) && tables.pending == old(tables.pending)
      ensures old(tables.Loaded()) ==> tables.Loaded()
    {
      hide Tables.Valid, Tables.Loaded, Leavable, Without, Unlink, Known, Chain;
      assert nodes - {} == nodes;
      UnhashName(n, memory, [n] + d, {});
      assert nodes - ({} + {n}) == nodes - {n};
      assert nodes == (nodes - {n})[n := nodes[n]];
    }

    /** remove_node, by a request that holds the directory's path and the write lock on the child. */
    method RemoveNode(dir: Ino, name: string, memory: Memory, ghost h: HoldId)
      requires Valid() && h in held && held[h].target == dir && held[h].wnode == Lookup(names, dir, name)
      requires TablesOk()
      modifies this`nodes, this`names, tables.Repr
      ensures Valid() && names == old(names) - {Link(dir, name)} && nodes.Keys == old(nodes).Keys
      ensures forall m :: m in nodes ==> nodes[m] == old(nodes)[m].(refctr := nodes[m].refctr,
        link := if old(nodes)[m].link == Some(Link(dir, name)) then None else old(nodes)[m].link)
      ensures old(MarksOk()) ==> MarksOk()
      ensures old(IdsOk()) ==> IdsOk()
      ensures TablesOk() && fresh(tables.Repr - old(tables.Repr)) && tables.pending == old(tables.pending)
      ensures old(tables.Loaded()) ==> tables.Loaded()
      ensures old(LookupsOk()) ==> LookupsOk()
    {
      hide Fuse.TablesOk, Fuse.NamesHashed, Tables.Valid, Tables.Loaded;
      var node := LookupNode(dir, name);
      NamesUnique(nodes, names, Link(dir, name));
      if node.Some? {
        assert NameOk(nodes, names, Link(dir, name));
        UnlinkNode(node.value, memory, h, h);
      }
    }

    /** rename_node. A plain rename holds both directories' paths and both children's write locks; a
        hiding rename stays in one directory, holds one, and refuses to replace anything. Without room
        for a copy of the new name the node is left without a name. `hashes` says whether the name table can
        grow, `memory` whether it can be moved when it shrinks. */
    method RenameNode(olddir: Ino, oldname: string, newdir: Ino, newname: string, hiding: bool, copy: bool,
                      hashes: bool, memory: Memory, ghost h1: HoldId, ghost h2: HoldId)
      returns (err: Option<RenameError>)
      requires Valid() && h1 in held && held[h1].target == olddir && held[h1].wnode == Lookup(names, olddir, oldname)
      requires h2 in held && held[h2].target == newdir && h1.req == h2.req
      requires !hiding && Lookup(names, newdir, newname).Some? ==>
        h1 != h2 && held[h2].wnode == Lookup(names, newdir, newname)
      requires TablesOk()
      modifies this`nodes, this`names, tables.Repr
      ensures Valid() && nodes.Keys == old(nodes).Keys
      ensures var ol, nl := Link(olddir, oldname), Link(newdir, newname);
        && (err == Some(EBUSY) <==> hiding && ol in old(names) && nl in old(names))
        && (err == Some(ENOMEM) <==> err != Some(EBUSY) && ol in old(names) && !copy)
        && (err == Some(EBUSY) || ol !in old(names) ==> nodes == old(nodes) && names == old(names))
        && (err != Some(EBUSY) && ol in old(names) ==> Renamed(old(nodes), old(names), nodes, names, ol, nl, copy))
      ensures old(MarksOk()) ==> MarksOk()
      ensures old(IdsOk()) ==> IdsOk()
      ensures TablesOk() && fresh(tables.Repr - old(tables.Repr)) && tables.pending == old(tables.pending)
      ensures old(tables.Loaded()) && hashes ==> tables.Loaded()
      ensures old(LookupsOk()) ==> LookupsOk()
    {
      hide Fuse.TablesOk, Fuse.NamesHashed, Tables.Valid, Tables.Loaded;
      var node := LookupNode(olddir, oldname);
      var newnode := LookupNode(newdir, newname);
      err := None;
      if node.None? {
        return;
      }
      hide Inv, QueueOk, MarksAwaited, AllKnown, Renamed, FailuresFinal, Known;
      ghost var ol, nl := Link(olddir, oldname), Link(newdir, newname);
      RenameReady(nodes, names, dots, held, ol, nl, h1, h2);
      if newnode.Some? && hiding {
        return Some(EBUSY);
      }
      var ok := Supplant(node.value, newnode, newdir, newname, copy, hashes, memory, ol, h1, h2);
      err := if ok then None else Some(ENOMEM);
    }

    /** The part of rename_node that changes names: what bears the new name loses it, and the node takes it. */
    method Supplant(n: Ino, newnode: Option<Ino>, newdir: Ino, newname: string, copy: bool, hashes: bool,
                    memory: Memory, ghost ol: Link, ghost h1: HoldId, ghost h2: HoldId) returns (ok: bool)
      requires Valid() && TablesOk() && ol in names && names[ol] == n && n in nodes && nodes[n].link == Some(ol)
      requires newnode == Lookup(names, newdir, newname) && ol != Link(newdir, newname) && h1.req == h2.req
      requires h1 in held && held[h1].target == ol.parent && held[h1].wnode == Some(n) && h2 in held
      requires held[h2].target == newdir
      requires newnode.Some? ==>
        && newnode.value != n && newnode.value in nodes && nodes[newnode.value].link == Some(Link(newdir, newname))
        && held[h2].wnode == newnode
      modifies this`nodes, this`names, tables.Repr
      ensures Valid() && ok == copy && nodes.Keys == old(nodes).Keys
      ensures Renamed(old(nodes), old(names), nodes, names, ol, Link(newdir, newname), copy)
      ensures old(MarksOk()) ==> MarksOk()
      ensures old(IdsOk()) ==> IdsOk()
      ensures TablesOk() && fresh(tables.Repr - old(tables.Repr)) && tables.pending == old(tables.pending)
      ensures old(tables.Loaded()) && hashes ==> tables.Loaded()
      ensures old(LookupsOk()) ==> LookupsOk()
    {
      assert Tree(nodes, names);
      hide Fuse.TablesOk, Fuse.NamesHashed, Tables.Valid, Tables.Loaded, Inv, QueueOk, MarksAwaited, AllKnown, Renamed,
           HoldOk, Relinked, Cleared, FailuresFinal;
      ghost var was, wasNames := nodes, names;
      ClearName(newnode, memory, h2);
      OtherName(was, wasNames, nodes, names, newnode, n);
      ghost var mid, midNames := nodes, names;
      ok := MoveNode(n, newdir, newname, copy, hashes, memory, h1, h2);
      RenameSteps(was, wasNames, mid, midNames, nodes, names, ol, Link(newdir, newname), copy);
    }

    /** What is in the way of a rename loses its name. */
    method ClearName(n: Option<Ino>, memory: Memory, ghost h: HoldId)
      requires Valid() && TablesOk()
      requires n.Some? ==>
        && n.value in nodes && nodes[n.value].link.Some? && h in held && held[h].wnode == n
        && held[h].target == nodes[n.value].link.value.parent
      modifies this`nodes, this`names, tables.Repr
      ensures Valid() && Cleared(old(nodes), old(names), nodes, names, n)
      ensures held == old(held) && lockq == old(lockq) && dots == old(dots)
      ensures old(MarksOk()) ==> MarksOk()
      ensures old(IdsOk()) ==> IdsOk()
      ensures TablesOk() && fresh(tables.Repr - old(tables.Repr)) && tables.pending == old(tables.pending)
      ensures old(tables.Loaded()) ==> tables.Loaded()
      ensures old(LookupsOk()) ==> LookupsOk()
    {
      hide Fuse.TablesOk, Fuse.NamesHashed, Tables.Valid, Tables.Loaded, Inv, QueueOk, MarksAwaited, AllKnown,
           FailuresFinal, Relinked;
      if n.Some? {
        UnlinkNode(n.value, memory, h, h);
      }
    }

    /** The last steps of rename_node: the node leaves its old name and takes the new one. */
    method MoveNode(n: Ino, newdir: Ino, newname: string, copy: bool, hashes: bool, memory: Memory, ghost h1: HoldId,
                    ghost h2: HoldId) returns (ok: bool)
      requires Valid() && n in nodes && nodes[n].link.Some?
      requires h1 in held && held[h1].target == nodes[n].link.value.parent && held[h1].wnode == Some(n)
      requires h2 in held && held[h2].target == newdir && h1.req == h2.req
      requires Link(newdir, newname) !in names
      requires TablesOk()
      modifies this`nodes, this`names, tables.Repr
      ensures Valid() && ok == copy
      ensures var left := old(names) - {old(nodes)[n].link.value};
        names == if ok then left[Link(newdir, newname) := n] else left
      ensures Relinked(old(nodes), nodes, n, if ok then Some(Link(newdir, newname)) else None)
      ensures old(MarksOk()) ==> MarksOk()
      ensures old(IdsOk()) ==> IdsOk()
      ensures TablesOk() && fresh(tables.Repr - old(tables.Repr)) && tables.pending == old(tables.pending)
      ensures old(tables.Loaded()) && hashes ==> tables.Loaded()
      ensures held == old(held) && lockq == old(lockq) && dots == old(dots)
      ensures old(LookupsOk()) ==> LookupsOk()
    {
      hide LookupsAre, Tables.Valid, Tables.Loaded, Tree, LocksOk, RefExact, QueueOk, MarksAwaited;
      UnlinkNode(n, memory, h1, h1);
      ghost var mid, midNames := nodes, names;
      RelinkInv(nodes, names, dots, held, n, Link(newdir, newname), h1, h2);
      SameLookupsMove(nodes, n, Link(newdir, newname), lookups);
      ok := HashName(n, newdir, newname, copy, hashes);
      if !ok {
        return;
      }
      WriterExcludes(mid, held, h1, n, h1);
      assert Kept(nodes, dots, held[h1]);
      QueueUnmoved(mid, midNames, dots, nodes, names, dots, held, lockq);
      MovedFinal(old(nodes), old(names), nodes, names, dots, held, lockq, n, Link(newdir, newname), h1, h2);
    }
  }
}
