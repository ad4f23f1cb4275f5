/** The queue of requests waiting for a path (or for a node to become unlocked), and what ties it to
    the paths that are held. */
module LockQueue {

  import opened Options
  import opened InodeTree
  import opened TreeLocks
  import opened TreeProtocol

  /** A child to be write-locked has a name. */
  predicate ReqOk(p: PathReq) {
    p.write ==> p.name.Some?
  }

  // struct lock_queue_element: a request for one or two paths, or a forget waiting for a node.
  datatype Elem =
    | PathElem(req: nat, p1: PathReq, p2: Option<PathReq>, dot: Option<nat>,
               first: bool, second: bool, wnode1: Option<Ino>, wnode2: Option<Ino>,
               path1: string, path2: string, done: bool, err: Option<Error>)
    | ForgetElem(req: nat, nodeid: Ino, nlookup: nat)

  function NewElem(req: nat, p1: PathReq, p2: Option<PathReq>, dot: Option<nat>): Elem {
    PathElem(req, p1, p2, dot, false, false, None, None, "", "", false, None)
  }

  predicate Done(e: Elem) {
    e.PathElem? && e.done
  }

  /** Some path of the element is locked, but the element is not finished. */
  predicate Partial(e: Elem) {
    e.PathElem? && !e.done && (e.first || e.second)
  }

  /** The hold `id` exists exactly if `locked`, and is the one the element asked for. */
  ghost predicate SlotOk(held: Held, id: HoldId, p: PathReq, w: Option<Ino>, dot: Option<nat>, path: string,
                         locked: bool) {
    && (locked <==> id in held)
    && (locked ==> held[id].target == p.nodeid && held[id].name == p.name && held[id].wnode == w && held[id].dot == dot)
    && (locked ==> held[id].path == path)
  }

  ghost predicate SlotsOk(held: Held, e: Elem) {
    match e
    case ForgetElem(_, _, _) => true
    case PathElem(req, p1, p2, dot, first, second, w1, w2, path1, path2, _, _) =>
      && SlotOk(held, HoldId(req, First), p1, w1, dot, path1, first)
      && (p2.Some? ==> SlotOk(held, HoldId(req, Second), p2.value, w2, None, path2, second))
      && (p2.None? ==> !second && HoldId(req, Second) !in held)
  }

  predicate AllLocked(e: Elem) {
    e.PathElem? && e.first && (e.p2.Some? ==> e.second)
  }

  /** The flags of an element say which of its paths are held; a finished element holds all of its
      paths or, on error, none. */
  ghost predicate FlagsOk(held: Held, e: Elem) {
    && SlotsOk(held, e)
    && (e.PathElem? ==>
          if e.done then (if e.err.None? then AllLocked(e) else !e.first && !e.second) else !AllLocked(e))
  }

  /** What the kernel guarantees until a request has been answered. */
  ghost predicate ElemKept(nodes: Nodes, names: Names, dots: Dots, e: Elem) {
    match e
    case ForgetElem(_, n, k) => n in nodes && n != ROOT && 1 <= k <= nodes[n].nlookup
    case PathElem(_, p1, p2, dot, _, _, _, _, _, _, _, _) =>
      && ReqOk(p1) && KernelKeeps(nodes, names, dots, p1, dot)
      && (p2.Some? ==> ReqOk(p2.value) && KernelKeeps(nodes, names, dots, p2.value, None))
  }

  ghost predicate DistinctReqs(q: seq<Elem>) {
    forall i, j :: 0 <= i < j < |q| ==> q[i].req != q[j].req
  }

  ghost predicate AllFlagsOk(held: Held, q: seq<Elem>) {
    forall i {:trigger FlagsOk(held, q[i])} :: 0 <= i < |q| ==> FlagsOk(held, q[i])
  }

  ghost predicate AllElemsKept(nodes: Nodes, names: Names, dots: Dots, q: seq<Elem>) {
    forall i {:trigger ElemKept(nodes, names, dots, q[i])} :: 0 <= i < |q| ==> ElemKept(nodes, names, dots, q[i])
  }

  /** Any partially locked element is the head. */
  ghost predicate PartialIsHead(q: seq<Elem>) {
    forall i :: 0 < i < |q| ==> !Partial(q[i])
  }

  ghost predicate QueueOk(nodes: Nodes, names: Names, dots: Dots, held: Held, q: seq<Elem>) {
    DistinctReqs(q) && AllFlagsOk(held, q) && AllElemsKept(nodes, names, dots, q) && PartialIsHead(q)
  }

  /** A request that neither waits nor holds anything. */
  ghost predicate Idle(held: Held, q: seq<Elem>, req: nat) {
    && (forall h :: h in held ==> h.req != req)
    && (forall i :: 0 <= i < |q| ==> q[i].req != req)
  }

  // -------------------------------------------------------------------------
  // Frames

  ghost predicate OthersKept(held: Held, held': Held, req: nat) {
    forall h: HoldId :: h.req != req ==> (h in held' <==> h in held) && (h in held ==> held'[h] == held[h])
  }

  /** Holds of other requests do not matter to an element. */
  lemma FlagsFrame(held: Held, held': Held, e: Elem, req: nat)
    requires FlagsOk(held, e) && e.req != req && OthersKept(held, held', req)
    ensures FlagsOk(held', e)
  {
    assert HoldId(e.req, First).req == e.req && HoldId(e.req, Second).req == e.req;
  }

  lemma AllFlagsFrame(held: Held, held': Held, q: seq<Elem>, req: nat)
    requires AllFlagsOk(held, q) && OthersKept(held, held', req)
    requires forall i :: 0 <= i < |q| ==> q[i].req != req
    ensures AllFlagsOk(held', q)
  {
    forall i | 0 <= i < |q| ensures FlagsOk(held', q[i]) {
      assert FlagsOk(held, q[i]);
      FlagsFrame(held, held', q[i], req);
    }
  }

  /** Replacing one element, and the holds of its request with it. */
  lemma ReplaceElem(nodes: Nodes, names: Names, dots: Dots, held: Held, held': Held, q: seq<Elem>, i: nat, e: Elem)
    requires QueueOk(nodes, names, dots, held, q) && i < |q|
    requires e.req == q[i].req && OthersKept(held, held', e.req)
    requires FlagsOk(held', e) && ElemKept(nodes, names, dots, e) && (i == 0 || !Partial(e))
    ensures QueueOk(nodes, names, dots, held', q[i := e])
  {
    var q' := q[i := e];
    forall j | 0 <= j < |q'| ensures FlagsOk(held', q'[j]) && ElemKept(nodes, names, dots, q'[j]) {
      if j != i {
        assert q[j].req != q[i].req;
        assert FlagsOk(held, q[j]) && ElemKept(nodes, names, dots, q[j]);
        FlagsFrame(held, held', q[j], e.req);
      }
    }
  }

  /** A new request joins at the end, holding nothing. */
  lemma AppendElem(nodes: Nodes, names: Names, dots: Dots, held: Held, q: seq<Elem>, e: Elem)
    requires QueueOk(nodes, names, dots, held, q) && Idle(held, q, e.req)
    requires FlagsOk(held, e) && ElemKept(nodes, names, dots, e) && !Partial(e)
    ensures QueueOk(nodes, names, dots, held, q + [e])
  {
    var q' := q + [e];
    forall j | 0 <= j < |q'| ensures FlagsOk(held, q'[j]) && ElemKept(nodes, names, dots, q'[j]) {
      if j < |q| { assert FlagsOk(held, q[j]) && ElemKept(nodes, names, dots, q[j]) && q'[j] == q[j]; }
    }
  }

  /** dequeue_path. */
  lemma RemoveElem(nodes: Nodes, names: Names, dots: Dots, held: Held, q: seq<Elem>, i: nat)
    requires QueueOk(nodes, names, dots, held, q) && i < |q|
    ensures QueueOk(nodes, names, dots, held, q[..i] + q[i + 1..])
    ensures forall e :: e in q[..i] + q[i + 1..] ==> e.req != q[i].req
  {
    var q' := q[..i] + q[i + 1..];
    forall j | 0 <= j < |q'|
      ensures q'[j] == q[if j < i then j else j + 1] && FlagsOk(held, q'[j]) && ElemKept(nodes, names, dots, q'[j])
    {
      var k := if j < i then j else j + 1;
      assert FlagsOk(held, q[k]) && ElemKept(nodes, names, dots, q[k]);
    }
  }

  /** Lookup counts that only grow, and names that lead to looked-up nodes, keep the guarantees. */
  lemma ElemKeptFrame(nodes: Nodes, names: Names, dots: Dots, nodes': Nodes, names': Names, dots': Dots, e: Elem)
    requires ElemKept(nodes, names, dots, e)
    requires forall n :: n in nodes && Wanted(nodes, dots, n) ==> n in nodes'
    requires forall n :: n in nodes && n in nodes' ==> nodes'[n].nlookup >= nodes[n].nlookup
    requires forall l :: l in names' && !(l in names && names[l] == names'[l]) ==>
      names'[l] in nodes' && nodes'[names'[l]].nlookup > 0
    requires forall r :: r in dots && e.PathElem? && e.dot == Some(r) ==> r in dots' && dots'[r] == dots[r]
    ensures ElemKept(nodes', names', dots', e)
  {
    if e.PathElem? {
      KernelKeepsFrame(nodes, names, dots, nodes', names', dots', e.p1, e.dot);
      if e.p2.Some? { KernelKeepsFrame(nodes, names, dots, nodes', names', dots', e.p2.value, None); }
    }
  }

  lemma KernelKeepsFrame(nodes: Nodes, names: Names, dots: Dots, nodes': Nodes, names': Names, dots': Dots, p: PathReq,
                         dot: Option<nat>)
    requires KernelKeeps(nodes, names, dots, p, dot)
    requires forall n :: n in nodes && Wanted(nodes, dots, n) ==> n in nodes'
    requires forall n :: n in nodes && n in nodes' ==> nodes'[n].nlookup >= nodes[n].nlookup
    requires forall l :: l in names' && !(l in names && names[l] == names'[l]) ==>
      names'[l] in nodes' && nodes'[names'[l]].nlookup > 0
    requires forall r :: r in dots && dot == Some(r) ==> r in dots' && dots'[r] == dots[r]
    ensures KernelKeeps(nodes', names', dots', p, dot)
  {
    assert Wanted(nodes, dots, p.nodeid) by {
      if nodes[p.nodeid].nlookup == 0 { assert dot.value in DotsOn(dots, p.nodeid); }
    }
    var w := WNode(names', p);
    if w.Some? {
      var l := Link(p.nodeid, p.name.value);
      if l in names && names[l] == names'[l] {
        assert WNode(names, p) == w;
        assert Wanted(nodes, dots, w.value);
      }
    }
  }

  lemma AllElemsFrame(nodes: Nodes, names: Names, dots: Dots, nodes': Nodes, names': Names, dots': Dots, q: seq<Elem>)
    requires AllElemsKept(nodes, names, dots, q)
    requires forall n :: n in nodes && Wanted(nodes, dots, n) ==> n in nodes'
    requires forall n :: n in nodes && n in nodes' ==> nodes'[n].nlookup >= nodes[n].nlookup
    requires forall l :: l in names' && !(l in names && names[l] == names'[l]) ==>
      names'[l] in nodes' && nodes'[names'[l]].nlookup > 0
    requires forall i, r :: 0 <= i < |q| && r in dots && q[i].PathElem? && q[i].dot == Some(r) ==>
      r in dots' && dots'[r] == dots[r]
    ensures AllElemsKept(nodes', names', dots', q)
  {
    forall i | 0 <= i < |q| ensures ElemKept(nodes', names', dots', q[i]) {
      assert ElemKept(nodes, names, dots, q[i]);
      ElemKeptFrame(nodes, names, dots, nodes', names', dots', q[i]);
    }
  }

  /** A cascade of deletions breaks no guarantee: it spares everything wanted. */
  lemma ReleaseElems(nodes: Nodes, names: Names, dots: Dots, n: Ino, c: seq<Ino>, q: seq<Elem>)
    requires Tree(nodes, names) && RefExact(nodes, names, dots, Some(n)) && Chain(nodes, n, c)
    requires AllElemsKept(nodes, names, dots, q)
    ensures AllElemsKept(Release(nodes, names, n, c).0, Release(nodes, names, n, c).1, dots, q)
  {
    var (nodes', names') := Release(nodes, names, n, c);
    ReleaseFrame(nodes, names, n, c);
    forall m | m in nodes && Wanted(nodes, dots, m) ensures m in nodes' {
      ReleaseSpares(nodes, names, dots, n, c, m, ChainOf(nodes, m));
    }
    AllElemsFrame(nodes, names, dots, nodes', names', dots, q);
  }

  /** Tree locks are no part of the guarantees. */
  lemma TreelocksLeaveElems(nodes: Nodes, nodes': Nodes, names: Names, dots: Dots, q: seq<Elem>)
    requires AllElemsKept(nodes, names, dots, q) && nodes'.Keys == nodes.Keys
    requires forall n :: n in nodes ==> nodes'[n].nlookup == nodes[n].nlookup
    ensures AllElemsKept(nodes', names, dots, q)
  {
    AllElemsFrame(nodes, names, dots, nodes', names, dots, q);
  }

  // -------------------------------------------------------------------------
  // Marks: INT_MIN is added to a reader count while a writer is kept waiting

  predicate Marked(nodes: Nodes, n: Ino) {
    n in nodes && nodes[n].treelock < TREELOCK_WRITE
  }

  /** The element has not got its path yet and wants to write-lock this child. */
  predicate Waits(names: Names, e: Elem, n: Ino) {
    && e.PathElem? && !e.done
    && ((!e.first && WNode(names, e.p1) == Some(n))
        || (!e.second && e.p2.Some? && WNode(names, e.p2.value) == Some(n)))
  }

  ghost predicate Awaited(names: Names, q: seq<Elem>, n: Ino) {
    exists i :: 0 <= i < |q| && Waits(names, q[i], n)
  }

  /** Every mark has a waiting writer. (That it has a reader too is part of what a tree lock encodes.) */
  ghost predicate MarksAwaited(nodes: Nodes, names: Names, q: seq<Elem>) {
    forall n: Ino {:trigger Marked(nodes, n)} :: Marked(nodes, n) ==> Awaited(names, q, n)
  }

  /** Some other element waits for the child too. */
  ghost predicate OthersWait(names: Names, q: seq<Elem>, i: nat, n: Ino) {
    exists j :: 0 <= j < |q| && j != i && Waits(names, q[j], n)
  }

  /** A node is neither free nor write-locked: an attempt to write-lock it leaves it marked. */
  predicate Contended(nodes: Nodes, n: Ino) {
    n in nodes && nodes[n].treelock != 0 && nodes[n].treelock != TREELOCK_WRITE
  }

  /** What an attempt at a path does to the marks: it removes none, and adds one only if it fails with
      EAGAIN, to the child it wants, exactly if that is contended. */
  ghost predicate MarkStep(nodes: Nodes, nodes': Nodes, w: Option<Ino>, err: Option<Error>) {
    && (forall n: Ino {:trigger Marked(nodes', n)} ::
          Marked(nodes', n) ==> Marked(nodes, n) || (err == Some(EAGAIN) && w == Some(n)))
    && (forall n: Ino {:trigger Marked(nodes, n)} :: Marked(nodes, n) ==> Marked(nodes', n))
    && (err != Some(EAGAIN) && w.Some? ==> !Marked(nodes', w.value))
    && (err == Some(EAGAIN) && w.Some? ==> (Marked(nodes', w.value) <==> Contended(nodes, w.value)))
  }

  lemma AttemptMarks(nodes: Nodes, names: Names, held: Held, p: PathReq, c: seq<Ino>)
    requires Tree(nodes, names) && LocksOk(nodes, held) && Chain(nodes, p.nodeid, c)
    ensures match TryPath(nodes, names, p, c)
      case Got(nodes', w) => MarkStep(nodes, nodes', WNode(names, p), None) && MarksAside(nodes, c, WNode(names, p))
      case Failed(nodes', e) => MarkStep(nodes, nodes', WNode(names, p), Some(e)) && (e == ENOENT ==> nodes' == nodes)
  {
    var r := TryPath(nodes, names, p, c);
    if r.Got? {
      GotLocked(nodes, names, p, c, r);
      forall n: Ino | n in nodes
        ensures (Marked(r.nodes, n) <==> Marked(nodes, n)) && (Marked(nodes, n) ==> Aside(c, WNode(names, p), n))
        ensures WNode(names, p) == Some(n) ==> !Marked(r.nodes, n)
      {
        assert Locked(nodes, r.nodes, r.wnode, c, n);
      }
    } else if WNode(names, p).Some? {
      var w := WNode(names, p).value;
      assert NameOk(nodes, names, Link(p.nodeid, p.name.value));
      assert LockOk(nodes, held, w);
      ReadersBounded(held, w);
    }
  }

  /** A node is off a path and not the child locked with it. */
  predicate Aside(c: seq<Ino>, w: Option<Ino>, n: Ino) {
    (n == ROOT || n !in c) && w != Some(n)
  }

  /** No marked node is concerned by a path. */
  ghost predicate MarksAside(nodes: Nodes, c: seq<Ino>, w: Option<Ino>) {
    forall n: Ino {:trigger Marked(nodes, n)} :: Marked(nodes, n) ==> Aside(c, w, n)
  }

  /** Giving a path back adds no mark, and removes none from a node it is not concerned with. */
  lemma UnlockMarks(nodes: Nodes, names: Names, held: Held, h: HoldId)
    requires Tree(nodes, names) && LocksOk(nodes, held) && h in held
    ensures forall n: Ino :: Marked(UnlockPath(nodes, held[h]), n) ==> Marked(nodes, n)
    ensures forall n: Ino :: Marked(nodes, n) && Aside(held[h].chain, held[h].wnode, n) ==>
      Marked(UnlockPath(nodes, held[h]), n)
  {
    HoldUnlockable(nodes, held, h);
  }

  /** The marks after an element had its turn: those it does not wait for are old ones, but for one,
      `left`, that it may leave behind when it fails. */
  ghost predicate MarksPass(nodes: Nodes, nodes': Nodes, names: Names, e: Elem, e': Elem, left: Option<Ino>) {
    && (forall n: Ino {:trigger Marked(nodes', n)} ::
          Marked(nodes', n) ==> (Marked(nodes, n) && !Waits(names, e, n)) || Waits(names, e', n) || left == Some(n))
    && (left.Some? ==> Marked(nodes', left.value) && !Waits(names, e', left.value))
  }

  /** After the turn of an element every mark is awaited exactly if the one it leaves is. */
  lemma TurnMarks(nodes: Nodes, nodes': Nodes, names: Names, q: seq<Elem>, i: nat, e: Elem, left: Option<Ino>)
    requires MarksAwaited(nodes, names, q) && i < |q| && MarksPass(nodes, nodes', names, q[i], e, left)
    ensures MarksAwaited(nodes', names, q[i := e]) <==> (left.Some? ==> OthersWait(names, q, i, left.value))
  {
    var q' := q[i := e];
    if left.Some? ==> OthersWait(names, q, i, left.value) {
      forall n: Ino | Marked(nodes', n) ensures Awaited(names, q', n) {
        if Waits(names, e, n) {
          assert Waits(names, q'[i], n);
        } else {
          var j :| 0 <= j < |q| && Waits(names, q[j], n) && (left == Some(n) ==> j != i);
          assert Waits(names, q'[j], n);
        }
      }
    } else {
      assert Marked(nodes', left.value);
      forall j | 0 <= j < |q'| ensures !Waits(names, q'[j], left.value) { }
    }
  }

  /** A mark nobody waits for stays that way while an element that holds nothing has its turn. */
  lemma StillUnawaited(nodes: Nodes, nodes': Nodes, names: Names, q: seq<Elem>, i: nat, e: Elem)
    requires !MarksAwaited(nodes, names, q) && i < |q|
    requires forall n: Ino {:trigger Marked(nodes, n)} :: Marked(nodes, n) ==> Marked(nodes', n)
    requires forall n: Ino :: Waits(names, e, n) ==> Waits(names, q[i], n)
    ensures !MarksAwaited(nodes', names, q[i := e])
  {
    var n: Ino :| Marked(nodes, n) && !Awaited(names, q, n);
    var q' := q[i := e];
    assert Marked(nodes', n);
    forall j | 0 <= j < |q'| ensures !Waits(names, q'[j], n) {
      assert !Waits(names, q[j], n);
    }
  }

  /** A new element brings the mark its attempt made. */
  lemma NewElemMarks(nodes: Nodes, nodes': Nodes, names: Names, q: seq<Elem>, e: Elem)
    requires MarksAwaited(nodes, names, q)
    requires forall n: Ino :: Marked(nodes', n) ==> Marked(nodes, n) || Waits(names, e, n)
    ensures MarksAwaited(nodes', names, q + [e])
  {
    var q' := q + [e];
    forall n: Ino | Marked(nodes', n) ensures Awaited(names, q', n) {
      if Waits(names, e, n) {
        assert Waits(names, q'[|q|], n);
      } else {
        var j :| 0 <= j < |q| && Waits(names, q[j], n);
        assert Waits(names, q'[j], n);
      }
    }
  }

  /** Elements that wait for nothing can go. */
  lemma LeftMarks(nodes: Nodes, names: Names, q: seq<Elem>, i: nat)
    requires MarksAwaited(nodes, names, q) && i < |q| && (q[i].ForgetElem? || q[i].done)
    ensures MarksAwaited(nodes, names, q[..i] + q[i + 1..])
  {
    var q' := q[..i] + q[i + 1..];
    forall n: Ino | Marked(nodes, n) ensures Awaited(names, q', n) {
      var j :| 0 <= j < |q| && Waits(names, q[j], n);
      assert Waits(names, q'[if j < i then j else j - 1], n);
    }
  }

  /** Marked nodes keep their names, whatever else changes in the tree. */
  lemma TreeMarks(nodes: Nodes, names: Names, nodes': Nodes, names': Names, q: seq<Elem>)
    requires MarksAwaited(nodes, names, q) && Tree(nodes, names) && Tree(nodes', names')
    requires forall n: Ino :: Marked(nodes', n) ==> Marked(nodes, n) && nodes'[n].link == nodes[n].link
    ensures MarksAwaited(nodes', names', q)
  {
    forall n: Ino | Marked(nodes', n) ensures Awaited(names', q, n) {
      var i :| 0 <= i < |q| && Waits(names, q[i], n);
      var l := if !q[i].first && WNode(names, q[i].p1) == Some(n) then Link(q[i].p1.nodeid, q[i].p1.name.value)
               else Link(q[i].p2.value.nodeid, q[i].p2.value.name.value);
      assert NameOk(nodes, names, l);
      assert LinkOk(nodes', names', n);
      assert Waits(names', q[i], n);
    }
  }

  // -------------------------------------------------------------------------
  // Requests that have failed

  /** Somewhere on the way up to the root a name is gone. */
  ghost predicate Gone(nodes: Nodes, n: Ino) {
    exists c {:trigger Chain(nodes, n, c)} :: Chain(nodes, n, c) && c[|c| - 1] != ROOT
  }

  ghost predicate TargetOf(held: Held, req: nat, n: Ino) {
    || (HoldId(req, First) in held && held[HoldId(req, First)].target == n)
    || (HoldId(req, Second) in held && held[HoldId(req, Second)].target == n)
  }

  /** A write-locked child has lost its name, or is in a directory whose path its writer holds. */
  ghost predicate WriterNamed(nodes: Nodes, held: Held, h: HoldId)
    requires h in held
  {
    var w := held[h].wnode;
    w.Some? && w.value in nodes && nodes[w.value].link.Some? ==> TargetOf(held, h.req, nodes[w.value].link.value.parent)
  }

  /** A request that has failed wanted a path that is gone. */
  ghost predicate ErrOk(nodes: Nodes, e: Elem) {
    e.PathElem? && e.done && e.err.Some? ==> e.err == Some(ENOENT) && WantsGone(nodes, e)
  }

  ghost predicate WantsGone(nodes: Nodes, e: Elem)
    requires e.PathElem?
  {
    Gone(nodes, e.p1.nodeid) || (e.p2.Some? && Gone(nodes, e.p2.value.nodeid))
  }

  ghost predicate WritersNamed(nodes: Nodes, held: Held) {
    forall h {:trigger WriterNamed(nodes, held, h)} :: h in held ==> WriterNamed(nodes, held, h)
  }

  ghost predicate ErrsOk(nodes: Nodes, q: seq<Elem>) {
    forall i {:trigger ErrOk(nodes, q[i])} :: 0 <= i < |q| ==> ErrOk(nodes, q[i])
  }

  /** What makes a failure final. */
  ghost predicate FailuresFinal(nodes: Nodes, held: Held, q: seq<Elem>) {
    WritersNamed(nodes, held) && ErrsOk(nodes, q)
  }

  /** A node from which a name is gone is on no held path. */
  lemma GoneOffChain(nodes: Nodes, n: Ino, t: Ino, c: seq<Ino>)
    requires Gone(nodes, n) && Chain(nodes, t, c) && c[|c| - 1] == ROOT
    ensures n !in c
  {
    if n in c {
      var i :| 0 <= i < |c| && c[i] == n;
      ChainSuffix(nodes, t, c, i);
      var d :| Chain(nodes, n, d) && d[|d| - 1] != ROOT;
      ChainUnique(nodes, n, c[i..], d);
    }
  }

  /** Below a name that is gone nothing is locked. */
  lemma GoneUnlocked(nodes: Nodes, held: Held, n: Ino)
    requires LocksOk(nodes, held) && WritersNamed(nodes, held)
    requires Gone(nodes, n) && n in nodes && nodes[n].link.Some?
    ensures nodes[n].treelock == 0
  {
    if nodes[n].treelock != 0 {
      var h := LockedInvolved(nodes, held, n);
      assert HoldOk(nodes, held[h]) && WriterNamed(nodes, held, h);
      if n in held[h].chain {
        GoneOffChain(nodes, n, held[h].target, held[h].chain);
      } else {
        var p := nodes[n].link.value.parent;
        var id := if HoldId(h.req, First) in held && held[HoldId(h.req, First)].target == p then HoldId(h.req, First)
                  else HoldId(h.req, Second);
        assert HoldOk(nodes, held[id]) && held[id].target == p;
        GoneAbove(nodes, n);
        GoneOffChain(nodes, p, p, held[id].chain);
      }
    }
  }

  lemma GoneAbove(nodes: Nodes, n: Ino)
    requires Gone(nodes, n) && n in nodes && nodes[n].link.Some?
    ensures Gone(nodes, nodes[n].link.value.parent)
  {
    var c :| Chain(nodes, n, c) && c[|c| - 1] != ROOT;
    assert Chain(nodes, nodes[n].link.value.parent, c[1..]);
  }

  lemma {:induction false} GoneWalk(nodes: Nodes, held: Held, n: Ino, c: seq<Ino>)
    requires LocksOk(nodes, held) && WritersNamed(nodes, held) && ROOT in nodes && nodes[ROOT].link == None
    requires Chain(nodes, n, c) && c[|c| - 1] != ROOT
    ensures Walk(nodes, c) == Some(ENOENT)
    decreases |c|
  {
    if nodes[n].link.Some? {
      assert Gone(nodes, n);
      GoneUnlocked(nodes, held, n);
      GoneWalk(nodes, held, nodes[n].link.value.parent, c[1..]);
    }
  }

  /** An attempt at a path that is gone fails for good, changes nothing and never has to wait. */
  lemma GoneFails(nodes: Nodes, names: Names, held: Held, p: PathReq, c: seq<Ino>)
    requires Tree(nodes, names) && LocksOk(nodes, held) && WritersNamed(nodes, held)
    requires Chain(nodes, p.nodeid, c) && Gone(nodes, p.nodeid)
    ensures TryPath(nodes, names, p, c) == Failed(nodes, ENOENT)
  {
    var d :| Chain(nodes, p.nodeid, d) && d[|d| - 1] != ROOT;
    ChainUnique(nodes, p.nodeid, c, d);
    GoneWalk(nodes, held, p.nodeid, c);
    var w := WNode(names, p);
    if w.Some? {
      assert NameOk(nodes, names, Link(p.nodeid, p.name.value));
      assert ([w.value] + c)[1..] == c;
      assert Chain(nodes, w.value, [w.value] + c);
      GoneUnlocked(nodes, held, w.value);
    }
  }

  /** ... and only such a path does. */
  lemma {:induction false} FailsGone(nodes: Nodes, n: Ino, c: seq<Ino>)
    requires Chain(nodes, n, c) && ROOT in nodes && nodes[ROOT].link == None
    ensures Walk(nodes, c) == Some(ENOENT) ==> c[|c| - 1] != ROOT && Gone(nodes, n)
    decreases |c|
  {
    if Walk(nodes, c) == Some(ENOENT) && nodes[n].link.Some? {
      FailsGone(nodes, nodes[n].link.value.parent, c[1..]);
    }
  }

  /** A path that is gone stays so: nobody gives a name back, and only a node whose path is there gets
      another one. */
  lemma {:induction false} GoneStays(nodes: Nodes, nodes': Nodes, names': Names, n: Ino, c: seq<Ino>)
    requires Chain(nodes, n, c) && c[|c| - 1] != ROOT && n in nodes' && Tree(nodes', names')
    requires ROOT in nodes && nodes[ROOT].link == None
    requires forall m :: m in nodes && m in nodes' && nodes'[m].link.Some? ==>
      nodes'[m].link == nodes[m].link || !Gone(nodes, m)
    ensures Gone(nodes', n)
    decreases |c|
  {
    if nodes'[n].link == None {
      assert Chain(nodes', n, [n]);
    } else {
      assert Gone(nodes, n) && LinkOk(nodes', names', n);
      var p := nodes[n].link.value.parent;
      GoneStays(nodes, nodes', names', p, c[1..]);
      var d :| Chain(nodes', p, d) && d[|d| - 1] != ROOT;
      assert ([n] + d)[1..] == d;
      assert Chain(nodes', n, [n] + d);
    }
  }

  lemma ErrStays(nodes: Nodes, nodes': Nodes, names': Names, dots': Dots, e: Elem)
    requires ErrOk(nodes, e) && ElemKept(nodes', names', dots', e) && Tree(nodes', names')
    requires ROOT in nodes && nodes[ROOT].link == None
    requires forall m :: m in nodes && m in nodes' && nodes'[m].link.Some? ==>
      nodes'[m].link == nodes[m].link || !Gone(nodes, m)
    ensures ErrOk(nodes', e)
  {
    if e.PathElem? && e.done && e.err.Some? {
      var n := if Gone(nodes, e.p1.nodeid) then e.p1.nodeid else e.p2.value.nodeid;
      var c :| Chain(nodes, n, c) && c[|c| - 1] != ROOT;
      GoneStays(nodes, nodes', names', n, c);
    }
  }

  /** Nothing that gives no node a new name revives a failed request or separates a writer from its child. */
  lemma FailuresStay(nodes: Nodes, nodes': Nodes, names': Names, dots': Dots, held: Held, q: seq<Elem>)
    requires FailuresFinal(nodes, held, q) && Tree(nodes', names') && AllElemsKept(nodes', names', dots', q)
    requires ROOT in nodes && nodes[ROOT].link == None && LocksOk(nodes, held)
    requires forall m :: m in nodes && m in nodes' ==> nodes'[m].link == nodes[m].link || nodes'[m].link == None
    ensures FailuresFinal(nodes', held, q)
  {
    forall i | 0 <= i < |q| ensures ErrOk(nodes', q[i]) {
      assert ErrOk(nodes, q[i]) && ElemKept(nodes', names', dots', q[i]);
      ErrStays(nodes, nodes', names', dots', q[i]);
    }
    forall h | h in held ensures WriterNamed(nodes', held, h) {
      assert WriterNamed(nodes, held, h) && HoldOk(nodes, held[h]);
    }
  }

  /** Holds of requests outside the queue come and go as a whole. */
  lemma WritersWithout(nodes: Nodes, held: Held, held': Held, req: nat)
    requires WritersNamed(nodes, held) && OthersKept(held, held', req) && forall h :: h in held' ==> h.req != req
    ensures WritersNamed(nodes, held')
  {
    forall h | h in held' ensures WriterNamed(nodes, held', h) {
      assert WriterNamed(nodes, held, h);
      assert HoldId(h.req, First).req == h.req && HoldId(h.req, Second).req == h.req;
    }
  }

  /** A path that is taken puts its child under its writer. */
  lemma WritersWith(nodes: Nodes, names: Names, held: Held, id: HoldId, x: Hold, p: PathReq)
    requires WritersNamed(nodes, held) && Tree(nodes, names) && id !in held
    requires x.target == p.nodeid && x.wnode == WNode(names, p)
    ensures WritersNamed(nodes, held[id := x])
  {
    var held' := held[id := x];
    forall h | h in held' ensures WriterNamed(nodes, held', h) {
      if h == id {
        if x.wnode.Some? {
          assert NameOk(nodes, names, Link(p.nodeid, p.name.value));
        }
        assert id.slot.First? || id.slot.Second?;
        assert id == HoldId(id.req, First) || id == HoldId(id.req, Second);
      } else {
        assert WriterNamed(nodes, held, h);
      }
    }
  }

  // -------------------------------------------------------------------------
  // When a path is granted

  /** `m` is the node `n` or above it, and not the root. */
  ghost predicate OnWay(nodes: Nodes, n: Ino, m: Ino) {
    m != ROOT && exists c {:trigger Chain(nodes, n, c)} :: Chain(nodes, n, c) && m in c
  }

  /** Somebody holds the write lock on the node, or a path that leads through it. */
  ghost predicate WriteHeld(held: Held, m: Ino) {
    exists h :: h in held && held[h].wnode == Some(m)
  }

  ghost predicate Involved(held: Held, m: Ino) {
    exists h :: h in held && (held[h].wnode == Some(m) || m in held[h].chain)
  }

  /** The request is going to remove or rename this node. */
  predicate Wants(names: Names, p: PathReq, m: Ino) {
    p.write && p.name.Some? && Link(p.nodeid, p.name.value) in names && names[Link(p.nodeid, p.name.value)] == m
  }

  /** No writer has or awaits a node on the way, and nobody is involved with the child wanted. */
  ghost predicate Free(nodes: Nodes, names: Names, held: Held, p: PathReq) {
    && (forall m {:trigger OnWay(nodes, p.nodeid, m)} :: OnWay(nodes, p.nodeid, m) ==>
          !WriteHeld(held, m) && !Marked(nodes, m))
    && (forall m {:trigger Wants(names, p, m)} :: Wants(names, p, m) ==> !Involved(held, m))
  }

  /** One of two requests wants a node that the other needs. */
  ghost predicate Clash(nodes: Nodes, names: Names, p1: PathReq, p2: PathReq) {
    exists m {:trigger Wants(names, p1, m)} {:trigger Wants(names, p2, m)} ::
      || (Wants(names, p1, m) && (OnWay(nodes, p2.nodeid, m) || Wants(names, p2, m)))
      || (Wants(names, p2, m) && OnWay(nodes, p1.nodeid, m))
  }

  /** A tree lock is negative exactly for a writer that has the node or awaits it. */
  lemma NegativeLock(nodes: Nodes, held: Held, n: Ino)
    requires LocksOk(nodes, held) && n in nodes
    ensures nodes[n].treelock < 0 <==> WriteHeld(held, n) || Marked(nodes, n)
  {
    assert LockOk(nodes, held, n);
    ReadersBounded(held, n);
    if WriteHeld(held, n) {
      var h :| h in held && held[h].wnode == Some(n);
      AWriter(held, h, n);
    }
    if |Writers(held, n)| > 0 {
      var h :| h in Writers(held, n);
      assert held[h].wnode == Some(n);
    }
  }

  lemma NonzeroLock(nodes: Nodes, held: Held, n: Ino)
    requires LocksOk(nodes, held) && n in nodes && n != ROOT
    ensures nodes[n].treelock != 0 <==> Involved(held, n)
  {
    if nodes[n].treelock != 0 {
      var h := LockedInvolved(nodes, held, n);
    } else if Involved(held, n) {
      var h :| h in held && (held[h].wnode == Some(n) || n in held[h].chain);
      UnlockedUninvolved(nodes, held, n, h);
    }
  }

  lemma OnWayIs(nodes: Nodes, n: Ino, c: seq<Ino>, m: Ino)
    requires Chain(nodes, n, c)
    ensures OnWay(nodes, n, m) <==> m != ROOT && m in c
  {
    if OnWay(nodes, n, m) {
      var d :| Chain(nodes, n, d) && m in d;
      ChainUnique(nodes, n, c, d);
    }
  }

  /** try_get_path succeeds exactly if no name is gone on the way to the root and the path is free; it
      fails for good exactly if a name is gone, and has to wait exactly in the remaining case. */
  lemma Granted(nodes: Nodes, names: Names, held: Held, p: PathReq, c: seq<Ino>)
    requires Tree(nodes, names) && LocksOk(nodes, held) && WritersNamed(nodes, held) && Chain(nodes, p.nodeid, c)
    ensures TryPath(nodes, names, p, c).Got? <==> !Gone(nodes, p.nodeid) && Free(nodes, names, held, p)
    ensures TryPath(nodes, names, p, c).Failed? ==>
      (TryPath(nodes, names, p, c).err == ENOENT <==> Gone(nodes, p.nodeid))
  {
    if Gone(nodes, p.nodeid) {
      GoneFails(nodes, names, held, p, c);
    } else {
      FailsGone(nodes, p.nodeid, c);
      ChildFree(nodes, names, held, p);
      WayFree(nodes, names, held, p, c);
    }
  }

  lemma ChildFree(nodes: Nodes, names: Names, held: Held, p: PathReq)
    requires Tree(nodes, names) && LocksOk(nodes, held)
    ensures var w := WNode(names, p);
      (w.Some? && w.value in nodes && nodes[w.value].treelock != 0) <==>
        exists m :: Wants(names, p, m) && Involved(held, m)
  {
    if WNode(names, p).Some? {
      var w := WNode(names, p).value;
      assert NameOk(nodes, names, Link(p.nodeid, p.name.value)) && Wants(names, p, w);
      NonzeroLock(nodes, held, w);
    }
  }

  lemma WayFree(nodes: Nodes, names: Names, held: Held, p: PathReq, c: seq<Ino>)
    requires Tree(nodes, names) && LocksOk(nodes, held) && Chain(nodes, p.nodeid, c) && !Gone(nodes, p.nodeid)
    ensures Walk(nodes, c) == None <==>
      forall m :: OnWay(nodes, p.nodeid, m) ==> !WriteHeld(held, m) && !Marked(nodes, m)
  {
    WalkClear(nodes, p.nodeid, c);
    ChainInNodes(nodes, p.nodeid, c);
    ChainNoRepeat(nodes, p.nodeid, c);
    forall m ensures OnWay(nodes, p.nodeid, m) <==> exists i :: 0 <= i < |c| - 1 && c[i] == m {
      OnWayIs(nodes, p.nodeid, c, m);
      if m in c && m != ROOT {
        var i :| 0 <= i < |c| && c[i] == m;
        assert i < |c| - 1;
      }
    }
    forall m | m in c ensures nodes[m].treelock < 0 <==> WriteHeld(held, m) || Marked(nodes, m) {
      NegativeLock(nodes, held, m);
    }
    assert forall i :: 0 <= i < |c| - 1 ==> OnWay(nodes, p.nodeid, c[i]);
  }
}
