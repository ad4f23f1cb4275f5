/** The slab allocator for inodes of fuse.c: pages cut into cells, kept on two lists that run through the
    pages themselves, each page with a list of free cells that runs through the cells. */
module Slabs {

  import opened Options

  type Addr = nat

  // The words of every struct list_head in memory, by its address.
  datatype Links = Links(next: map<Addr, Addr>, prev: map<Addr, Addr>)

  // struct node_slab: the list entry at 0, the free list at 16, the use count after it.
  const FREELIST: nat := 16
  const HEADER: nat := 40

  // -------------------------------------------------------------------------
  // Circular lists

  function After(i: nat, n: nat): nat {
    if i + 1 == n then 0 else i + 1
  }

  function Before(i: nat, n: nat): int {
    if i == 0 then n - 1 else i - 1
  }

  ghost predicate LinkedAt(l: Links, c: seq<Addr>, i: nat)
    requires i < |c|
  {
    && c[i] in l.next && c[i] in l.prev
    && l.next[c[i]] == c[After(i, |c|)] && l.prev[c[i]] == c[Before(i, |c|)]
  }

  ghost predicate Distinct(c: seq<Addr>) {
    forall i, j :: 0 <= i < j < |c| ==> c[i] != c[j]
  }

  /** The list of a head holds these entries, forwards and backwards. */
  ghost predicate Ring(l: Links, head: Addr, entries: seq<Addr>) {
    var c := [head] + entries;
    && Distinct(c)
    && (forall i {:trigger LinkedAt(l, c, i)} :: 0 <= i < |c| ==> LinkedAt(l, c, i))
  }

  /** list_add. */
  function Added(l: Links, entry: Addr, before: Addr, after: Addr): Links {
    Links(l.next[entry := after][before := entry], l.prev[after := entry][entry := before])
  }

  /** list_del. */
  function Deleted(l: Links, entry: Addr): Links
    requires entry in l.next && entry in l.prev
  {
    Links(l.next[l.prev[entry] := l.next[entry]], l.prev[l.next[entry] := l.prev[entry]])
  }

  lemma DistinctInsert(c: seq<Addr>, k: nat, x: Addr)
    requires Distinct(c) && k <= |c| && x !in c
    ensures Distinct(c[..k] + [x] + c[k..])
  {
    var c' := c[..k] + [x] + c[k..];
    forall i, j | 0 <= i < j < |c'| ensures c'[i] != c'[j] {
      assert i != k ==> c'[i] == c[if i < k then i else i - 1];
      assert j != k ==> c'[j] == c[if j < k then j else j - 1];
    }
  }

  lemma DistinctRemove(c: seq<Addr>, k: nat)
    requires Distinct(c) && k < |c|
    ensures Distinct(c[..k] + c[k + 1..]) && c[k] !in c[..k] + c[k + 1..]
    ensures forall x :: x != c[k] ==> (x in c <==> x in c[..k] + c[k + 1..])
  {
    var c' := c[..k] + c[k + 1..];
    assert forall i :: 0 <= i < |c'| ==> c'[i] == c[if i < k then i else i + 1];
    forall x | x != c[k] && x in c ensures x in c' {
      var i :| 0 <= i < |c| && c[i] == x;
      assert c'[if i < k then i else i - 1] == x;
    }
  }

  lemma DistinctParts(a: seq<Addr>, b: seq<Addr>)
    ensures Distinct(a + b) <==> Distinct(a) && Distinct(b) && forall x :: !(x in a && x in b)
  {
    var c := a + b;
    assert forall i :: 0 <= i < |c| ==> c[i] == if i < |a| then a[i] else b[i - |a|];
    if Distinct(c) {
      forall i, j | 0 <= i < j < |a| ensures a[i] != a[j] { assert c[i] != c[j]; }
      forall i, j | 0 <= i < j < |b| ensures b[i] != b[j] { assert c[|a| + i] != c[|a| + j]; }
      forall i, j | 0 <= i < |a| && 0 <= j < |b| ensures a[i] != b[j] { assert c[i] != c[|a| + j]; }
    }
    if Distinct(a) && Distinct(b) && forall x :: !(x in a && x in b) {
      forall i, j | 0 <= i < j < |c| ensures c[i] != c[j] {
        assert i < |a| ==> a[i] in a;
        assert j >= |a| ==> b[j - |a|] in b;
      }
    }
  }

  /** Moving an entry from one list to the end of another. */
  lemma EntryMoved(a: seq<Addr>, k: nat, b: seq<Addr>)
    requires k < |a| && Distinct(a + b)
    ensures var less, more := a[..k] + a[k + 1..], b + [a[k]];
      && Distinct(less + more) && Distinct(more + less) && a[k] !in b
      && (forall x :: x in less + more <==> x in a + b)
      && (forall x :: x in less ==> x in a && x != a[k])
  {
    var less, more := a[..k] + a[k + 1..], b + [a[k]];
    DistinctParts(a, b);
    DistinctRemove(a, k);
    DistinctParts(b, [a[k]]);
    DistinctParts(less, more);
    DistinctParts(more, less);
  }

  lemma EntryDropped(a: seq<Addr>, k: nat, b: seq<Addr>)
    requires k < |a| && Distinct(a + b)
    ensures var less := a[..k] + a[k + 1..];
      && Distinct(less + b)
      && (forall x :: x in less + b <==> x in a + b && x != a[k])
      && (forall x :: x in less ==> x in a && x != a[k])
  {
    var less := a[..k] + a[k + 1..];
    DistinctParts(a, b);
    DistinctRemove(a, k);
    DistinctParts(less, b);
    assert a[k] in a;
  }

  lemma OnlyOnce(a: seq<Addr>, b: seq<Addr>)
    requires a != [] && Distinct(a + b)
    ensures a[0] !in a[1..] && a[0] !in b
  {
    DistinctParts(a, b);
    assert a[0] in a && a == [a[0]] + a[1..];
    DistinctParts([a[0]], a[1..]);
    assert a[0] in [a[0]];
  }

  lemma DistinctSwap(a: seq<Addr>, b: seq<Addr>)
    requires Distinct(a + b)
    ensures Distinct(b + a)
  {
    DistinctParts(a, b);
    DistinctParts(b, a);
  }

  lemma RingInsert(l: Links, head: Addr, entries: seq<Addr>, k: nat, entry: Addr)
    requires Ring(l, head, entries) && k <= |entries| && entry !in [head] + entries
    ensures var c := [head] + entries;
      Ring(Added(l, entry, c[k], c[After(k, |c|)]), head, entries[..k] + [entry] + entries[k..])
  {
    var c := [head] + entries;
    var l' := Added(l, entry, c[k], c[After(k, |c|)]);
    var c' := [head] + (entries[..k] + [entry] + entries[k..]);
    hide LinkedAt, Added;
    assert c' == c[..k + 1] + [entry] + c[k + 1..];
    DistinctInsert(c, k + 1, entry);
    forall i | 0 <= i < |c'| ensures LinkedAt(l', c', i) {
      if i != k + 1 {
        assert LinkedAt(l, c, if i <= k then i else i - 1);
      }
      InsertedLink(l, c, k + 1, entry, i);
    }
  }

  lemma InsertedLink(l: Links, c: seq<Addr>, k: nat, x: Addr, i: nat)
    requires Distinct(c) && 0 < k <= |c| && i <= |c| && x !in c
    requires i != k ==> LinkedAt(l, c, if i < k then i else i - 1)
    ensures LinkedAt(Added(l, x, c[k - 1], c[After(k - 1, |c|)]), c[..k] + [x] + c[k..], i)
  {
    var c' := c[..k] + [x] + c[k..];
    var n := After(i, |c'|);
    var b := Before(i, |c'|);
    assert c'[n] == if n < k then c[n] else if n == k then x else c[n - 1];
    assert c'[b] == if b < k then c[b] else if b == k then x else c[b - 1];
  }

  lemma RingRemove(l: Links, head: Addr, entries: seq<Addr>, k: nat)
    requires Ring(l, head, entries) && k < |entries|
    ensures entries[k] in l.next && entries[k] in l.prev
    ensures Ring(Deleted(l, entries[k]), head, entries[..k] + entries[k + 1..])
  {
    var c := [head] + entries;
    assert LinkedAt(l, c, k + 1) && c[k + 1] == entries[k];
    var l' := Deleted(l, entries[k]);
    var c' := [head] + (entries[..k] + entries[k + 1..]);
    assert c' == c[..k + 1] + c[k + 2..];
    DistinctRemove(c, k + 1);
    forall i | 0 <= i < |c'| ensures LinkedAt(l', c', i) {
      RemovedLink(l, c, k + 1, i);
    }
  }

  lemma RemovedLink(l: Links, c: seq<Addr>, k: nat, i: nat)
    requires Distinct(c) && 0 < k < |c| && i < |c| - 1
    requires LinkedAt(l, c, k) && LinkedAt(l, c, if i < k then i else i + 1)
    ensures LinkedAt(Deleted(l, c[k]), c[..k] + c[k + 1..], i)
  {
  }

  ghost predicate SameWords(l: Links, l': Links, a: Addr)
    requires a in l.next && a in l.prev
  {
    a in l'.next && a in l'.prev && l'.next[a] == l.next[a] && l'.prev[a] == l.prev[a]
  }

  /** A list is where its head and entries are. */
  lemma RingFrame(l: Links, l': Links, head: Addr, entries: seq<Addr>)
    requires Ring(l, head, entries)
    requires forall a :: a in [head] + entries && a in l.next && a in l.prev ==> SameWords(l, l', a)
    ensures Ring(l', head, entries)
  {
    var c := [head] + entries;
    forall i | 0 <= i < |c| ensures LinkedAt(l', c, i) {
      assert LinkedAt(l, c, i) && c[i] in c;
    }
  }

  lemma RingEnds(l: Links, head: Addr, entries: seq<Addr>)
    requires Ring(l, head, entries)
    ensures head in l.next && head in l.prev
    ensures l.next[head] == if entries == [] then head else entries[0]
    ensures l.prev[head] == if entries == [] then head else entries[|entries| - 1]
    ensures l.next[head] == head <==> entries == []
  {
    var c := [head] + entries;
    assert LinkedAt(l, c, 0);
    assert entries != [] ==> c[1] == entries[0];
  }

  /** Outside a set of addresses, memory is as it was. */
  ghost predicate Within(l: Links, l': Links, changed: set<Addr>) {
    && (forall a {:trigger a in l'.next} :: a !in changed && a in l.next ==> a in l'.next && l'.next[a] == l.next[a])
    && (forall a {:trigger a in l'.prev} :: a !in changed && a in l.prev ==> a in l'.prev && l'.prev[a] == l.prev[a])
  }

  ghost function Words(head: Addr, entries: seq<Addr>): set<Addr> {
    set a | a in [head] + entries
  }

  lemma RingApart(l: Links, l': Links, head: Addr, entries: seq<Addr>, changed: set<Addr>)
    requires Ring(l, head, entries) && Within(l, l', changed) && Words(head, entries) !! changed
    ensures Ring(l', head, entries)
  {
    forall a | a in [head] + entries && a in l.next && a in l.prev ensures SameWords(l, l', a) {
      assert a in Words(head, entries);
    }
    RingFrame(l, l', head, entries);
  }

  lemma AddedWithin(l: Links, head: Addr, entries: seq<Addr>, k: nat, entry: Addr)
    requires k <= |entries|
    ensures var c := [head] + entries;
      Within(l, Added(l, entry, c[k], c[After(k, |c|)]), Words(head, entries) + {entry})
  {
  }

  lemma DeletedWithin(l: Links, head: Addr, entries: seq<Addr>, k: nat)
    requires Ring(l, head, entries) && k < |entries|
    ensures entries[k] in l.next && entries[k] in l.prev && Within(l, Deleted(l, entries[k]), Words(head, entries))
  {
    var c := [head] + entries;
    assert LinkedAt(l, c, k + 1) && c[k + 1] == entries[k];
    assert c[After(k + 1, |c|)] in c && c[Before(k + 1, |c|)] in c;
  }

  // -------------------------------------------------------------------------
  // Pages and cells

  datatype Geometry = Geometry(pagesize: nat, nodeSize: nat) {
    /** A page holds at least one cell, and a cell at least a list entry. */
    predicate Ok() { nodeSize >= 16 && pagesize >= HEADER + nodeSize }

    function Capacity(): nat
      requires Ok()
    {
      (pagesize - HEADER) / nodeSize
    }

    function CellAt(slab: Addr, i: nat): int
      requires Ok()
    {
      slab + pagesize - Capacity() * nodeSize + i * nodeSize
    }

    predicate InPage(slab: Addr, a: int) { slab <= a < slab + pagesize }

    predicate InNode(node: Addr, a: int) { node <= a < node + nodeSize }
  }

  /** A page is cut into as many cells as fit behind its header. */
  lemma NoRoomForMore(g: Geometry, n: nat)
    requires g.Ok()
    ensures n <= g.Capacity() <==> HEADER + n * g.nodeSize <= g.pagesize
  {
    var c := g.Capacity();
    Multiples(n, c, g.nodeSize);
    Multiples(c, n, g.nodeSize);
  }

  lemma Multiples(i: nat, j: nat, n: nat)
    ensures i < j ==> i * n + n <= j * n
  {
    if i < j {
      assert (i + 1) * n <= j * n;
    }
  }

  /** Cells lie behind the page's header, inside the page, and do not overlap. */
  lemma CellInPage(g: Geometry, slab: Addr, i: nat)
    requires g.Ok() && i < g.Capacity()
    ensures slab + HEADER <= g.CellAt(slab, i) && g.CellAt(slab, i) + g.nodeSize <= slab + g.pagesize
  {
    var n := g.Capacity();
    assert n * g.nodeSize <= g.pagesize - HEADER;
    assert (i + 1) * g.nodeSize <= n * g.nodeSize;
  }

  lemma CellsApart(g: Geometry, slab: Addr, i: nat, j: nat)
    requires g.Ok() && i < j < g.Capacity()
    ensures g.CellAt(slab, i) + g.nodeSize <= g.CellAt(slab, j)
  {
    assert (i + 1) * g.nodeSize <= j * g.nodeSize;
  }

  ghost function Cells(g: Geometry, slab: Addr): (r: set<Addr>)
    requires g.Ok()
  {
    set i | 0 <= i < g.Capacity() && g.CellAt(slab, i) >= 0 :: g.CellAt(slab, i) as Addr
  }

  lemma CellOf(g: Geometry, slab: Addr, c: Addr)
    requires g.Ok() && c in Cells(g, slab)
    ensures slab + HEADER <= c && c + g.nodeSize <= slab + g.pagesize
  {
    var i :| 0 <= i < g.Capacity() && g.CellAt(slab, i) == c;
    CellInPage(g, slab, i);
  }

  lemma PagesApart(g: Geometry, s: Addr, t: Addr, a: Addr)
    requires g.Ok() && s % g.pagesize == 0 && t % g.pagesize == 0 && g.InPage(s, a) && g.InPage(t, a)
    ensures s == t
  {
    var p := g.pagesize;
    var i, j := s / p, t / p;
    assert s == i * p && t == j * p;
    Multiples(i, j, p);
    Multiples(j, i, p);
  }

  // Bitwise "and" and powers of two, as the machine has them.
  function Pow2(k: nat): (p: nat)
    ensures p > 0
  {
    if k == 0 then 1 else 2 * Pow2(k - 1)
  }

  function BitAnd(x: nat, y: nat): nat
    decreases x
  {
    if x == 0 || y == 0 then 0 else x % 2 * (y % 2) + 2 * BitAnd(x / 2, y / 2)
  }

  /** Masking a word with all its bits but the lowest k clears those. */
  lemma {:induction false} MaskClears(x: nat, width: nat, k: nat)
    requires k <= width && x < Pow2(width)
    ensures Pow2(k) <= Pow2(width)
    ensures BitAnd(x, Pow2(width) - Pow2(k)) == x - x % Pow2(k)
    decreases width
  {
    if width > 0 {
      hide BitAnd;
      var h, half := x / 2, Pow2(width - 1);
      if k == 0 {
        MaskClears(h, width - 1, 0);
        OddMask(x, half - 1);
      } else {
        MaskClears(h, width - 1, k - 1);
        EvenMask(x, half - Pow2(k - 1));
        HalfRemainder(x, Pow2(k - 1));
      }
    } else {
      assert x == 0;
    }
  }

  lemma EvenMask(x: nat, mask: nat)
    ensures BitAnd(x, 2 * mask) == 2 * BitAnd(x / 2, mask)
  {
    assert 2 * mask / 2 == mask && 2 * mask % 2 == 0;
  }

  lemma OddMask(x: nat, mask: nat)
    ensures BitAnd(x, 2 * mask + 1) == x % 2 + 2 * BitAnd(x / 2, mask)
  {
    assert (2 * mask + 1) / 2 == mask && (2 * mask + 1) % 2 == 1;
  }

  lemma QuotientIsNat(x: nat, d: nat)
    requires d > 0
    ensures x / d >= 0
  {
  }

  lemma HalfRemainder(x: nat, p: nat)
    requires p > 0
    ensures x % (2 * p) == 2 * (x / 2 % p) + x % 2
  {
    var q, r := x / 2 / p, x / 2 % p;
    assert x / 2 == q * p + r;
    assert x == q * (2 * p) + (2 * r + x % 2);
    QuotientIsNat(x, 2 * p);
    var q2, r2 := x / (2 * p), x % (2 * p);
    assert x == q2 * (2 * p) + r2;
    Multiples(q, q2, 2 * p);
    Multiples(q2, q, 2 * p);
  }

  /** The mask of node_to_slab, in a word of 64 bits, is the subtraction the model uses. */
  lemma MaskIsSlab(g: Geometry, node: Addr, k: nat)
    requires g.Ok() && g.pagesize == Pow2(k) && k <= 64 && node < Pow2(64)
    ensures g.pagesize <= Pow2(64)
    ensures BitAnd(node, Pow2(64) - 1 - (g.pagesize - 1)) == NodeToSlab(g, node)
  {
    MaskClears(node, 64, k);
  }

  /** node_to_slab: clearing the low bits of an address, for a page size that is a power of two. */
  function NodeToSlab(g: Geometry, node: Addr): Addr
    requires g.Ok()
  {
    node - node % g.pagesize
  }

  /** Masking a cell's address finds its page. */
  lemma MaskFindsSlab(g: Geometry, slab: Addr, node: Addr)
    requires g.Ok() && slab % g.pagesize == 0 && node in Cells(g, slab)
    ensures NodeToSlab(g, node) == slab
  {
    CellOf(g, slab, node);
    var s := NodeToSlab(g, node);
    assert node == node / g.pagesize * g.pagesize + node % g.pagesize;
    assert s % g.pagesize == 0 by {
      ModOfMultiple(node / g.pagesize, g.pagesize);
    }
    PagesApart(g, s, slab, node);
  }

  lemma ModOfMultiple(k: nat, p: nat)
    requires p > 0
    ensures k * p % p == 0
  {
    assert k * p / p * p + k * p % p == k * p;
    var q, r := k * p / p, k * p % p;
    Multiples(q, k, p);
    Multiples(k, q, p);
  }

  /** Nodes in use never overlap, whether they share a page or not. */
  lemma NodesApart(g: Geometry, s: Addr, a: Addr, t: Addr, b: Addr)
    requires g.Ok() && s % g.pagesize == 0 && t % g.pagesize == 0 && a in Cells(g, s) && b in Cells(g, t) && a != b
    ensures a + g.nodeSize <= b || b + g.nodeSize <= a
  {
    CellOf(g, s, a);
    CellOf(g, t, b);
    if s == t {
      var i :| 0 <= i < g.Capacity() && g.CellAt(s, i) == a;
      var j :| 0 <= j < g.Capacity() && g.CellAt(s, j) == b;
      if i < j { CellsApart(g, s, i, j); } else { CellsApart(g, s, j, i); }
    } else if s < t {
      if t < s + g.pagesize { PagesApart(g, s, t, t); }
    } else {
      if s < t + g.pagesize { PagesApart(g, s, t, s); }
    }
  }

  // -------------------------------------------------------------------------
  // The state of the allocator

  type FreeLists = map<Addr, seq<Addr>>

  /** A mapped page: its free list runs through exactly the cells that are not in use, and the use count
      and the free cells make up the capacity. */
  ghost predicate SlabOk(g: Geometry, l: Links, used: map<Addr, int>, free: FreeLists, live: set<Addr>, s: Addr)
    requires g.Ok()
  {
    && s % g.pagesize == 0 && s in used && s in free
    && Ring(l, s + FREELIST, free[s])
    && (forall c :: c in free[s] ==> c in Cells(g, s))
    && used[s] + |free[s]| == g.Capacity()
    && (forall c {:trigger c in live} :: c in Cells(g, s) ==> (c in live <==> c !in free[s]))
  }

  /** The pages on the two lists: none twice, every node in use in one of them.  The heads of the lists
      lie in no page. */
  ghost predicate ListsOk(g: Geometry, l: Links, heads: (Addr, Addr), partials: seq<Addr>, fulls: seq<Addr>,
                          live: set<Addr>)
    requires g.Ok()
  {
    && heads.0 != heads.1 && Distinct(partials + fulls)
    && Ring(l, heads.0, partials) && Ring(l, heads.1, fulls)
    && (forall s {:trigger g.InPage(s, heads.0)} :: s in Both(partials, fulls) ==>
          !g.InPage(s, heads.0) && !g.InPage(s, heads.1))
    && (forall c {:trigger c in live} :: c in live ==>
          NodeToSlab(g, c) in Both(partials, fulls) && c in Cells(g, NodeToSlab(g, c)))
  }

  /** Pages with a free cell are on the one list and pages without on the other. */
  ghost predicate Sorted(free: FreeLists, partials: seq<Addr>, fulls: seq<Addr>) {
    && (forall s {:trigger s in free} :: s in partials ==> s in free && free[s] != [])
    && (forall s {:trigger s in free} :: s in fulls ==> s in free && free[s] == [])
  }

  ghost predicate SlabsOk(g: Geometry, l: Links, used: map<Addr, int>, free: FreeLists, live: set<Addr>,
                          slabs: set<Addr>)
    requires g.Ok()
  {
    forall s {:trigger SlabOk(g, l, used, free, live, s)} :: s in slabs ==> SlabOk(g, l, used, free, live, s)
  }

  ghost predicate Positive(used: map<Addr, int>, slabs: set<Addr>) {
    forall s {:trigger s in used} :: s in slabs ==> s in used && used[s] > 0
  }

  ghost function Both(partials: seq<Addr>, fulls: seq<Addr>): set<Addr> {
    set s | s in partials + fulls
  }

  /** The words of a page's free list lie in the page, and none is its entry on the lists of pages. */
  lemma FreeWords(g: Geometry, l: Links, used: map<Addr, int>, free: FreeLists, live: set<Addr>, s: Addr)
    requires g.Ok() && SlabOk(g, l, used, free, live, s)
    ensures forall a {:trigger a in Words(s + FREELIST, free[s])} :: a in Words(s + FREELIST, free[s]) ==>
      g.InPage(s, a) && a != s
  {
    var words := Words(s + FREELIST, free[s]);
    forall a {:trigger a in words} | a in words ensures g.InPage(s, a) && a != s {
      if a != s + FREELIST { CellOf(g, s, a); }
    }
  }

  /** A page is not concerned by what happens on the lists of pages or in another page. */
  lemma SlabFrame(g: Geometry, l: Links, l': Links, used: map<Addr, int>, used': map<Addr, int>, free: FreeLists,
                  free': FreeLists, live: set<Addr>, live': set<Addr>, changed: set<Addr>, s: Addr)
    requires g.Ok() && SlabOk(g, l, used, free, live, s) && Within(l, l', changed)
    requires forall a :: a in changed && g.InPage(s, a) ==> a == s
    requires s in used' && s in free' && used'[s] == used[s] && free'[s] == free[s]
    requires forall c :: c in Cells(g, s) ==> (c in live <==> c in live')
    ensures SlabOk(g, l', used', free', live', s)
  {
    FreeWords(g, l, used, free, live, s);
    RingApart(l, l', s + FREELIST, free[s], changed);
  }

  /** Words of one page are not words of another. */
  lemma OtherPage(g: Geometry, s: Addr, t: Addr, changed: set<Addr>)
    requires g.Ok() && s % g.pagesize == 0 && t % g.pagesize == 0 && s != t
    requires forall a :: a in changed ==> g.InPage(s, a)
    ensures forall a :: a in changed ==> !g.InPage(t, a)
    ensures Cells(g, s) !! Cells(g, t)
  {
    forall a | a in changed ensures !g.InPage(t, a) {
      if g.InPage(t, a) { PagesApart(g, s, t, a); }
    }
    forall c | c in Cells(g, s) ensures c !in Cells(g, t) {
      if c in Cells(g, t) {
        CellOf(g, s, c);
        CellOf(g, t, c);
        PagesApart(g, s, t, c);
      }
    }
  }

  /** The words of the lists of pages are entries of pages, or heads. */
  lemma ListWords(g: Geometry, l: Links, used: map<Addr, int>, free: FreeLists, live: set<Addr>, slabs: set<Addr>,
                  t: Addr, head: Addr, entries: seq<Addr>)
    requires g.Ok() && SlabsOk(g, l, used, free, live, slabs) && (forall s :: s in entries ==> s in slabs)
    requires t % g.pagesize == 0 && !g.InPage(t, head)
    ensures forall a :: a in Words(head, entries) && g.InPage(t, a) ==> a == t
  {
    forall a | a in Words(head, entries) && g.InPage(t, a) ensures a == t {
      assert SlabOk(g, l, used, free, live, a);
      PagesApart(g, a, t, a);
    }
  }

  lemma ListsChanged(g: Geometry, l: Links, l': Links, used: map<Addr, int>, free: FreeLists, live: set<Addr>,
                     slabs: set<Addr>, changed: set<Addr>)
    requires g.Ok() && SlabsOk(g, l, used, free, live, slabs) && Within(l, l', changed)
    requires forall s, a {:trigger g.InPage(s, a)} :: s in slabs && a in changed && g.InPage(s, a) ==> a == s
    ensures SlabsOk(g, l', used, free, live, slabs)
  {
    forall s | s in slabs ensures SlabOk(g, l', used, free, live, s) {
      assert SlabOk(g, l, used, free, live, s);
      SlabFrame(g, l, l', used, used, free, free, live, live, changed, s);
    }
  }

  /** One page's free list changes, and with it its count and which of its cells are in use. */
  lemma PageChanged(g: Geometry, l: Links, l': Links, used: map<Addr, int>, used': map<Addr, int>, free: FreeLists,
                    free': FreeLists, live: set<Addr>, live': set<Addr>, slabs: set<Addr>, s: Addr, changed: set<Addr>)
    requires g.Ok() && SlabsOk(g, l, used, free, live, slabs) && Within(l, l', changed)
    requires forall a :: a in changed ==> g.InPage(s, a)
    requires s % g.pagesize == 0 && SlabOk(g, l', used', free', live', s)
    requires used' - {s} == used - {s} && free' - {s} == free - {s}
    requires forall c :: c !in Cells(g, s) ==> (c in live <==> c in live')
    ensures SlabsOk(g, l', used', free', live', slabs)
  {
    forall t | t in slabs && t != s ensures SlabOk(g, l', used', free', live', t) {
      assert SlabOk(g, l, used, free, live, t);
      OtherPage(g, s, t, changed);
      assert t in used - {s} && t in free - {s};
      assert t in used' - {s} && t in free' - {s} && (used' - {s})[t] == (used - {s})[t] &&
        (free' - {s})[t] == (free - {s})[t];
      SlabFrame(g, l, l', used, used', free, free', live, live', changed, t);
    }
  }

  /** Taking the first free cell of a page. */
  lemma CellTaken(g: Geometry, l: Links, l': Links, used: map<Addr, int>, free: FreeLists, live: set<Addr>,
                  slabs: set<Addr>, s: Addr, changed: set<Addr>)
    requires g.Ok() && SlabsOk(g, l, used, free, live, slabs) && s in slabs && Within(l, l', changed)
    requires forall a :: a in changed ==> g.InPage(s, a)
    requires s in used && s in free && free[s] != [] && Ring(l', s + FREELIST, free[s][1..])
    ensures free[s][0] in Cells(g, s) && free[s][0] !in live
    ensures SlabsOk(g, l', used[s := used[s] + 1], free[s := free[s][1..]], live + {free[s][0]}, slabs)
  {
    assert SlabOk(g, l, used, free, live, s);
    var node, used', free' := free[s][0], used[s := used[s] + 1], free[s := free[s][1..]];
    var live' := live + {node};
    assert Distinct([s + FREELIST] + free[s]);
    forall c | c in Cells(g, s) ensures c in live' <==> c !in free'[s] {
      assert c in free[s] <==> c == node || c in free[s][1..];
      assert node !in free[s][1..] by {
        assert forall i :: 0 < i < |free[s]| ==> ([s + FREELIST] + free[s])[i + 1] == free[s][i];
        assert ([s + FREELIST] + free[s])[1] == node;
      }
    }
    assert SlabOk(g, l', used', free', live', s);
    PageChanged(g, l, l', used, used', free, free', live, live', slabs, s, changed);
  }

  /** Giving a cell back. */
  lemma CellGiven(g: Geometry, l: Links, l': Links, used: map<Addr, int>, free: FreeLists, live: set<Addr>,
                  slabs: set<Addr>, s: Addr, node: Addr, changed: set<Addr>)
    requires g.Ok() && SlabsOk(g, l, used, free, live, slabs) && s in slabs && Within(l, l', changed)
    requires forall a :: a in changed ==> g.InPage(s, a)
    requires s in used && s in free && node in Cells(g, s) && node in live && Ring(l', s + FREELIST, [node] + free[s])
    ensures SlabsOk(g, l', used[s := used[s] - 1], free[s := [node] + free[s]], live - {node}, slabs)
  {
    assert SlabOk(g, l, used, free, live, s);
    var used', free', live' := used[s := used[s] - 1], free[s := [node] + free[s]], live - {node};
    assert forall c :: c in free'[s] <==> c == node || c in free[s];
    assert SlabOk(g, l', used', free', live', s);
    PageChanged(g, l, l', used, used', free, free', live, live', slabs, s, changed);
  }

  /** The words of the two lists of pages are apart. */
  lemma HeadsApart(g: Geometry, l: Links, heads: (Addr, Addr), partials: seq<Addr>, fulls: seq<Addr>, live: set<Addr>)
    requires g.Ok() && ListsOk(g, l, heads, partials, fulls, live)
    ensures Words(heads.0, partials) !! Words(heads.1, fulls)
  {
    DistinctParts(partials, fulls);
    forall s | s in Both(partials, fulls) ensures s != heads.0 && s != heads.1 {
      assert !g.InPage(s, heads.0);
    }
    forall a | a in Words(heads.0, partials) ensures a !in Words(heads.1, fulls) {
      assert a != heads.0 ==> a in Both(partials, fulls);
      assert a in fulls ==> a in Both(partials, fulls);
    }
  }

  /** A page that went from one list to the other. */
  lemma Relisted(g: Geometry, l: Links, l': Links, used: map<Addr, int>, free: FreeLists, live: set<Addr>,
                 heads: (Addr, Addr), xs: seq<Addr>, k: nat, ys: seq<Addr>)
    requires g.Ok() && ListsOk(g, l, heads, xs, ys, live) && SlabsOk(g, l, used, free, live, Both(xs, ys)) && k < |xs|
    requires Within(l, l', Words(heads.0, xs) + Words(heads.1, ys))
    requires Ring(l', heads.0, xs[..k] + xs[k + 1..]) && Ring(l', heads.1, ys + [xs[k]])
    ensures var xs', ys' := xs[..k] + xs[k + 1..], ys + [xs[k]];
      && Both(xs', ys') == Both(xs, ys)
      && ListsOk(g, l', heads, xs', ys', live) && SlabsOk(g, l', used, free, live, Both(xs', ys'))
  {
    EntryMoved(xs, k, ys);
    var changed := Words(heads.0, xs) + Words(heads.1, ys);
    forall s, a {:trigger g.InPage(s, a)} | s in Both(xs, ys) && a in changed && g.InPage(s, a) ensures a == s {
      assert SlabOk(g, l, used, free, live, s) && !g.InPage(s, heads.0);
      ListWords(g, l, used, free, live, Both(xs, ys), s, heads.0, xs);
      ListWords(g, l, used, free, live, Both(xs, ys), s, heads.1, ys);
    }
    ListsChanged(g, l, l', used, free, live, Both(xs, ys), changed);
    assert Both(xs[..k] + xs[k + 1..], ys + [xs[k]]) == Both(xs, ys);
  }

  lemma ListsSwap(g: Geometry, l: Links, heads: (Addr, Addr), xs: seq<Addr>, ys: seq<Addr>, live: set<Addr>)
    requires g.Ok() && ListsOk(g, l, heads, xs, ys, live)
    ensures ListsOk(g, l, (heads.1, heads.0), ys, xs, live) && Both(ys, xs) == Both(xs, ys)
  {
    DistinctSwap(xs, ys);
    assert Both(ys, xs) == Both(xs, ys);
    forall s | s in Both(xs, ys) ensures !g.InPage(s, heads.0) && !g.InPage(s, heads.1) { }
  }

  /** What changes inside a page leaves the lists of pages alone. */
  lemma ListsFrame(g: Geometry, l: Links, l': Links, used: map<Addr, int>, free: FreeLists, heads: (Addr, Addr),
                   xs: seq<Addr>, ys: seq<Addr>,
                   live: set<Addr>, live': set<Addr>, s: Addr, changed: set<Addr>)
    requires g.Ok() && ListsOk(g, l, heads, xs, ys, live) && SlabsOk(g, l, used, free, live, Both(xs, ys))
    requires Within(l, l', changed) && (forall a :: a in changed ==> g.InPage(s, a) && a != s)
    requires s % g.pagesize == 0 && !g.InPage(s, heads.0) && !g.InPage(s, heads.1)
    requires forall c :: c in live' && c !in live ==>
      NodeToSlab(g, c) in Both(xs, ys) && c in Cells(g, NodeToSlab(g, c))
    ensures ListsOk(g, l', heads, xs, ys, live')
  {
    forall x | x in xs || x in ys ensures x in Both(xs, ys) { }
    ListWords(g, l, used, free, live, Both(xs, ys), s, heads.0, xs);
    ListWords(g, l, used, free, live, Both(xs, ys), s, heads.1, ys);
    RingApart(l, l', heads.0, xs, changed);
    RingApart(l, l', heads.1, ys, changed);
  }

  /** The addresses in a page behind its entry on a list of pages. */
  ghost function Inside(g: Geometry, slab: Addr): set<Addr> {
    set a {:trigger g.InPage(slab, a)} | slab < a < slab + g.pagesize && g.InPage(slab, a)
  }

  ghost function Cell(g: Geometry, slab: Addr, i: nat): (c: Addr)
    requires g.Ok() && i < g.Capacity()
    ensures c == g.CellAt(slab, i)
  {
    CellInPage(g, slab, i);
    g.CellAt(slab, i)
  }

  ghost function CellSeq(g: Geometry, slab: Addr, n: nat): (r: seq<Addr>)
    requires g.Ok() && n <= g.Capacity()
    ensures |r| == n
  {
    seq(n, i requires 0 <= i < n => Cell(g, slab, i))
  }

  lemma CellSeqIsCells(g: Geometry, slab: Addr)
    requires g.Ok()
    ensures forall c :: c in CellSeq(g, slab, g.Capacity()) <==> c in Cells(g, slab)
    ensures g.Capacity() >= 1
  {
    var s := CellSeq(g, slab, g.Capacity());
    forall c | c in Cells(g, slab) ensures c in s {
      var i :| 0 <= i < g.Capacity() && g.CellAt(slab, i) == c;
      assert s[i] == c;
    }
    forall c | c in s ensures c in Cells(g, slab) {
      var i :| 0 <= i < |s| && s[i] == c;
      CellInPage(g, slab, i);
    }
  }

  lemma NextCell(g: Geometry, slab: Addr, n: nat)
    requires g.Ok() && n < g.Capacity()
    ensures CellSeq(g, slab, n + 1) == CellSeq(g, slab, n) + [CellSeq(g, slab, n + 1)[n]]
    ensures var c := CellSeq(g, slab, n + 1)[n];
      c == g.CellAt(slab, n) && c !in [slab + FREELIST] + CellSeq(g, slab, n) && c in Inside(g, slab)
    ensures Words(slab + FREELIST, CellSeq(g, slab, n)) <= Inside(g, slab)
  {
    CellInPage(g, slab, n);
    var cells := CellSeq(g, slab, n);
    forall i | 0 <= i < n ensures cells[i] != g.CellAt(slab, n) && cells[i] in Inside(g, slab) {
      CellsApart(g, slab, i, n);
      CellInPage(g, slab, i);
    }
  }

  lemma WithinTwice(l0: Links, l1: Links, l2: Links, a: set<Addr>, b: set<Addr>, c: set<Addr>)
    requires Within(l0, l1, a) && Within(l1, l2, b) && a <= c && b <= c
    ensures Within(l0, l2, c)
  {
  }

  /** A page that is new has no node in use. */
  lemma NoNodesYet(g: Geometry, l: Links, heads: (Addr, Addr), partials: seq<Addr>, fulls: seq<Addr>, live: set<Addr>,
                   slab: Addr)
    requires g.Ok() && ListsOk(g, l, heads, partials, fulls, live) && slab % g.pagesize == 0 &&
      slab !in Both(partials, fulls)
    ensures live !! Cells(g, slab)
  {
    forall c | c in Cells(g, slab) ensures c !in live {
      MaskFindsSlab(g, slab, c);
    }
  }

  /** A new page, cut into free cells, at the end of a list. */
  lemma PageAdded(g: Geometry, l: Links, l1: Links, l2: Links, used: map<Addr, int>, free: FreeLists, live: set<Addr>,
                  heads: (Addr, Addr), partials: seq<Addr>, fulls: seq<Addr>, slab: Addr, cells: seq<Addr>)
    requires g.Ok() && ListsOk(g, l, heads, partials, fulls, live) &&
      SlabsOk(g, l, used, free, live, Both(partials, fulls))
    requires slab % g.pagesize == 0 && slab !in Both(partials, fulls) && !g.InPage(slab, heads.0) &&
      !g.InPage(slab, heads.1)
    requires Within(l, l1, Inside(g, slab)) && Ring(l1, slab + FREELIST, cells) &&
      cells == CellSeq(g, slab, g.Capacity())
    requires Within(l1, l2, Words(heads.0, partials) + {slab}) && Ring(l2, heads.0, partials + [slab])
    ensures Both(partials + [slab], fulls) == Both(partials, fulls) + {slab}
    ensures ListsOk(g, l2, heads, partials + [slab], fulls, live)
    ensures SlabsOk(g, l2, used[slab := 0], free[slab := cells], live, Both(partials, fulls) + {slab})
  {
    var was := Both(partials, fulls);
    var used', free' := used[slab := 0], free[slab := cells];
    var changed := Words(heads.0, partials) + {slab};
    ListsFrame(g, l, l1, used, free, heads, partials, fulls, live, live, slab, Inside(g, slab));
    CellSeqIsCells(g, slab);
    NoNodesYet(g, l, heads, partials, fulls, live, slab);
    assert SlabOk(g, l1, used', free', live, slab);
    assert used' - {slab} == used - {slab} && free' - {slab} == free - {slab};
    PageChanged(g, l, l1, used, used', free, free', live, live, was, slab, Inside(g, slab));
    assert SlabsOk(g, l1, used', free', live, was + {slab});
    forall s, a {:trigger g.InPage(s, a)} | s in was + {slab} && a in changed && g.InPage(s, a) ensures a == s {
      assert SlabOk(g, l1, used', free', live, s);
      assert s in was ==> !g.InPage(s, heads.0);
      ListWords(g, l1, used', free', live, was + {slab}, s, heads.0, partials);
      if a == slab { PagesApart(g, slab, s, a); }
    }
    ListsChanged(g, l1, l2, used', free', live, was + {slab}, changed);
    assert Both(partials + [slab], fulls) == was + {slab};
    HeadsApart(g, l1, heads, partials, fulls, live);
    assert slab !in Words(heads.1, fulls) by {
      assert slab in fulls ==> slab in was;
    }
    RingApart(l1, l2, heads.1, fulls, changed);
    assert Distinct(partials + [slab] + fulls) by {
      DistinctParts(partials, fulls);
      assert slab in partials ==> slab in was;
      assert slab in fulls ==> slab in was;
      DistinctParts(partials, [slab]);
      DistinctParts(partials + [slab], fulls);
    }
  }

  ghost function Elems(c: seq<Addr>): set<Addr> {
    set x | x in c
  }

  lemma {:induction false} DistinctCount(c: seq<Addr>)
    requires Distinct(c)
    ensures |Elems(c)| == |c|
  {
    if c != [] {
      var rest, last := c[..|c| - 1], c[|c| - 1];
      assert c == rest + [last];
      DistinctParts(rest, [last]);
      DistinctCount(rest);
      assert last in [last] && last !in rest;
      assert Elems(c) == Elems(rest) + {last};
    }
  }

  lemma CellCount(g: Geometry, s: Addr)
    requires g.Ok()
    ensures |Cells(g, s)| == g.Capacity()
  {
    var cells := CellSeq(g, s, g.Capacity());
    forall i, j | 0 <= i < j < |cells| ensures cells[i] != cells[j] {
      CellsApart(g, s, i, j);
    }
    CellSeqIsCells(g, s);
    DistinctCount(cells);
    assert Elems(cells) == Cells(g, s);
  }

  ghost function NodesOf(g: Geometry, live: set<Addr>, s: Addr): set<Addr>
    requires g.Ok()
  {
    Cells(g, s) * live
  }

  /** A page's use count is the number of its nodes in use. */
  lemma UseCount(g: Geometry, l: Links, used: map<Addr, int>, free: FreeLists, live: set<Addr>, s: Addr)
    requires g.Ok() && SlabOk(g, l, used, free, live, s)
    ensures used[s] == |NodesOf(g, live, s)|
  {
    hide Cells;
    var f := Elems(free[s]);
    DistinctParts([s + FREELIST], free[s]);
    DistinctCount(free[s]);
    CellCount(g, s);
    assert f <= Cells(g, s) && NodesOf(g, live, s) == Cells(g, s) - f;
  }

  /** No node is in use exactly when both lists of pages are empty: freeing every node unmaps every page. */
  lemma AllFreed(g: Geometry, l: Links, used: map<Addr, int>, free: FreeLists, live: set<Addr>, heads: (Addr, Addr),
                 partials: seq<Addr>, fulls: seq<Addr>)
    requires g.Ok() && ListsOk(g, l, heads, partials, fulls, live) &&
      SlabsOk(g, l, used, free, live, Both(partials, fulls))
    requires Positive(used, Both(partials, fulls))
    ensures heads.0 in l.next && heads.1 in l.next
    ensures live == {} <==> l.next[heads.0] == heads.0 && l.next[heads.1] == heads.1
  {
    RingEnds(l, heads.0, partials);
    RingEnds(l, heads.1, fulls);
    forall s | s in Both(partials, fulls) ensures exists c :: c in live {
      assert SlabOk(g, l, used, free, live, s);
      UseCount(g, l, used, free, live, s);
      var c :| c in NodesOf(g, live, s);
      assert c in live;
    }
    assert partials != [] ==> partials[0] in Both(partials, fulls);
    assert fulls != [] ==> fulls[0] in Both(partials, fulls);
    assert forall c :: c in live ==> NodeToSlab(g, c) in Both(partials, fulls);
  }

  /** A page whose last node is freed is unmapped; the rest of memory is not concerned. */
  function Unmapped(g: Geometry, l: Links, s: Addr): Links {
    Links(map a | a in l.next && !g.InPage(s, a) :: l.next[a], map a | a in l.prev && !g.InPage(s, a) :: l.prev[a])
  }

  lemma UnmappedWithin(g: Geometry, l: Links, l1: Links, words: set<Addr>, s: Addr)
    requires Within(l, l1, words)
    ensures Within(l, Unmapped(g, l1, s), words + Inside(g, s) + {s})
  {
    var changed := words + Inside(g, s) + {s};
    assert forall a :: g.InPage(s, a) && a >= 0 ==> a in changed;
  }

  /** The other pages are as they were when a page is unmapped. */
  lemma PagesKept(g: Geometry, l: Links, l1: Links, used: map<Addr, int>, free: FreeLists, live: set<Addr>,
                  heads: (Addr, Addr), xs: seq<Addr>, k: nat, ys: seq<Addr>, node: Addr)
    requires g.Ok() && ListsOk(g, l, heads, xs, ys, live) && SlabsOk(g, l, used, free, live, Both(xs, ys)) && k < |xs|
    requires Within(l, l1, Words(heads.0, xs)) && node in Cells(g, xs[k])
    ensures SlabsOk(g, Unmapped(g, l1, xs[k]), used - {xs[k]}, free - {xs[k]}, live - {node}, Both(xs, ys) - {xs[k]})
    ensures forall t :: t in Both(xs, ys) && t != xs[k] ==> t !in Inside(g, xs[k])
  {
    var slab, all := xs[k], Both(xs, ys);
    var l2 := Unmapped(g, l1, slab);
    var changed := Words(heads.0, xs) + Inside(g, slab) + {slab};
    assert slab in all && SlabOk(g, l, used, free, live, slab);
    UnmappedWithin(g, l, l1, Words(heads.0, xs), slab);
    forall t | t in all && t != slab
      ensures SlabOk(g, l2, used - {slab}, free - {slab}, live - {node}, t) && t !in Inside(g, slab)
    {
      assert SlabOk(g, l, used, free, live, t) && !g.InPage(t, heads.0);
      OtherPage(g, slab, t, Inside(g, slab) + {slab});
      ListWords(g, l, used, free, live, all, t, heads.0, xs);
      SlabFrame(g, l, l2, used, used - {slab}, free, free - {slab}, live, live - {node}, changed, t);
    }
  }

  lemma PageRemoved(g: Geometry, l: Links, l1: Links, used: map<Addr, int>, free: FreeLists, live: set<Addr>,
                    heads: (Addr, Addr), xs: seq<Addr>, k: nat, ys: seq<Addr>, node: Addr)
    requires g.Ok() && ListsOk(g, l, heads, xs, ys, live) && SlabsOk(g, l, used, free, live, Both(xs, ys)) && k < |xs|
    requires Within(l, l1, Words(heads.0, xs)) && Ring(l1, heads.0, xs[..k] + xs[k + 1..])
    requires NodesOf(g, live, xs[k]) == {node}
    ensures var xs', slab := xs[..k] + xs[k + 1..], xs[k];
      && Both(xs', ys) == Both(xs, ys) - {slab}
      && ListsOk(g, Unmapped(g, l1, slab), heads, xs', ys, live - {node})
      && SlabsOk(g, Unmapped(g, l1, slab), used - {slab}, free - {slab}, live - {node}, Both(xs', ys))
  {
    hide SlabsOk, SlabOk, Cells, NodeToSlab;
    var slab, xs', all := xs[k], xs[..k] + xs[k + 1..], Both(xs, ys);
    var l2 := Unmapped(g, l1, slab);
    EntryDropped(xs, k, ys);
    assert Both(xs', ys) == all - {slab};
    assert node in NodesOf(g, live, slab);
    PagesKept(g, l, l1, used, free, live, heads, xs, k, ys, node);
    assert slab in all && !g.InPage(slab, heads.0) && !g.InPage(slab, heads.1);
    HeadsApart(g, l, heads, xs, ys, live);
    forall x | x in xs || x in ys ensures x in all { }
    EntryMoved(xs, k, ys);
    RingApart(l, l2, heads.1, ys, Words(heads.0, xs) + Inside(g, slab) + {slab});
    RingApart(l1, l2, heads.0, xs', Inside(g, slab) + {slab});
    forall c | c in live - {node} ensures NodeToSlab(g, c) in Both(xs', ys) && c in Cells(g, NodeToSlab(g, c)) {
      assert c in live && c !in NodesOf(g, live, slab);
    }
    forall s | s in Both(xs', ys) ensures !g.InPage(s, heads.0) && !g.InPage(s, heads.1) {
      assert s in all;
    }
  }

  lemma ListsRings(g: Geometry, l: Links, heads: (Addr, Addr), partials: seq<Addr>, fulls: seq<Addr>, live: set<Addr>)
    requires g.Ok() && ListsOk(g, l, heads, partials, fulls, live)
    ensures Ring(l, heads.0, partials) && Ring(l, heads.1, fulls) && Distinct(partials + fulls)
  {
  }

  /** The first free cell of a page, off the page's list: the page, the other pages and the lists of
      pages are in order with that node in use. */
  lemma FirstTaken(g: Geometry, l: Links, l': Links, used: map<Addr, int>, free: FreeLists, live: set<Addr>,
                   heads: (Addr, Addr),
                   partials: seq<Addr>, fulls: seq<Addr>, s: Addr)
    requires g.Ok() && ListsOk(g, l, heads, partials, fulls, live) &&
      SlabsOk(g, l, used, free, live, Both(partials, fulls))
    requires s in Both(partials, fulls) && s in used && s in free && free[s] != []
    requires Within(l, l', Words(s + FREELIST, free[s])) && Ring(l', s + FREELIST, free[s][1..])
    ensures free[s][0] in Cells(g, s) && free[s][0] !in live
    ensures var live' := live + {free[s][0]};
      && ListsOk(g, l', heads, partials, fulls, live')
      && SlabsOk(g, l', used[s := used[s] + 1], free[s := free[s][1..]], live', Both(partials, fulls))
  {
    hide Ring, Cells;
    var changed, node := Words(s + FREELIST, free[s]), free[s][0];
    assert SlabOk(g, l, used, free, live, s);
    FreeWords(g, l, used, free, live, s);
    CellTaken(g, l, l', used, free, live, Both(partials, fulls), s, changed);
    MaskFindsSlab(g, s, node);
    assert !g.InPage(s, heads.0);
    ListsFrame(g, l, l', used, free, heads, partials, fulls, live, live + {node}, s, changed);
  }

  lemma SlabRing(g: Geometry, l: Links, used: map<Addr, int>, free: FreeLists, live: set<Addr>, slabs: set<Addr>,
                 s: Addr)
    requires g.Ok() && SlabsOk(g, l, used, free, live, slabs) && s in slabs
    ensures s % g.pagesize == 0 && s in used && s in free && Ring(l, s + FREELIST, free[s])
  {
    assert SlabOk(g, l, used, free, live, s);
  }

  /** A node in use is on no free list, and its page's free list lies in the page. */
  lemma NotFree(g: Geometry, l: Links, used: map<Addr, int>, free: FreeLists, live: set<Addr>, slabs: set<Addr>,
                s: Addr, node: Addr)
    requires g.Ok() && SlabsOk(g, l, used, free, live, slabs) && s in slabs && node in Cells(g, s) && node in live
    ensures s in free && node !in [s + FREELIST] + free[s]
    ensures forall a {:trigger a in Words(s + FREELIST, free[s])} :: a in Words(s + FREELIST, free[s]) ==>
      g.InPage(s, a) && a != s
    ensures g.InPage(s, node) && node != s
  {
    assert SlabOk(g, l, used, free, live, s);
    FreeWords(g, l, used, free, live, s);
    CellOf(g, s, node);
  }

  lemma HeadsOutside(g: Geometry, l: Links, heads: (Addr, Addr), partials: seq<Addr>, fulls: seq<Addr>,
                     live: set<Addr>, s: Addr)
    requires g.Ok() && ListsOk(g, l, heads, partials, fulls, live) && s in Both(partials, fulls)
    ensures !g.InPage(s, heads.0) && !g.InPage(s, heads.1)
    ensures forall c :: c in live ==> NodeToSlab(g, c) in Both(partials, fulls) && c in Cells(g, NodeToSlab(g, c))
  {
    assert !g.InPage(s, heads.0);
  }

  lemma LivePage(g: Geometry, l: Links, heads: (Addr, Addr), partials: seq<Addr>, fulls: seq<Addr>, live: set<Addr>,
                 node: Addr)
    requires g.Ok() && ListsOk(g, l, heads, partials, fulls, live) && node in live
    ensures NodeToSlab(g, node) in Both(partials, fulls) && node in Cells(g, NodeToSlab(g, node))
  {
  }

  lemma CountOf(g: Geometry, l: Links, used: map<Addr, int>, free: FreeLists, live: set<Addr>, slabs: set<Addr>,
                s: Addr, node: Addr)
    requires g.Ok() && SlabsOk(g, l, used, free, live, slabs) && s in slabs && node in Cells(g, s) && node in live
    ensures s in used && used[s] >= 1 && (used[s] == 1 <==> NodesOf(g, live, s) == {node})
  {
    assert SlabOk(g, l, used, free, live, s);
    UseCount(g, l, used, free, live, s);
    var mine := NodesOf(g, live, s);
    assert node in mine && |mine - {node}| == |mine| - 1;
    assert mine - {node} == {} <==> mine == {node};
  }

  ghost function Memory(g: Geometry, node: Addr): set<Addr> {
    set a {:trigger g.InNode(node, a)} | node <= a < node + g.nodeSize && g.InNode(node, a)
  }

  /** Whatever is written into a node in use, as by memset in alloc_node, no list notices. */
  lemma NodeWritten(g: Geometry, l: Links, l': Links, used: map<Addr, int>, free: FreeLists, live: set<Addr>,
                    heads: (Addr, Addr),
                    partials: seq<Addr>, fulls: seq<Addr>, node: Addr)
    requires g.Ok() && ListsOk(g, l, heads, partials, fulls, live) &&
      SlabsOk(g, l, used, free, live, Both(partials, fulls))
    requires node in live && Within(l, l', Memory(g, node))
    ensures ListsOk(g, l', heads, partials, fulls, live) && SlabsOk(g, l', used, free, live, Both(partials, fulls))
  {
    var s, slabs, changed := NodeToSlab(g, node), Both(partials, fulls), Memory(g, node);
    assert s in slabs && SlabOk(g, l, used, free, live, s) && !g.InPage(s, heads.0);
    CellOf(g, s, node);
    assert Words(s + FREELIST, free[s]) !! changed by {
      forall c | c in free[s] ensures c !in changed { NodesApart(g, s, node, s, c); }
    }
    RingApart(l, l', s + FREELIST, free[s], changed);
    assert SlabOk(g, l', used, free, live, s);
    PageChanged(g, l, l', used, used, free, free, live, live, slabs, s, changed);
    ListsFrame(g, l, l', used, free, heads, partials, fulls, live, live, s, changed);
  }

  lemma SortedMoved(free: FreeLists, partials: seq<Addr>, fulls: seq<Addr>, s: Addr)
    requires Sorted(free, partials, fulls) && s in free && free[s] == []
    ensures Sorted(free, partials, fulls + [s])
  {
  }

  class Allocator {
    const g: Geometry
    const heads: (Addr, Addr)          // &f->partial_slabs, &f->full_slabs
    var links: Links
    var used: map<Addr, int>           // slab->used, by page
    ghost var partials: seq<Addr>
    ghost var fulls: seq<Addr>
    ghost var free: FreeLists
    ghost var live: set<Addr>

    ghost predicate Inv()
      reads this
    {
      && g.Ok() && ListsOk(g, links, heads, partials, fulls, live) && Sorted(free, partials, fulls)
      && SlabsOk(g, links, used, free, live, Both(partials, fulls))
    }

    /** Between operations every page has a node in use. */
    ghost predicate Valid()
      reads this
    {
      Inv() && Positive(used, Both(partials, fulls))
    }

    constructor (g: Geometry, heads: (Addr, Addr))
      requires g.Ok() && heads.0 != heads.1
      ensures Valid() && partials == [] && fulls == [] && live == {} && this.g == g && this.heads == heads
    {
      this.g, this.heads := g, heads;
      links := Links(map[heads.0 := heads.0, heads.1 := heads.1], map[heads.0 := heads.0, heads.1 := heads.1]);
      used, partials, fulls, free, live := map[], [], [], map[], {};
      new;
      assert LinkedAt(links, [heads.0], 0) && LinkedAt(links, [heads.1], 0) && Both([], []) == {};
    }

    // -----------------------------------------------------------------------
    // Lists

    method ListAdd(entry: Addr, before: Addr, after: Addr)
      modifies this`links
      ensures links == Added(old(links), entry, before, after)
    {
      links := links.(prev := links.prev[after := entry]);
      links := links.(next := links.next[entry := after]);
      links := links.(prev := links.prev[entry := before]);
      links := links.(next := links.next[before := entry]);
    }

    method ListAddHead(entry: Addr, head: Addr, ghost entries: seq<Addr>)
      requires Ring(links, head, entries) && entry !in [head] + entries
      modifies this`links
      ensures Ring(links, head, [entry] + entries) && Within(old(links), links, Words(head, entries) + {entry})
    {
      RingEnds(links, head, entries);
      RingInsert(links, head, entries, 0, entry);
      AddedWithin(links, head, entries, 0, entry);
      assert entries[..0] + [entry] + entries[0..] == [entry] + entries;
      ListAdd(entry, head, links.next[head]);
    }

    method ListAddTail(entry: Addr, head: Addr, ghost entries: seq<Addr>)
      requires Ring(links, head, entries) && entry !in [head] + entries
      modifies this`links
      ensures Ring(links, head, entries + [entry]) && Within(old(links), links, Words(head, entries) + {entry})
    {
      RingEnds(links, head, entries);
      RingInsert(links, head, entries, |entries|, entry);
      AddedWithin(links, head, entries, |entries|, entry);
      assert entries[..|entries|] + [entry] + entries[|entries|..] == entries + [entry];
      assert ([head] + entries)[|entries|] == if entries == [] then head else entries[|entries| - 1];
      ListAdd(entry, links.prev[head], head);
    }

    method ListDel(entry: Addr, ghost head: Addr, ghost entries: seq<Addr>, ghost k: nat)
      requires Ring(links, head, entries) && k < |entries| && entries[k] == entry
      modifies this`links
      ensures Ring(links, head, entries[..k] + entries[k + 1..]) && Within(old(links), links, Words(head, entries))
    {
      RingRemove(links, head, entries, k);
      DeletedWithin(links, head, entries, k);
      var before, after := links.prev[entry], links.next[entry];
      links := links.(prev := links.prev[after := before]);
      links := links.(next := links.next[before := after]);
    }

    /** Taking a page off one of the lists and putting it at the end of the other. */
    method Relist(slab: Addr, ghost from: Addr, ghost entries: seq<Addr>, ghost k: nat, to: Addr,
                  ghost others: seq<Addr>)
      requires Ring(links, from, entries) && k < |entries| && entries[k] == slab
      requires Ring(links, to, others) && Words(from, entries) !! Words(to, others)
      modifies this`links
      ensures Ring(links, from, entries[..k] + entries[k + 1..]) && Ring(links, to, others + [slab])
      ensures Within(old(links), links, Words(from, entries) + Words(to, others))
    {
      ghost var l, less := links, entries[..k] + entries[k + 1..];
      DistinctParts([from], entries);
      DistinctRemove(entries, k);
      assert slab in Words(from, entries) && forall a :: a in Words(to, others) <==> a in [to] + others;
      ListDel(slab, from, entries, k);
      RingApart(l, links, to, others, Words(from, entries));
      ghost var l' := links;
      ListAddTail(slab, to, others);
      assert Words(from, less) !! Words(to, others) + {slab};
      RingApart(l', links, from, less, Words(to, others) + {slab});
    }

    /** The middle of alloc_node: the first free cell of a page is taken. */
    method TakeCell(slab: Addr) returns (node: Addr)
      requires Inv() && slab in partials
      modifies this`links, this`used, this`free, this`live
      ensures ListsOk(g, links, heads, partials, fulls, live) &&
        SlabsOk(g, links, used, free, live, Both(partials, fulls))
      ensures slab in old(used) && slab in old(free) && old(free)[slab] != [] && node == old(free)[slab][0]
      ensures node in Cells(g, slab) && node !in old(live) && live == old(live) + {node}
      ensures used == old(used)[slab := old(used)[slab] + 1] && free == old(free)[slab := old(free)[slab][1..]]
    {
      hide ListsOk, SlabsOk, Ring, Cells, NodeToSlab;
      ghost var l, slabs := links, Both(partials, fulls);
      assert slab in slabs && slab in free && free[slab] != [];
      SlabRing(g, links, used, free, live, slabs, slab);
      RingEnds(links, slab + FREELIST, free[slab]);
      used := used[slab := used[slab] + 1];
      node := links.next[slab + FREELIST];
      ListDel(node, slab + FREELIST, free[slab], 0);
      assert free[slab][..0] + free[slab][1..] == free[slab][1..];
      FirstTaken(g, l, links, old(used), free, live, heads, partials, fulls, slab);
      live := live + {node};
      free := free[slab := free[slab][1..]];
    }

    /** What mmap may return: an aligned page that is not mapped yet. */
    ghost predicate FreshPage(mem: Addr)
      requires g.Ok()
      reads this
    {
      mem % g.pagesize == 0 && mem !in Both(partials, fulls) && !g.InPage(mem, heads.0) && !g.InPage(mem, heads.1)
    }

    /** The loop of alloc_slab: the page is cut into cells, all on its free list. */
    method CutPage(slab: Addr)
      requires g.Ok()
      modifies this`links
      ensures Ring(links, slab + FREELIST, CellSeq(g, slab, g.Capacity())) && Within(old(links), links, Inside(g, slab))
    {
      var head := slab + FREELIST;
      links := Links(links.next[head := head], links.prev[head := head]);
      var num := (g.pagesize - HEADER) / g.nodeSize;
      var i := 0;
      assert Ring(links, head, CellSeq(g, slab, 0)) by {
        assert CellSeq(g, slab, 0) == [] && LinkedAt(links, [head], 0);
      }
      while i < num
        invariant 0 <= i <= num && Ring(links, head, CellSeq(g, slab, i)) && Within(old(links), links, Inside(g, slab))
      {
        NextCell(g, slab, i);
        ghost var l, c := links, g.CellAt(slab, i);
        ListAddTail(slab + g.pagesize - num * g.nodeSize + i * g.nodeSize, head, CellSeq(g, slab, i));
        WithinTwice(old(links), l, links, Inside(g, slab), Words(head, CellSeq(g, slab, i)) + {c}, Inside(g, slab));
        i := i + 1;
      }
    }

    /** alloc_slab, with what mmap answered. */
    method AllocSlab(mem: Option<Addr>) returns (ok: bool)
      requires Inv() && (mem.Some? ==> FreshPage(mem.value))
      modifies this`links, this`used, this`free, this`partials
      ensures Inv() && ok == mem.Some?
      ensures !ok ==> links == old(links) && used == old(used) && free == old(free) && partials == old(partials)
      ensures ok ==> partials == old(partials) + [mem.value] && used == old(used)[mem.value := 0]
      ensures ok ==> free == old(free)[mem.value := CellSeq(g, mem.value, g.Capacity())]
    {
      if mem.None? {
        return false;
      }
      var slab := mem.value;
      ghost var l, cells := links, CellSeq(g, slab, g.Capacity());
      CutPage(slab);
      used := used[slab := 0];
      ghost var l1 := links;
      assert slab !in [heads.0] + partials by {
        assert slab in partials ==> slab in Both(partials, fulls);
        assert !g.InPage(slab, heads.0);
      }
      ListsFrame(g, l, l1, old(used), free, heads, partials, fulls, live, live, slab, Inside(g, slab));
      ListAddTail(slab, heads.0, partials);
      PageAdded(g, l, l1, links, old(used), free, live, heads, partials, fulls, slab, cells);
      CellSeqIsCells(g, slab);
      assert Sorted(free[slab := cells], partials + [slab], fulls) by {
        assert slab in fulls ==> slab in Both(partials, fulls);
      }
      free := free[slab := cells];
      partials := partials + [slab];
      return true;
    }

    /** A page without a free cell goes to the end of the other list. */
    method ToFulls(slab: Addr)
      requires g.Ok() && ListsOk(g, links, heads, partials, fulls, live) &&
        SlabsOk(g, links, used, free, live, Both(partials, fulls))
      requires partials != [] && partials[0] == slab && slab in free && free[slab] == [] &&
        Sorted(free, partials[1..], fulls)
      modifies this`links, this`partials, this`fulls
      ensures Inv() && Both(partials, fulls) == old(Both(partials, fulls))
    {
      hide ListsOk, SlabsOk, Ring, Sorted;
      ghost var l := links;
      assert Ring(links, heads.0, partials) &&
        Ring(links, heads.1, fulls) by { ListsRings(g, links, heads, partials, fulls, live); }
      HeadsApart(g, links, heads, partials, fulls, live);
      Relist(slab, heads.0, partials, 0, heads.1, fulls);
      Relisted(g, l, links, used, free, live, heads, partials, 0, fulls);
      assert partials[..0] + partials[1..] == partials[1..];
      SortedMoved(free, partials[1..], fulls, slab);
      partials, fulls := partials[1..], fulls + [slab];
      assert Both(partials, fulls) == old(Both(partials, fulls));
      assert ListsOk(g, links, heads, partials, fulls, live) &&
        SlabsOk(g, links, used, free, live, Both(partials, fulls));
    }

    /** The page of a node, and how the node is counted there. */
    ghost predicate InUse(node: Addr, slab: Addr)
      requires g.Ok()
      reads this
    {
      slab in Both(partials, fulls) && node in Cells(g, slab) && node in live
    }

    /** The memset of alloc_node, as far as it concerns the words of a list entry. */
    method ClearNode(node: Addr)
      requires Inv() && node in live
      modifies this`links
      ensures Inv()
    {
      hide ListsOk, SlabsOk;
      ghost var l := links;
      assert node in Memory(g, node) by {
        assert g.InNode(node, node);
      }
      links := Links(links.next[node := 0], links.prev[node := 0]);
      NodeWritten(g, l, links, used, free, live, heads, partials, fulls, node);
    }

    /** The end of alloc_node: a page that became full changes lists, and the node is cleared. */
    method Settle(slab: Addr, node: Addr)
      requires g.Ok() && ListsOk(g, links, heads, partials, fulls, live) &&
        SlabsOk(g, links, used, free, live, Both(partials, fulls))
      requires partials != [] && partials[0] == slab && slab in free && Sorted(free, partials[1..], fulls) &&
        node in live
      modifies this`links, this`partials, this`fulls
      ensures Inv() && Both(partials, fulls) == old(Both(partials, fulls))
    {
      hide ListsOk, SlabsOk, Ring, Cells;
      SlabRing(g, links, used, free, live, Both(partials, fulls), slab);
      RingEnds(links, slab + FREELIST, free[slab]);
      if links.next[slab + FREELIST] == slab + FREELIST {
        ToFulls(slab);
      } else {
        assert partials == [slab] + partials[1..];
      }
      ClearNode(node);
    }

    /** alloc_node, with what mmap would answer if a page is needed. */
    method AllocNode(mem: Option<Addr>) returns (node: Option<Addr>)
      requires Valid() && (mem.Some? ==> FreshPage(mem.value))
      modifies this
      ensures Valid()
      ensures node.None? <==> old(partials) == [] && mem.None?
      ensures node.None? ==>
        live == old(live) && links == old(links) && Both(partials, fulls) == old(Both(partials, fulls))
      ensures node.Some? ==> node.value !in old(live) && live == old(live) + {node.value}
      ensures node.Some? ==> InUse(node.value, if old(partials) == [] then mem.value else old(partials)[0])
      ensures node.Some? ==>
        Both(partials, fulls) == old(Both(partials, fulls)) + (if old(partials) == [] then {mem.value} else {})
    {
      hide ListsOk, SlabsOk, Ring, Cells;
      ListsRings(g, links, heads, partials, fulls, live);
      RingEnds(links, heads.0, partials);
      if links.next[heads.0] == heads.0 {
        var ok := AllocSlab(mem);
        if !ok {
          return None;
        }
        assert Both(partials, fulls) == old(Both(partials, fulls)) + {mem.value};
        ListsRings(g, links, heads, partials, fulls, live);
        RingEnds(links, heads.0, partials);
      }
      var slab := links.next[heads.0];
      assert slab == partials[0] && slab in Both(partials, fulls);
      ListsRings(g, links, heads, partials, fulls, live);
      OnlyOnce(partials, fulls);
      var n := TakeCell(slab);
      Settle(slab, n);
      return Some(n);
    }

    /** A full page that gets a free cell goes to the end of the list of pages that have one. */
    method ToPartials(slab: Addr)
      requires g.Ok() && ListsOk(g, links, heads, partials, fulls, live) &&
        SlabsOk(g, links, used, free, live, Both(partials, fulls))
      requires slab in fulls && Sorted(free, partials, fulls)
      modifies this`links, this`partials, this`fulls
      ensures ListsOk(g, links, heads, partials, fulls, live) &&
        SlabsOk(g, links, used, free, live, Both(partials, fulls))
      ensures Both(partials, fulls) == old(Both(partials, fulls)) && slab !in fulls && slab in partials
      ensures forall s :: s in partials && s != slab ==> s in old(partials)
      ensures forall s :: s in fulls ==> s in old(fulls)
    {
      hide ListsOk, SlabsOk, Ring, Sorted;
      ghost var l := links;
      ghost var k :| 0 <= k < |fulls| && fulls[k] == slab;
      ListsRings(g, links, heads, partials, fulls, live);
      HeadsApart(g, links, heads, partials, fulls, live);
      Relist(slab, heads.1, fulls, k, heads.0, partials);
      ListsSwap(g, l, heads, partials, fulls, live);
      Relisted(g, l, links, used, free, live, (heads.1, heads.0), fulls, k, partials);
      ghost var less, more := fulls[..k] + fulls[k + 1..], partials + [slab];
      DistinctSwap(partials, fulls);
      EntryMoved(fulls, k, partials);
      ListsSwap(g, links, (heads.1, heads.0), less, more, live);
      partials, fulls := more, less;
      assert ListsOk(g, links, heads, partials, fulls, live) &&
        SlabsOk(g, links, used, free, live, Both(partials, fulls));
    }

    /** The part of free_node_mem for a page that keeps a node in use. */
    method GiveCell(node: Addr, slab: Addr)
      requires Inv() && InUse(node, slab)
      modifies this`links, this`used, this`free, this`live, this`partials, this`fulls
      ensures Inv() && live == old(live) - {node} && Both(partials, fulls) == old(Both(partials, fulls))
      ensures slab in old(used) && used == old(used)[slab := old(used)[slab] - 1]
    {
      hide ListsOk, SlabsOk, Ring, Cells;
      SlabRing(g, links, used, free, live, Both(partials, fulls), slab);
      RingEnds(links, slab + FREELIST, free[slab]);
      if links.next[slab + FREELIST] == slab + FREELIST {
        ToPartials(slab);
        SlabRing(g, links, used, free, live, Both(partials, fulls), slab);
      }
      assert Sorted(free[slab := [node] + free[slab]], partials, fulls);
      ghost var l, slabs, changed := links, Both(partials, fulls), Words(slab + FREELIST, free[slab]) + {node};
      NotFree(g, links, used, free, live, slabs, slab, node);
      HeadsOutside(g, links, heads, partials, fulls, live, slab);
      ListAddHead(node, slab + FREELIST, free[slab]);
      CellGiven(g, l, links, used, free, live, slabs, slab, node, changed);
      ListsFrame(g, l, links, used, free, heads, partials, fulls, live, live - {node}, slab, changed);
      used := used[slab := used[slab] - 1];
      free := free[slab := [node] + free[slab]];
      live := live - {node};
      assert ListsOk(g, links, heads, partials, fulls, live) &&
        SlabsOk(g, links, used, free, live, Both(partials, fulls));
    }

    /** free_slab, and munmap. */
    method FreeSlab(slab: Addr, ghost node: Addr)
      requires Inv() && InUse(node, slab) && NodesOf(g, live, slab) == {node}
      modifies this`links, this`used, this`free, this`live, this`partials, this`fulls
      ensures Inv() && live == old(live) - {node} && Both(partials, fulls) == old(Both(partials, fulls)) - {slab}
      ensures used == old(used) - {slab}
    {
      hide ListsOk, SlabsOk, Ring, Cells;
      ghost var l := links;
      ListsRings(g, links, heads, partials, fulls, live);
      ghost var partial := slab in partials;
      ghost var head, entries := if partial then heads.0 else heads.1, if partial then partials else fulls;
      ghost var k :| 0 <= k < |entries| && entries[k] == slab;
      ListDel(slab, head, entries, k);
      if partial {
        EntryDropped(partials, k, fulls);
        PageRemoved(g, l, links, used, free, live, heads, partials, k, fulls, node);
        partials := partials[..k] + partials[k + 1..];
      } else {
        DistinctSwap(partials, fulls);
        EntryDropped(fulls, k, partials);
        ListsSwap(g, l, heads, partials, fulls, live);
        PageRemoved(g, l, links, used, free, live, (heads.1, heads.0), fulls, k, partials, node);
        fulls := fulls[..k] + fulls[k + 1..];
        ListsSwap(g, Unmapped(g, links, slab), (heads.1, heads.0), fulls, partials, live - {node});
      }
      links := Unmapped(g, links, slab);
      used := used - {slab};
      free := free - {slab};
      live := live - {node};
      assert Both(partials, fulls) == old(Both(partials, fulls)) - {slab};
      assert forall s :: s in partials || s in fulls ==> s in Both(partials, fulls);
      assert Sorted(free, partials, fulls);
      assert ListsOk(g, links, heads, partials, fulls, live) &&
        SlabsOk(g, links, used, free, live, Both(partials, fulls));
    }

    /** free_node_mem: the node's page is unmapped exactly when no other node is in use there. */
    method FreeNodeMem(node: Addr)
      requires Valid() && node in live
      modifies this
      ensures Valid() && live == old(live) - {node}
      ensures var slab := NodeToSlab(g, node);
        var gone := if NodesOf(g, old(live), slab) == {node} then {slab} else {};
        Both(partials, fulls) == old(Both(partials, fulls)) - gone
    {
      hide ListsOk, SlabsOk, Ring, Cells;
      var slab := node - node % g.pagesize;
      LivePage(g, links, heads, partials, fulls, live, node);
      CountOf(g, links, used, free, live, Both(partials, fulls), slab, node);
      if used[slab] - 1 != 0 {
        GiveCell(node, slab);
      } else {
        FreeSlab(slab, node);
      }
    }
  }
}
