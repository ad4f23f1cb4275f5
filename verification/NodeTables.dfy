/** The two node tables of fuse.c: linear hashing that grows one bucket at a time, shrinks a few
    buckets at a time, and doubles or halves its array at the ends of a phase.  id_table and
    name_table run the same algorithm over different keys; it is modelled once, over any key. */
module NodeTables {

  import opened Options
  import opened InodeTree

  const NODE_TABLE_MIN_SIZE: nat := 8192

  // -------------------------------------------------------------------------
  // Hashing

  /** The 32-bit product of id_hash. */
  function IdRaw(ino: Ino): (h: nat)
    ensures h < 0x1_0000_0000
  {
    ((ino % 0x1_0000_0000) * 2654435761) % 0x1_0000_0000
  }

  /** The 64-bit running hash of name_hash; a char contributes its low eight bits. */
  function NameRaw(key: Link): (h: nat)
    ensures h < 0x1_0000_0000_0000_0000
  {
    Fold31(key.parent % 0x1_0000_0000_0000_0000, key.name)
  }

  function Fold31(h: nat, name: string): (r: nat)
    requires h < 0x1_0000_0000_0000_0000
    ensures r < 0x1_0000_0000_0000_0000
    decreases |name|
  {
    if name == [] then h
    else Fold31((h * 31 + name[0] as int % 0x100) % 0x1_0000_0000_0000_0000, name[1..])
  }

  /** The bucket of an unreduced hash: buckets below `split` have already been divided in two. */
  function Bucket(h: nat, size: nat, split: nat): nat
    requires size >= 2
  {
    var hash := h % size;
    var oldhash := hash % (size / 2);
    if oldhash >= split then oldhash else hash
  }

  /** 8192 doubled any number of times. */
  ghost predicate IsSize(n: nat) {
    n == NODE_TABLE_MIN_SIZE || (n > NODE_TABLE_MIN_SIZE && n % 2 == 0 && IsSize(n / 2))
  }

  lemma {:induction false} SizeIsEven(n: nat)
    requires IsSize(n)
    ensures n % 2 == 0 && n >= NODE_TABLE_MIN_SIZE
  {
  }

  lemma ModOfDouble(h: nat, n: nat)
    requires n > 0
    ensures (h % (2 * n)) % n == h % n
    ensures h % (2 * n) == h % n || h % (2 * n) == h % n + n
  {
    var q, r := h / (2 * n), h % (2 * n);
    assert h == (2 * n) * q + r;
    if r < n {
      assert h == n * (2 * q) + r by { assert (2 * n) * q == n * (2 * q); }
      DivModUnique(h, n, 2 * q, r);
    } else {
      assert h == n * (2 * q + 1) + (r - n) by {
        assert (2 * n) * q == n * (2 * q);
        assert n * (2 * q + 1) == n * (2 * q) + n;
      }
      DivModUnique(h, n, 2 * q + 1, r - n);
      DivModUnique(r, n, 1, r - n);
    }
  }

  lemma DivModUnique(h: int, n: int, q: int, r: int)
    requires n > 0 && h == n * q + r && 0 <= r < n
    ensures h / n == q && h % n == r
  {
    var d := q - h / n;
    assert n * d == h % n - r by { assert n * d == n * q - n * (h / n); }
    MultipleIsFar(n, d);
  }

  lemma MultipleIsFar(n: int, d: int)
    requires n > 0
    ensures d >= 1 ==> n * d >= n
    ensures d <= -1 ==> n * d <= -n
  {
    if d >= 1 { assert n * d == n + n * (d - 1); }
    if d <= -1 { assert n * d == -n + n * (d + 1); }
  }

  /** A bucket is one of the undivided ones or one of the `split` new ones: nothing lies at or
      above split + size / 2. */
  lemma BucketRange(h: nat, size: nat, split: nat)
    requires size >= 2 && size % 2 == 0 && split <= size / 2
    ensures Bucket(h, size, split) < size / 2 + split
  {
    var half := size / 2;
    assert size == 2 * half;
    ModOfDouble(h, half);
    assert h % half < half;
  }

  /** Dividing bucket `split`: an entry either stays or moves up by size / 2, and no other bucket
      is concerned. */
  lemma BucketAfterSplit(h: nat, size: nat, split: nat)
    requires size >= 2 && size % 2 == 0 && split < size / 2
    ensures Bucket(h, size, split) == split
            ==> Bucket(h, size, split + 1) == split || Bucket(h, size, split + 1) == split + size / 2
    ensures Bucket(h, size, split) != split ==> Bucket(h, size, split + 1) == Bucket(h, size, split)
    ensures Bucket(h, size, split) != split + size / 2
  {
    ModOfDouble(h, size / 2);
  }

  /** The phase change: a fully divided table of one size is an undivided table of the double. */
  lemma BucketAtPhaseEnd(h: nat, size: nat)
    requires size >= 2 && size % 2 == 0
    ensures Bucket(h, size, size / 2) == Bucket(h, 2 * size, 0)
  {
    ModOfDouble(h, size);
  }

  // -------------------------------------------------------------------------
  // Chains and the map they stand for

  datatype Entry<K, V> = Entry(key: K, node: V)

  function At<K>(raw: K -> nat, size: nat, split: nat, k: K): nat
    requires size >= 2
  {
    Bucket(raw(k), size, split)
  }

  ghost predicate NoDup<K(!new), V(!new)>(chain: seq<Entry<K, V>>) {
    forall i, j :: 0 <= i < j < |chain| ==> chain[i].key != chain[j].key
  }

  /** `e` belongs in bucket `b` of a table that stands for `m`. */
  ghost predicate Belongs<K(!new), V(!new)>(e: Entry<K, V>, b: nat, size: nat, split: nat, raw: K -> nat, m: map<K, V>)
    requires size >= 2
  {
    e.key in m && m[e.key] == e.node && At(raw, size, split, e.key) == b
  }

  /** The chain holds exactly the entries that belong in bucket `b`, each once. */
  ghost predicate ChainOk<K(!new), V(!new)>(chain: seq<Entry<K, V>>, b: nat, size: nat, split: nat, raw: K -> nat,
                            m: map<K, V>)
    requires size >= 2
  {
    NoDup(chain) && forall e :: e in chain <==> Belongs(e, b, size, split, raw, m)
  }

  ghost predicate Represents<K(!new), V(!new)>(a: seq<seq<Entry<K, V>>>, size: nat, split: nat, raw: K -> nat,
                               m: map<K, V>) {
    && 2 <= size <= |a| && size % 2 == 0 && split <= size / 2
    && forall b :: 0 <= b < size ==> ChainOk(a[b], b, size, split, raw, m)
  }

  lemma InChain<K(!new), V(!new)>(a: seq<seq<Entry<K, V>>>, size: nat, split: nat, raw: K -> nat, m: map<K, V>, k: K)
    requires Represents(a, size, split, raw, m) && k in m
    ensures At(raw, size, split, k) < size
    ensures Entry(k, m[k]) in a[At(raw, size, split, k)]
  {
    var b := At(raw, size, split, k);
    BucketRange(raw(k), size, split);
    assert ChainOk(a[b], b, size, split, raw, m);
    assert Belongs(Entry(k, m[k]), b, size, split, raw, m);
  }

  /** Buckets past the divided part are empty. */
  lemma UpperBucketsEmpty<K(!new), V(!new)>(a: seq<seq<Entry<K, V>>>, size: nat, split: nat, raw: K -> nat,
                            m: map<K, V>, b: nat)
    requires Represents(a, size, split, raw, m) && split + size / 2 <= b < size
    ensures a[b] == []
  {
    if a[b] != [] {
      assert ChainOk(a[b], b, size, split, raw, m);
      assert Belongs(a[b][0], b, size, split, raw, m);
      BucketRange(raw(a[b][0].key), size, split);
    }
  }

  lemma DropOne<K(!new), V(!new)>(chain: seq<Entry<K, V>>, i: nat)
    requires i < |chain| && NoDup(chain)
    ensures NoDup(chain[..i] + chain[i + 1..])
    ensures forall e :: e in chain[..i] + chain[i + 1..] <==> e in chain && e.key != chain[i].key
  {
    var r := chain[..i] + chain[i + 1..];
    forall e ensures e in r <==> e in chain && e.key != chain[i].key {
      if e in r {
        var j :| 0 <= j < |r| && r[j] == e;
        assert e == chain[if j < i then j else j + 1];
      }
      if e in chain && e.key != chain[i].key {
        var j :| 0 <= j < |chain| && chain[j] == e;
        assert r[if j < i then j else j - 1] == e;
      }
    }
  }

  lemma InsertOk<K(!new), V(!new)>(a: seq<seq<Entry<K, V>>>, size: nat, split: nat, raw: K -> nat, m: map<K, V>,
                   e: Entry<K, V>)
    requires Represents(a, size, split, raw, m) && e.key !in m
    ensures var b := At(raw, size, split, e.key);
      b < size && Represents(a[b := [e] + a[b]], size, split, raw, m[e.key := e.node])
  {
    var b, m' := At(raw, size, split, e.key), m[e.key := e.node];
    BucketRange(raw(e.key), size, split);
    var r := a[b := [e] + a[b]];
    forall c | 0 <= c < size ensures ChainOk(r[c], c, size, split, raw, m') {
      assert ChainOk(a[c], c, size, split, raw, m);
      forall x ensures x in r[c] <==> Belongs(x, c, size, split, raw, m') {
        assert x in a[c] <==> Belongs(x, c, size, split, raw, m);
      }
      forall i, j | 0 <= i < j < |r[c]| ensures r[c][i].key != r[c][j].key {
        if c == b { assert r[c][j] in a[c]; assert Belongs(r[c][j], c, size, split, raw, m); }
      }
    }
  }

  lemma RemoveOk<K(!new), V(!new)>(a: seq<seq<Entry<K, V>>>, size: nat, split: nat, raw: K -> nat, m: map<K, V>, k: K,
                   i: nat)
    requires Represents(a, size, split, raw, m) && k in m
    requires At(raw, size, split, k) < size && i < |a[At(raw, size, split, k)]|
    requires a[At(raw, size, split, k)][i].key == k
    ensures var b := At(raw, size, split, k);
      Represents(a[b := a[b][..i] + a[b][i + 1..]], size, split, raw, m - {k})
  {
    var b, m' := At(raw, size, split, k), m - {k};
    var r := a[b := a[b][..i] + a[b][i + 1..]];
    assert ChainOk(a[b], b, size, split, raw, m);
    DropOne(a[b], i);
    forall c | 0 <= c < size ensures ChainOk(r[c], c, size, split, raw, m') {
      assert ChainOk(a[c], c, size, split, raw, m);
      forall x ensures x in r[c] <==> Belongs(x, c, size, split, raw, m') {
        assert x in a[c] <==> Belongs(x, c, size, split, raw, m);
      }
    }
  }

  /** Bucket `split` has been shared out between itself and its new partner. */
  lemma SplitOk<K(!new), V(!new)>(a: seq<seq<Entry<K, V>>>, r: seq<seq<Entry<K, V>>>, size: nat, split: nat,
                  raw: K -> nat, m: map<K, V>)
    requires Represents(a, size, split, raw, m) && split < size / 2 && |r| == |a|
    requires forall c :: 0 <= c < size && c != split && c != split + size / 2 ==> r[c] == a[c]
    requires NoDup(r[split]) && NoDup(r[split + size / 2])
    requires forall e :: e in r[split] <==> e in a[split] && At(raw, size, split + 1, e.key) == split
    requires forall e :: e in r[split + size / 2] <==> e in a[split] && At(raw, size, split + 1, e.key) != split
    ensures Represents(r, size, split + 1, raw, m)
  {
    forall c | 0 <= c < size ensures ChainOk(r[c], c, size, split + 1, raw, m) {
      assert ChainOk(a[c], c, size, split, raw, m);
      assert ChainOk(a[split], split, size, split, raw, m);
      forall e ensures e in r[c] <==> Belongs(e, c, size, split + 1, raw, m) {
        BucketAfterSplit(raw(e.key), size, split);
        assert e in a[c] <==> Belongs(e, c, size, split, raw, m);
        assert e in a[split] <==> Belongs(e, split, size, split, raw, m);
      }
    }
  }

  /** While bucket `lo`, which held `all`, is being divided: its first `i` entries stay, and those
      that have to move are on the partner's chain `up`. */
  ghost predicate Dividing<K(!new), V(!new)>(all: seq<Entry<K, V>>, low: seq<Entry<K, V>>, up: seq<Entry<K, V>>, i: nat,
                                             size: nat, lo: nat, raw: K -> nat)
    requires i <= |low| && size >= 2
  {
    && NoDup(low) && NoDup(up)
    && (forall j :: 0 <= j < i ==> At(raw, size, lo + 1, low[j].key) == lo)
    && (forall e :: e in up ==> e in all && At(raw, size, lo + 1, e.key) != lo)
    && (forall e :: e in low ==> e in all)
    && (forall e :: e in all ==> e in low || e in up)
    && (forall e, x :: e in low && x in up ==> e.key != x.key)
  }

  lemma DivideStep<K(!new), V(!new)>(all: seq<Entry<K, V>>, low: seq<Entry<K, V>>, up: seq<Entry<K, V>>, i: nat,
                                     size: nat, lo: nat, raw: K -> nat)
    requires i < |low| && size >= 2 && Dividing(all, low, up, i, size, lo, raw)
    ensures if At(raw, size, lo + 1, low[i].key) != lo
            then Dividing(all, low[..i] + low[i + 1..], [low[i]] + up, i, size, lo, raw)
            else Dividing(all, low, up, i + 1, size, lo, raw)
  {
    if At(raw, size, lo + 1, low[i].key) != lo {
      DropOne(low, i);
      var low', up' := low[..i] + low[i + 1..], [low[i]] + up;
      assert forall e :: e in up' <==> e == low[i] || e in up;
      assert forall e :: e in low && e.key == low[i].key ==> e == low[i];
    }
  }

  /** The inverse: the last divided bucket takes its partner's chain back. */
  lemma MergeOk<K(!new), V(!new)>(a: seq<seq<Entry<K, V>>>, r: seq<seq<Entry<K, V>>>, size: nat, lo: nat,
                  raw: K -> nat, m: map<K, V>)
    requires Represents(a, size, lo + 1, raw, m) && |r| == |a|
    requires r[lo] == a[lo] + a[lo + size / 2] && r[lo + size / 2] == []
    requires forall c :: 0 <= c < size && c != lo && c != lo + size / 2 ==> r[c] == a[c]
    ensures Represents(r, size, lo, raw, m)
  {
    var hi := lo + size / 2;
    assert ChainOk(a[lo], lo, size, lo + 1, raw, m);
    assert ChainOk(a[hi], hi, size, lo + 1, raw, m);
    forall c | 0 <= c < size ensures ChainOk(r[c], c, size, lo, raw, m) {
      assert ChainOk(a[c], c, size, lo + 1, raw, m);
      forall e ensures e in r[c] <==> Belongs(e, c, size, lo, raw, m) {
        BucketAfterSplit(raw(e.key), size, lo);
        assert e in a[c] <==> Belongs(e, c, size, lo + 1, raw, m);
        assert e in a[lo] <==> Belongs(e, lo, size, lo + 1, raw, m);
        assert e in a[hi] <==> Belongs(e, hi, size, lo + 1, raw, m);
      }
      forall i, j | 0 <= i < j < |r[c]| ensures r[c][i].key != r[c][j].key {
        if c == lo && i < |a[lo]| <= j {
          assert a[lo][i] in a[lo] && a[hi][j - |a[lo]|] in a[hi];
          assert Belongs(a[lo][i], lo, size, lo + 1, raw, m);
          assert Belongs(a[hi][j - |a[lo]|], hi, size, lo + 1, raw, m);
        }
      }
    }
  }

  /** The end of a growing phase: doubling the array moves no entry. */
  lemma DoubleOk<K(!new), V(!new)>(a: seq<seq<Entry<K, V>>>, r: seq<seq<Entry<K, V>>>, size: nat, raw: K -> nat,
                   m: map<K, V>)
    requires Represents(a, size, size / 2, raw, m) && |r| == 2 * size
    requires forall c :: 0 <= c < size ==> r[c] == a[c]
    requires forall c :: size <= c < 2 * size ==> r[c] == []
    ensures Represents(r, 2 * size, 0, raw, m)
  {
    forall c | 0 <= c < 2 * size ensures ChainOk(r[c], c, 2 * size, 0, raw, m) {
      forall e ensures e in r[c] <==> Belongs(e, c, 2 * size, 0, raw, m) {
        BucketAtPhaseEnd(raw(e.key), size);
        BucketRange(raw(e.key), 2 * size, 0);
        if c < size {
          assert ChainOk(a[c], c, size, size / 2, raw, m);
          assert e in a[c] <==> Belongs(e, c, size, size / 2, raw, m);
        }
      }
      if c < size { assert ChainOk(a[c], c, size, size / 2, raw, m); }
    }
  }

  /** The end of a shrinking phase: the upper half is empty and can be dropped. */
  lemma HalveOk<K(!new), V(!new)>(a: seq<seq<Entry<K, V>>>, r: seq<seq<Entry<K, V>>>, size: nat, raw: K -> nat,
                  m: map<K, V>)
    requires Represents(a, size, 0, raw, m) && size % 4 == 0 && size / 2 <= |r|
    requires forall c :: 0 <= c < size / 2 ==> r[c] == a[c]
    ensures Represents(r, size / 2, size / 4, raw, m)
  {
    var half := size / 2;
    forall c | 0 <= c < half ensures ChainOk(r[c], c, half, size / 4, raw, m) {
      assert ChainOk(a[c], c, size, 0, raw, m);
      forall e ensures e in r[c] <==> Belongs(e, c, half, size / 4, raw, m) {
        BucketAtPhaseEnd(raw(e.key), half);
        assert e in a[c] <==> Belongs(e, c, size, 0, raw, m);
      }
    }
  }

  // -------------------------------------------------------------------------
  // The table object

  class NodeTable<K(!new, ==), V(!new, ==)> {
    const raw: K -> nat
    var buckets: array<seq<Entry<K, V>>>
    var use: nat
    var size: nat
    var split: nat
    ghost var contents: map<K, V>
    ghost var pending: nat    // removals that have unlinked their node but not yet counted it

    /** The table stands for `contents`; nodes being removed are still counted. */
    ghost predicate Valid()
      reads this, buckets
    {
      && IsSize(size)
      && Represents(buckets[..], size, split, raw, contents)
      && use == |contents| + pending
    }

    /** The load bound: fewer entries than active buckets, and a division still to do. */
    ghost predicate Loaded()
      reads this
    {
      use < size / 2 + split && split < size / 2
    }

    constructor (raw: K -> nat)
      ensures Valid() && Loaded() && contents == map[] && pending == 0 && fresh(buckets) && this.raw == raw
    {
      this.raw := raw;
      buckets := new seq<Entry<K, V>>[NODE_TABLE_MIN_SIZE](_ => []);
      use, size, split := 0, NODE_TABLE_MIN_SIZE, 0;
      contents, pending := map[], 0;
    }

    /** get_node_nocheck and lookup_node. */
    method Find(k: K) returns (r: Option<V>)
      requires Valid()
      ensures r == if k in contents then Some(contents[k]) else None
    {
      ghost var b := At(raw, size, split, k);
      BucketRange(raw(k), size, split);
      var chain := buckets[Bucket(raw(k), size, split)];
      assert ChainOk(chain, b, size, split, raw, contents);
      var i := 0;
      while i < |chain|
        invariant 0 <= i <= |chain|
        invariant forall j :: 0 <= j < i ==> chain[j].key != k
      {
        if chain[i].key == k {
          assert Belongs(chain[i], b, size, split, raw, contents);
          return Some(chain[i].node);
        }
        i := i + 1;
      }
      if k in contents {
        InChain(buckets[..], size, split, raw, contents, k);
      }
      return None;
    }

    /** hash_id, and the table part of hash_name. `memory` says whether growing the buckets, should
        it come to that, succeeds. */
    method Insert(k: K, node: V, memory: bool)
      requires Valid() && k !in contents
      modifies this, buckets
      ensures Valid() && contents == old(contents)[k := node] && pending == old(pending)
      ensures buckets == old(buckets) || fresh(buckets)
      ensures old(Loaded()) ==>
        (Loaded() <==> memory || old(use) + 1 < old(size) / 2 || old(split) + 1 < old(size) / 2)
    {
      InsertOk(buckets[..], size, split, raw, contents, Entry(k, node));
      var hash := Bucket(raw(k), size, split);
      buckets[hash] := [Entry(k, node)] + buckets[hash];
      use := use + 1;
      contents := contents[k := node];
      SizeIsEven(size);
      if use >= size / 2 {
        Rehash(memory);
      }
    }

    /** rehash_id and rehash_name: divide the next bucket. */
    method Rehash(memory: bool)
      requires Valid()
      modifies this, buckets
      ensures Valid() && contents == old(contents) && use == old(use) && pending == old(pending)
      ensures buckets == old(buckets) || fresh(buckets)
      ensures old(split) == size / 2 && size == old(size) ==> split == old(split)
      ensures old(split) < old(size) / 2 ==>
        if old(split) + 1 < old(size) / 2 then size == old(size) && split == old(split) + 1
        else if memory then size == 2 * old(size) && split == 0
        else size == old(size) && split == size / 2
    {
      if split == size / 2 {
        return;
      }
      SizeIsEven(size);
      DivideBucket();
      if split == size / 2 {
        var _ := Resize(memory);
      }
    }

    /** The loop of rehash_id and rehash_name: entries whose bucket has changed are unlinked and
        pushed onto the partner's chain. */
    method DivideBucket()
      requires Valid() && split < size / 2
      modifies this`split, buckets
      ensures Valid() && split == old(split) + 1
    {
      SizeIsEven(size);
      ghost var was := buckets[..];
      var lo, hi := split, split + size / 2;
      UpperBucketsEmpty(was, size, lo, raw, contents, hi);
      assert ChainOk(was[lo], lo, size, lo, raw, contents);
      split := split + 1;
      var i := 0;
      while i < |buckets[lo]|
        invariant 0 <= i <= |buckets[lo]|
        invariant forall c :: 0 <= c < size && c != lo && c != hi ==> buckets[c] == was[c]
        invariant Dividing(was[lo], buckets[lo], buckets[hi], i, size, lo, raw)
        decreases |buckets[lo]| - i
        modifies buckets
      {
        var node := buckets[lo][i];
        var newhash := Bucket(raw(node.key), size, split);
        assert Belongs(node, lo, size, lo, raw, contents);
        BucketAfterSplit(raw(node.key), size, lo);
        DivideStep(was[lo], buckets[lo], buckets[hi], i, size, lo, raw);
        if newhash != lo {
          buckets[lo] := buckets[lo][..i] + buckets[lo][i + 1..];
          buckets[newhash] := [node] + buckets[newhash];
        } else {
          i := i + 1;
        }
      }
      SplitOk(was, buckets[..], size, lo, raw, contents);
    }

    /** node_table_resize. */
    method Resize(memory: bool) returns (ok: bool)
      requires Valid() && split == size / 2
      modifies this
      ensures Valid() && contents == old(contents) && use == old(use) && pending == old(pending)
      ensures buckets == old(buckets) || fresh(buckets)
      ensures ok == memory
      ensures if ok then size == 2 * old(size) && split == 0 else size == old(size) && split == old(split)
    {
      if !memory {
        return false;
      }
      SizeIsEven(size);
      ghost var was := buckets[..];
      var newarray := new seq<Entry<K, V>>[2 * size](j reads this, buckets requires 0 <= j < 2 * size =>
        if j < size && j < buckets.Length then buckets[j] else []);
      DoubleOk(was, newarray[..], size, raw, contents);
      buckets := newarray;
      size := 2 * size;
      split := 0;
      return true;
    }

    /** unhash_id. */
    method Remove(k: K, node: V, memory: bool)
      requires Valid() && k in contents && contents[k] == node
      modifies this, buckets
      ensures Valid() && contents == old(contents) - {k} && pending == old(pending)
      ensures buckets == old(buckets) || fresh(buckets)
      ensures old(Loaded()) ==> Loaded()
    {
      Unlink(k, node);
      Discount(memory);
    }

    /** The first half of a removal: the node leaves its chain, but is still counted. */
    method Unlink(k: K, node: V)
      requires Valid() && k in contents && contents[k] == node
      modifies this`contents, this`pending, buckets
      ensures Valid() && contents == old(contents) - {k} && pending == old(pending) + 1
    {
      InChain(buckets[..], size, split, raw, contents, k);
      var hash := Bucket(raw(k), size, split);
      assert ChainOk(buckets[hash], hash, size, split, raw, contents);
      var i := 0;
      while buckets[hash][i] != Entry(k, node)
        invariant 0 <= i < |buckets[hash]|
        invariant forall j :: 0 <= j < i ==> buckets[hash][j] != Entry(k, node)
        decreases |buckets[hash]| - i
      {
        i := i + 1;
      }
      RemoveOk(buckets[..], size, split, raw, contents, k, i);
      buckets[hash] := buckets[hash][..i] + buckets[hash][i + 1..];
      contents, pending := contents - {k}, pending + 1;
    }

    /** The second half: the count goes down, and the table may shrink. */
    method Discount(memory: bool)
      requires Valid() && pending > 0
      modifies this, buckets
      ensures Valid() && contents == old(contents) && pending == old(pending) - 1
      ensures buckets == old(buckets) || fresh(buckets)
      ensures old(Loaded()) ==> Loaded()
    {
      use := use - 1;
      pending := pending - 1;
      SizeIsEven(size);
      if use < size / 4 {
        Remerge(memory);
      }
    }

    /** The table's part in a cascade of unhash_name: each removal unlinks its node, lets the cascade go
        on at the parent, and only then counts itself; the tables shrink from the inside out. */
    method RemoveCascade(es: seq<Entry<K, V>>, memory: seq<bool>)
      requires Valid() && |memory| == |es|
      requires forall i :: 0 <= i < |es| ==> es[i].key in contents && contents[es[i].key] == es[i].node
      requires forall i, j :: 0 <= i < j < |es| ==> es[i].key != es[j].key
      modifies this, buckets
      ensures Valid() && contents == old(contents) - (set e | e in es :: e.key) && pending == old(pending)
      ensures buckets == old(buckets) || fresh(buckets)
      ensures old(Loaded()) ==> Loaded()
      decreases |es|
    {
      hide Represents, IsSize;
      if es == [] {
        return;
      }
      Unlink(es[0].key, es[0].node);
      assert es == [es[0]] + es[1..];
      RemoveCascade(es[1..], memory[1..]);
      Discount(memory[0]);
    }

    /** remerge_id and remerge_name: undo up to eight divisions, stopping after the first one that
        moved a chain. */
    method Remerge(memory: bool)
      requires Valid() && use < size / 4
      modifies this, buckets
      ensures Valid() && contents == old(contents) && use == old(use) && pending == old(pending)
      ensures buckets == old(buckets) || fresh(buckets)
      ensures old(split) < old(size) / 2 ==> Loaded()
      ensures old(split) > 0 ==> size == old(size) && split < old(split) <= split + 8
      ensures old(split) == 0 && old(size) / 2 >= NODE_TABLE_MIN_SIZE ==>
        size == old(size) / 2 && split < size / 2 <= split + 8
      ensures old(split) == 0 && old(size) / 2 < NODE_TABLE_MIN_SIZE ==> size == old(size) && split == 0
    {
      SizeIsEven(size);
      if split == 0 {
        Reduce(memory);
        SizeIsEven(size);
      }
      ghost var start, newsize := split, size;
      var iter := 8;
      while split > 0 && iter > 0
        invariant Valid() && contents == old(contents) && use == old(use) && pending == old(pending)
        invariant buckets == old(buckets) || fresh(buckets)
        invariant use < size / 2 && size % 2 == 0 && size == newsize && 0 <= iter <= 8 && start - split == 8 - iter
        invariant
          || split < size / 2
          || (iter == 8 && split == size / 2 && (old(split) < old(size) / 2 ==> old(split) == 0))
        decreases iter
      {
        var moved := MergeLast();
        if moved {
          break;
        }
        iter := iter - 1;
      }
    }

    /** One round of the loop of remerge_id and remerge_name. */
    method MergeLast() returns (moved: bool)
      requires Valid() && split > 0
      modifies this, buckets
      ensures Valid() && contents == old(contents) && use == old(use) && pending == old(pending)
      ensures buckets == old(buckets) && size == old(size) && split == old(split) - 1
      ensures moved <==> old(buckets[..])[split + size / 2] != []
    {
      ghost var was := buckets[..];
      SizeIsEven(size);
      split := split - 1;
      var upper := split + size / 2;
      moved := buckets[upper] != [];
      if moved {
        buckets[split] := buckets[split] + buckets[upper];
        buckets[upper] := [];
      }
      MergeOk(was, buckets[..], size, split, raw, contents);
    }

    /** node_table_reduce. When the array cannot be moved it stays as it is, larger than needed. */
    method Reduce(memory: bool)
      requires Valid() && split == 0
      modifies this
      ensures Valid() && contents == old(contents) && use == old(use) && pending == old(pending)
      ensures buckets == old(buckets) || fresh(buckets)
      ensures if old(size) / 2 < NODE_TABLE_MIN_SIZE then size == old(size) && split == 0
              else size == old(size) / 2 && split == size / 2
    {
      var newsize := size / 2;
      if newsize < NODE_TABLE_MIN_SIZE {
        return;
      }
      SizeIsEven(size);
      SizeIsEven(newsize);
      ghost var was := buckets[..];
      if memory {
        var newarray := new seq<Entry<K, V>>[newsize](j reads this, buckets requires 0 <= j < newsize =>
          if j < buckets.Length then buckets[j] else []);
        HalveOk(was, newarray[..], size, raw, contents);
        buckets := newarray;
      } else {
        HalveOk(was, was, size, raw, contents);
      }
      size := newsize;
      split := size / 2;
    }
  }

  /** The two tables of a new file system: one algorithm over the two hashes. */
  method InitTables() returns (ids: NodeTable<Ino, Ino>, names: NodeTable<Link, Ino>)
    ensures fresh(ids) && fresh(names) && fresh(ids.buckets) && fresh(names.buckets)
    ensures ids.Valid() && ids.Loaded() && ids.contents == map[] && ids.pending == 0 && ids.raw == IdRaw
    ensures names.Valid() && names.Loaded() && names.contents == map[] && names.pending == 0 && names.raw == NameRaw
  {
    names := new NodeTable(NameRaw);
    ids := new NodeTable(IdRaw);
  }
}
